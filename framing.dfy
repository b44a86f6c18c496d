/** Message framing of the feed (main.cpp:93-100, 117): the input is a run of
    frames, each a 2-byte big-endian length followed by that many message
    bytes (tag first). The framer stops quietly at the first frame whose
    length prefix or message does not fit in the remaining input. */
module Framing {
  import opened Endian

  /** A message that a 2-byte length prefix can describe. */
  predicate Framable(ms: seq<seq<Byte>>)
  {
    forall i :: 0 <= i < |ms| ==> |ms[i]| < 0x1_0000
  }

  /** The messages the framer yields from the remaining input `rest`. Every
      frame consumes at least its 2-byte prefix, so there are at most half as
      many frames as bytes. */
  function Frames(rest: seq<Byte>): (ms: seq<seq<Byte>>)
    ensures 2 * |ms| <= |rest|
    ensures Framable(ms)
    decreases |rest|
  {
    if |rest| < 2 then []
    else
      var len := BigEndian(rest[..2]);
      Pow256Widths();
      if 2 + len > |rest| then []
      else [rest[2..2 + len]] + Frames(rest[2 + len..])
  }

  /** The framer as the loop walks it: the frames of `data` from position
      `offset` on, the length prefix read at offset and the message starting
      two bytes later. */
  function FramesAt(data: seq<Byte>, offset: nat): (ms: seq<seq<Byte>>)
    requires offset <= |data|
    decreases |data| - offset
  {
    if offset + 2 > |data| then []
    else
      var next := offset + 2 + BigEndian(data[offset..offset + 2]);
      if next > |data| then [] else [data[offset + 2..next]] + FramesAt(data, next)
  }

  /** Walking by position yields the frames of the rest of the input. */
  lemma {:induction false} FramesAtIsFrames(data: seq<Byte>, offset: nat)
    requires offset <= |data|
    ensures FramesAt(data, offset) == Frames(data[offset..])
    decreases |data| - offset
  {
    if offset + 2 <= |data| {
      var rest := data[offset..];
      assert rest[..2] == data[offset..offset + 2];
      var next := offset + 2 + BigEndian(data[offset..offset + 2]);
      if next <= |data| {
        assert rest[2..next - offset] == data[offset + 2..next];
        assert rest[next - offset..] == data[next..];
        FramesAtIsFrames(data, next);
      }
    }
  }

  /** Input on which the framer stops at once: fewer than two bytes, or a
      declared length larger than what follows the prefix. */
  predicate Truncated(rest: seq<Byte>)
  {
    |rest| < 2 || |rest| < 2 + BigEndian(rest[..2])
  }

  /** The wire form of a run of messages. */
  function EncodeFrames(ms: seq<seq<Byte>>): (data: seq<Byte>)
    requires Framable(ms)
  {
    if ms == [] then []
    else
      Pow256Widths();
      ToBigEndian(|ms[0]|, 2) + ms[0] + EncodeFrames(ms[1..])
  }

  /** The framer stops exactly on truncated input. */
  lemma FramesEmpty(rest: seq<Byte>)
    ensures Frames(rest) == [] <==> Truncated(rest)
  {
  }

  /** Framing undoes encoding: the messages of an encoded run come back,
      whatever truncated tail follows the last complete frame. */
  lemma {:induction false} FramesOfEncoding(ms: seq<seq<Byte>>, tail: seq<Byte>)
    requires Framable(ms)
    requires Truncated(tail)
    ensures Frames(EncodeFrames(ms) + tail) == ms
    decreases |ms|
  {
    if ms != [] {
      Pow256Widths();
      var m, ms' := ms[0], ms[1..];
      FramableTail(ms);
      EncodeFramesCons(m, ms');
      var prefix := ToBigEndian(|m|, 2);
      var later := EncodeFrames(ms') + tail;
      var data := EncodeFrames(ms) + tail;
      FrameOfConcat(data, prefix, m, later);
      FramesOfEncoding(ms', tail);
    } else {
      assert EncodeFrames(ms) + tail == tail;
    }
  }

  /** Encoding undoes framing: the input is the encoding of its frames
      followed by a truncated tail, so no byte before the tail is skipped
      and the frames never reach past the end of the input. */
  lemma {:induction false} FramesCoverInput(rest: seq<Byte>)
    ensures |EncodeFrames(Frames(rest))| <= |rest|
    ensures rest[..|EncodeFrames(Frames(rest))|] == EncodeFrames(Frames(rest))
    ensures Truncated(rest[|EncodeFrames(Frames(rest))|..])
    decreases |rest|
  {
    var ms := Frames(rest);
    if ms == [] {
      assert rest[..0] == [];
      assert rest[0..] == rest;
    } else {
      Pow256Widths();
      var head := rest[..2];
      var len := BigEndian(head);
      var m, after := rest[2..2 + len], rest[2 + len..];
      var later := Frames(after);
      assert ms == [m] + later;
      FramesCoverInput(after);
      var e := EncodeFrames(later);
      assert EncodeFrames(ms) == head + m + e by {
        EncodeFramesCons(m, later);
        ToBigEndianOfBigEndian(head);
      }
      SplitFrame(rest, 2 + len);
      PrefixOfConcat(rest, head + m, after, e);
    }
  }

  /** Sequence bookkeeping for FramesCoverInput: the input is its prefix,
      its message and what follows. */
  lemma SplitFrame(rest: seq<Byte>, k: nat)
    requires 2 <= k <= |rest|
    ensures rest == rest[..2] + rest[2..k] + rest[k..]
  {
  }

  /** Cutting the input right after its j-th frame keeps exactly the first j
      frames: the framer recognises the frame boundaries of a shortened input
      as it does those of the whole. */
  lemma FramesOfCut(data: seq<Byte>, j: nat)
    requires j <= |Frames(data)|
    ensures |EncodeFrames(Frames(data)[..j])| <= |data|
    ensures Frames(data[..|EncodeFrames(Frames(data)[..j])|]) == Frames(data)[..j]
  {
    var ms := Frames(data);
    var front, back := ms[..j], ms[j..];
    assert ms == front + back;
    EncodeFramesConcat(front, back);
    FramesCoverInput(data);
    var p := EncodeFrames(front);
    var e := EncodeFrames(ms);
    assert e[..|p|] == p;
    assert data[..|p|] == e[..|p|];
    FramesOfEncoding(front, []);
    assert p + [] == p;
  }

  /** The encoding of two runs is the encoding of the first followed by that
      of the second. */
  lemma {:induction false} EncodeFramesConcat(a: seq<seq<Byte>>, b: seq<seq<Byte>>)
    requires Framable(a) && Framable(b)
    ensures Framable(a + b)
    ensures EncodeFrames(a + b) == EncodeFrames(a) + EncodeFrames(b)
    decreases |a|
  {
    if a == [] {
      assert a + b == b;
    } else {
      var m, a' := a[0], a[1..];
      FramableTail(a);
      EncodeFramesConcat(a', b);
      assert a + b == [m] + (a' + b);
      EncodeFramesCons(m, a' + b);
      EncodeFramesCons(m, a');
      ConcatAssoc(ToBigEndian(|m|, 2) + m, EncodeFrames(a'), EncodeFrames(b));
    }
  }

  /** The messages after the first of a framable run are framable. */
  lemma FramableTail(ms: seq<seq<Byte>>)
    requires Framable(ms) && ms != []
    ensures ms == [ms[0]] + ms[1..]
    ensures |ms[0]| < 0x1_0000 && Framable(ms[1..])
  {
    forall i | 0 <= i < |ms| - 1
      ensures |ms[1..][i]| < 0x1_0000
    {
      assert ms[1..][i] == ms[i + 1];
    }
  }

  lemma ConcatAssoc(p: seq<Byte>, x: seq<Byte>, y: seq<Byte>)
    ensures p + (x + y) == p + x + y
  {
  }

  /** The encoding of a run starts with the first message's frame. */
  lemma EncodeFramesCons(m: seq<Byte>, ms: seq<seq<Byte>>)
    requires |m| < 0x1_0000 && Framable(ms)
    ensures Framable([m] + ms)
    ensures Pow256(2) == 0x1_0000
    ensures EncodeFrames([m] + ms) == ToBigEndian(|m|, 2) + m + EncodeFrames(ms)
  {
    Pow256Widths();
    var all := [m] + ms;
    assert all[0] == m && all[1..] == ms;
    forall i | 0 <= i < |all|
      ensures |all[i]| < 0x1_0000
    {
      if i > 0 {
        assert all[i] == ms[i - 1];
      }
    }
  }

  /** Sequence bookkeeping for FramesOfEncoding: the input cut at a frame's
      prefix length and message length. */
  lemma FrameOfConcat(data: seq<Byte>, prefix: seq<Byte>, m: seq<Byte>, later: seq<Byte>)
    requires |prefix| == 2
    requires data == prefix + m + later
    ensures data[..2] == prefix
    ensures data[2..2 + |m|] == m
    ensures data[2 + |m|..] == later
  {
  }

  /** Sequence bookkeeping for FramesCoverInput: when the input is a front
      part followed by `after`, and `after` starts with e, the input starts
      with the front part followed by e. */
  lemma PrefixOfConcat(rest: seq<Byte>, front: seq<Byte>, after: seq<Byte>, e: seq<Byte>)
    requires rest == front + after
    requires |e| <= |after| && after[..|e|] == e
    ensures |front + e| <= |rest|
    ensures rest[..|front + e|] == front + e
    ensures rest[|front + e|..] == after[|e|..]
  {
    assert after == e + after[|e|..];
    assert rest == (front + e) + after[|e|..];
  }

  /** More input never changes the frames already seen: the frames of a
      prefix of the input are a prefix of the frames of the whole input, so
      cutting an input short keeps every frame before the cut. */
  lemma {:induction false} FramesOfExtension(rest: seq<Byte>, more: seq<Byte>)
    ensures |Frames(rest)| <= |Frames(rest + more)|
    ensures Frames(rest + more)[..|Frames(rest)|] == Frames(rest)
    decreases |rest|
  {
    if Frames(rest) != [] {
      var len := BigEndian(rest[..2]);
      var m, after := rest[2..2 + len], rest[2 + len..];
      assert Frames(rest) == [m] + Frames(after);
      ExtendedPieces(rest, more, 2 + len);
      assert Frames(rest + more) == [m] + Frames(after + more);
      FramesOfExtension(after, more);
    }
  }

  /** Sequence bookkeeping for FramesOfExtension: the pieces of the input up
      to position k are unchanged by what is appended. */
  lemma ExtendedPieces(rest: seq<Byte>, more: seq<Byte>, k: nat)
    requires 2 <= k <= |rest|
    ensures (rest + more)[..2] == rest[..2]
    ensures (rest + more)[2..k] == rest[2..k]
    ensures (rest + more)[k..] == rest[k..] + more
  {
  }
}
