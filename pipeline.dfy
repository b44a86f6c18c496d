/** The processing loop of `parse_and_process_itch_file` (main.cpp:86-118):
    walk the frames of the input, count every message, decode the trade
    messages and fold each trade into the VWAP table. The input is the bytes
    of the mapped file. */
module Pipeline {
  import opened Endian
  import opened Trades
  import opened Framing
  import opened Vwap

  datatype Option<T> = None | Some(value: T)

  /** The trade a message carries: none, or the one it decodes to. */
  function TradeOf(m: seq<Byte>): (ts: seq<Trade>)
    ensures |ts| <= 1
    ensures ts != [] <==> Decode(m).TradeEvent?
  {
    var d := Decode(m);
    if d.TradeEvent? then [d.trade] else []
  }

  /** The trades carried by a run of messages, in order of arrival. */
  function TradesOf(ms: seq<seq<Byte>>): (ts: seq<Trade>)
    ensures |ts| <= |ms|
  {
    if ms == [] then [] else TradesOf(ms[..|ms| - 1]) + TradeOf(ms[|ms| - 1])
  }

  lemma TradesOfSnoc(ms: seq<seq<Byte>>, m: seq<Byte>)
    ensures TradesOf(ms + [m]) == TradesOf(ms) + TradeOf(m)
  {
    assert (ms + [m])[..|ms|] == ms;
  }

  /** The trades of two runs of messages are those of each run, in order. */
  lemma {:induction false} TradesOfConcat(a: seq<seq<Byte>>, b: seq<seq<Byte>>)
    ensures TradesOf(a + b) == TradesOf(a) + TradesOf(b)
    decreases |b|
  {
    if b == [] {
      assert a + b == a;
    } else {
      var b', last := b[..|b| - 1], b[|b| - 1];
      assert b == b' + [last] && a + b == (a + b') + [last];
      TradesOfSnoc(a + b', last);
      TradesOfSnoc(b', last);
      TradesOfConcat(a, b');
      TradesAssoc(TradesOf(a), TradesOf(b'), TradeOf(last));
    }
  }

  lemma TradesAssoc(x: seq<Trade>, y: seq<Trade>, z: seq<Trade>)
    ensures (x + y) + z == x + (y + z)
  {
  }

  /** Every message that decodes to a trade has that trade reported. */
  lemma {:induction false} TradesOfComplete(ms: seq<seq<Byte>>, i: nat)
    requires i < |ms| && Decode(ms[i]).TradeEvent?
    ensures Decode(ms[i]).trade in TradesOf(ms)
    decreases |ms|
  {
    if i < |ms| - 1 {
      var init := ms[..|ms| - 1];
      assert init[i] == ms[i];
      TradesOfComplete(init, i);
    }
  }

  /** Every reported trade comes from a message that decodes to it. */
  lemma {:induction false} TradesOfSound(ms: seq<seq<Byte>>, t: Trade) returns (i: nat)
    requires t in TradesOf(ms)
    ensures i < |ms| && Decode(ms[i]) == TradeEvent(t)
    decreases |ms|
  {
    var init := ms[..|ms| - 1];
    var d := Decode(ms[|ms| - 1]);
    if t in TradeOf(ms[|ms| - 1]) {
      i := |ms| - 1;
    } else {
      assert t in TradesOf(init);
      i := TradesOfSound(init, t);
      assert init[i] == ms[i];
    }
  }

  /** Cutting the input short keeps, in order, every trade before the cut. */
  lemma TradesOfTruncation(data: seq<Byte>, k: nat)
    requires k <= |data|
    ensures TradesOf(Frames(data[..k])) <= TradesOf(Frames(data))
  {
    var front, back := data[..k], data[k..];
    assert front + back == data;
    FramesOfExtension(front, back);
    TradesOfPrefix(Frames(front), Frames(data));
  }

  /** Cutting the input right after its j-th frame loses exactly the trades
      of the later frames: the trades of the whole input are those of the cut
      input followed by those of the frames after the cut. */
  lemma TradesOfCut(data: seq<Byte>, j: nat)
    requires j <= |Frames(data)|
    ensures |EncodeFrames(Frames(data)[..j])| <= |data|
    ensures TradesOf(Frames(data))
            == TradesOf(Frames(data[..|EncodeFrames(Frames(data)[..j])|])) + TradesOf(Frames(data)[j..])
  {
    var ms := Frames(data);
    FramesOfCut(data, j);
    assert ms == ms[..j] + ms[j..];
    TradesOfConcat(ms[..j], ms[j..]);
  }

  /** The trades of a prefix of a run of messages are a prefix of its trades. */
  lemma TradesOfPrefix(p: seq<seq<Byte>>, f: seq<seq<Byte>>)
    requires p <= f
    ensures TradesOf(p) <= TradesOf(f)
  {
    var q := f[|p|..];
    assert f == p + q;
    TradesOfConcat(p, q);
  }

  lemma SymbolsOfOne(t: Trade)
    ensures SymbolsOf([t]) == {t.symbol}
  {
    var syms := SymbolsOf([t]);
    assert [t][0].symbol == t.symbol;
    forall s | s in syms
      ensures s == t.symbol
    {
      var i :| 0 <= i < 1 && [t][i].symbol == s;
    }
  }

  lemma SymbolsOfConcat(a: seq<Trade>, b: seq<Trade>)
    ensures SymbolsOf(a + b) == SymbolsOf(a) + SymbolsOf(b)
  {
    var ab := a + b;
    forall s | s in SymbolsOf(a)
      ensures s in SymbolsOf(ab)
    {
      var i :| 0 <= i < |a| && a[i].symbol == s;
      assert ab[i] == a[i];
    }
    forall s | s in SymbolsOf(b)
      ensures s in SymbolsOf(ab)
    {
      var i :| 0 <= i < |b| && b[i].symbol == s;
      assert ab[|a| + i] == b[i];
    }
    forall s | s in SymbolsOf(ab)
      ensures s in SymbolsOf(a) || s in SymbolsOf(b)
    {
      var i :| 0 <= i < |ab| && ab[i].symbol == s;
      if i < |a| {
        assert ab[i] == a[i];
      } else {
        assert ab[i] == b[i - |a|];
      }
    }
  }

  /** The loop's field loads, each converted from network order, read the
      big-endian fields of a trade message (main.cpp:106-111). */
  lemma TradeOfLoads(m: seq<Byte>)
    requires |m| >= TradeExtent
    ensures TradeFields(m)
            == Trade(SymbolOf(m[SymbolOffset..SymbolOffset + SymbolWidth]),
                     BigToHost64(Load64(m[TimestampOffset..TimestampOffset + TimestampWidth])),
                     DecodePrice(BigToHost32(Load32(m[PriceOffset..PriceOffset + PriceWidth]))),
                     BigToHost32(Load32(m[SharesOffset..SharesOffset + SharesWidth])))
  {
    BigToHost64OfLoad(m[TimestampOffset..TimestampOffset + TimestampWidth]);
    BigToHost32OfLoad(m[SharesOffset..SharesOffset + SharesWidth]);
    BigToHost32OfLoad(m[PriceOffset..PriceOffset + PriceWidth]);
  }

  /** The handling of one complete frame's message inside the loop
      (main.cpp:102-115): the fields of a trade message are loaded, converted
      from network order and folded into the table. Only reads within the
      message are made: an empty message has no tag, and a trade message too
      short for its fields is skipped. */
  method ProcessMessage(message: seq<Byte>, table: VwapTable) returns (traded: bool)
    requires table.Valid()
    modifies table
    ensures table.Valid()
    ensures traded <==> Decode(message).TradeEvent?
    ensures table.folded == old(table.folded) + TradeOf(message)
    ensures table.hourlyVwaps.Keys == old(table.hourlyVwaps).Keys + SymbolsOf(TradeOf(message))
  {
    traded := false;
    if |message| > 0 {
      var messageType := message[0];
      if IsTradeTag(messageType) && |message| >= TradeExtent {
        var timestamp := BigToHost64(Load64(message[TimestampOffset..TimestampOffset + TimestampWidth]));
        var shares := BigToHost32(Load32(message[SharesOffset..SharesOffset + SharesWidth]));
        var symbol := SymbolOf(message[SymbolOffset..SymbolOffset + SymbolWidth]);
        var priceRaw := BigToHost32(Load32(message[PriceOffset..PriceOffset + PriceWidth]));
        var price := DecodePrice(priceRaw);
        var trade := Trade(symbol, timestamp, price, shares);
        TradeOfLoads(message);
        assert TradeOf(message) == [trade];
        SymbolsOfOne(trade);
        table.ProcessTrade(trade);
        traded := true;
      }
    }
    if !traded {
      assert TradeOf(message) == [];
      assert SymbolsOf([]) == {};
    }
  }

  /** The framing step of the loop (main.cpp:94-100, 117): when the 2-byte
      length prefix at `offset` and the message it announces both fit in the
      input, the message is the first frame from offset on and the frames
      after it start at `next`; otherwise no frame starts at offset. */
  method NextFrame(data: seq<Byte>, offset: nat) returns (found: bool, message: seq<Byte>, next: nat)
    requires offset <= |data|
    ensures found ==> offset + 2 + |message| == next <= |data|
    ensures found ==> FramesAt(data, offset) == [message] + FramesAt(data, next)
    ensures !found ==> FramesAt(data, offset) == []
  {
    found, message, next := false, [], offset;
    if offset + 2 > |data| {
      return;
    }
    var messageLength := BigToHost16(Load16(data[offset..offset + 2]));
    BigToHost16OfLoad(data[offset..offset + 2]);
    var start := offset + 2;
    if start + messageLength > |data| {
      return;
    }
    found, message, next := true, data[start..start + messageLength], start + messageLength;
  }

  /** `parse_and_process_itch_file`'s loop (main.cpp:91-118). It counts
      every complete frame and folds in the trade of every trade message,
      stopping quietly at a truncated frame. */
  method ParseAndProcess(data: seq<Byte>, table: VwapTable) returns (totalMessages: nat, tradesProcessed: nat)
    requires table.Valid()
    modifies table
    ensures table.Valid()
    ensures totalMessages == |Frames(data)|
    ensures tradesProcessed == |TradesOf(Frames(data))|
    ensures table.folded == old(table.folded) + TradesOf(Frames(data))
    ensures table.hourlyVwaps.Keys == old(table.hourlyVwaps).Keys + SymbolsOf(TradesOf(Frames(data)))
  {
    totalMessages, tradesProcessed := 0, 0;
    var offset := 0;
    ghost var seen: seq<seq<Byte>> := [];
    FramesAtIsFrames(data, 0);
    assert data[0..] == data;
    while offset < |data|
      invariant offset <= |data|
      invariant Frames(data) == seen + FramesAt(data, offset)
      invariant totalMessages == |seen|
      invariant tradesProcessed == |TradesOf(seen)|
      invariant table.Valid()
      invariant table.folded == old(table.folded) + TradesOf(seen)
      invariant table.hourlyVwaps.Keys == old(table.hourlyVwaps).Keys + SymbolsOf(TradesOf(seen))
      decreases |data| - offset
    {
      var found, message, next := NextFrame(data, offset);
      if !found {
        assert seen + [] == seen;
        break;
      }
      assert seen + ([message] + FramesAt(data, next)) == (seen + [message]) + FramesAt(data, next);
      totalMessages := totalMessages + 1;
      ghost var folded, keys := table.folded, table.hourlyVwaps.Keys;
      var traded := ProcessMessage(message, table);
      if traded {
        tradesProcessed := tradesProcessed + 1;
      }
      RecordStep(old(table.folded), old(table.hourlyVwaps).Keys, seen, message, traded,
                 folded, table.folded, keys, table.hourlyVwaps.Keys);
      seen := seen + [message];
      offset := next;
    }
    if offset == |data| {
      assert FramesAt(data, offset) == [];
      assert seen + [] == seen;
    }
    assert Frames(data) == seen;
  }

  /** The loop's bookkeeping after one message: the trades folded so far and
      the symbols in the table are those of the messages seen, this one
      included. */
  lemma RecordStep(base: seq<Trade>, baseKeys: set<string>, seen: seq<seq<Byte>>, message: seq<Byte>,
                   traded: bool, folded: seq<Trade>, folded': seq<Trade>, keys: set<string>, keys': set<string>)
    requires traded <==> Decode(message).TradeEvent?
    requires folded == base + TradesOf(seen) && folded' == folded + TradeOf(message)
    requires keys == baseKeys + SymbolsOf(TradesOf(seen)) && keys' == keys + SymbolsOf(TradeOf(message))
    ensures |TradesOf(seen + [message])| == |TradesOf(seen)| + if traded then 1 else 0
    ensures folded' == base + TradesOf(seen + [message])
    ensures keys' == baseKeys + SymbolsOf(TradesOf(seen + [message]))
  {
    TradesOfSnoc(seen, message);
    SymbolsOfConcat(TradesOf(seen), TradeOf(message));
  }

  // The loop as written, without the two length checks.

  /** The outcome of one iteration of the loop as written: it stops, it
      reads the input up to position `reach` (exclusive), which lies past
      the end of the input, or it moves on to the next offset, with the trade
      it decoded if any. */
  datatype Step = Stop | OutOfBounds(reach: nat) | Next(offset: nat, trade: Option<Trade>)

  /** One iteration of the loop exactly as main.cpp:93-117 writes it: the tag
      byte is read even for an empty message (main.cpp:102), and the fields
      at offsets 5 to 35 are read whatever the message length
      (main.cpp:106-110). */
  function AsWrittenStep(data: seq<Byte>, offset: nat): (r: Step)
    ensures r.Next? ==> offset + 2 <= r.offset <= |data|
    ensures r.OutOfBounds? ==> r.reach > |data|
  {
    if offset >= |data| || offset + 2 > |data| then Stop
    else
      var len := BigToHost16(Load16(data[offset..offset + 2]));
      var start := offset + 2;
      if start + len > |data| then Stop
      else if start >= |data| then OutOfBounds(start + 1)
      else if !IsTradeTag(data[start]) then Next(start + len, None)
      else if start + TradeExtent > |data| then OutOfBounds(start + TradeExtent)
      else Next(start + len, Some(TradeFields(data[start..start + TradeExtent])))
  }

  /** The loop as written stops exactly where the framer stops. */
  lemma AsWrittenStopsWhereFramesEnd(data: seq<Byte>, offset: nat)
    requires offset <= |data|
    ensures AsWrittenStep(data, offset) == Stop <==> FramesAt(data, offset) == []
  {
    if offset + 2 <= |data| {
      BigToHost16OfLoad(data[offset..offset + 2]);
    }
  }

  /** On a frame that is not empty and, when it carries a trade tag, is long
      enough for the fields, the loop as written does what ParseAndProcess
      does: it moves past the frame and yields the decoded trade. */
  lemma AsWrittenAgreesOnSoundFrames(data: seq<Byte>, offset: nat)
    requires offset + 2 <= |data|
    requires var len := BigEndian(data[offset..offset + 2]);
             && offset + 2 + len <= |data|
             && 0 < len
             && (IsTradeTag(data[offset + 2]) ==> TradeExtent <= len)
    ensures var len := BigEndian(data[offset..offset + 2]);
            var d := Decode(data[offset + 2..offset + 2 + len]);
            AsWrittenStep(data, offset) == Next(offset + 2 + len, if d.TradeEvent? then Some(d.trade) else None)
  {
    BigToHost16OfLoad(data[offset..offset + 2]);
    var len := BigEndian(data[offset..offset + 2]);
    var start := offset + 2;
    var m := data[start..start + len];
    if IsTradeTag(data[start]) {
      var fields := data[start..start + TradeExtent];
      assert m[..TradeExtent] == fields[..TradeExtent];
      TradeFieldsWithinExtent(m, fields);
    }
  }

  /** A frame of length 0 at the end of the input: the framer yields one empty
      message, which is not a trade, but the loop as written reads its tag
      at position 2, one past the end of the input. */
  lemma EmptyFrameReadsPastEnd()
    ensures Frames([0, 0]) == [[]]
    ensures Decode([]) == NotATrade
    ensures AsWrittenStep([0, 0], 0) == OutOfBounds(3)
  {
    var data: seq<Byte> := [0, 0];
    BigToHost16OfLoad(data[0..2]);
    assert data[..2] == data && data[2..2] == [] && data[2..] == [];
    assert BigEndian(data[..1]) == 0 by {
      assert data[..1][..0] == [];
    }
  }

  /** A one-byte 'P' message at the end of the input: the guarded decoder
      rejects it as too short, but the loop as written reads the fields at
      offsets 5 to 35 of a message with only one byte. */
  lemma ShortTradeReadsPastEnd()
    ensures Frames([0, 1, TagP]) == [[TagP]]
    ensures Decode([TagP]) == PayloadTooShort
    ensures AsWrittenStep([0, 1, TagP], 0) == OutOfBounds(38)
  {
    var data: seq<Byte> := [0, 1, TagP];
    BigToHost16OfLoad(data[0..2]);
    assert data[..2] == [0, 1];
    assert BigEndian([0, 1]) == 1 by {
      assert [0, 1][..1] == [0];
      assert [0][..0] == [];
    }
    assert data[2..3] == [TagP] && data[3..] == [];
  }

  /** A one-byte 'P' message followed by more input: the loop as written
      takes the bytes of what follows as the fields of a trade and folds that
      trade in, where the guarded decoder skips the message. */
  lemma ShortTradeReadsNextFrame()
    ensures AsWrittenStep([0, 1, TagP] + seq(35, _ => 0), 0) == Next(3, Some(Trade([], 0, 0.0, 0)))
    ensures Decode(([0, 1, TagP] + seq(35, _ => 0))[2..3]) == PayloadTooShort
  {
    var data: seq<Byte> := [0, 1, TagP] + seq(35, _ => 0);
    BigToHost16OfLoad(data[0..2]);
    assert data[..2] == [0, 1];
    assert BigEndian([0, 1]) == 1 by {
      assert [0, 1][..1] == [0];
      assert [0][..0] == [];
    }
    var m := data[2..2 + TradeExtent];
    assert forall i :: 1 <= i < |m| ==> m[i] == 0;
    ZeroFields(m);
    assert data[2..3] == [TagP];
  }

  /** A zero-length frame followed by a 'P' byte and 35 zero bytes: the
      framer yields one empty message, which is not a trade, and then stops,
      since the following length prefix 0x5000 exceeds the 36 remaining bytes;
      the loop as written reads the tag and the fields from the bytes after
      the empty frame and folds in a trade. */
  lemma EmptyFrameReadsNextFrame()
    ensures Frames([0, 0, TagP] + seq(35, _ => 0)) == [[]]
    ensures Decode([]) == NotATrade
    ensures AsWrittenStep([0, 0, TagP] + seq(35, _ => 0), 0) == Next(2, Some(Trade([], 0, 0.0, 0)))
  {
    var data: seq<Byte> := [0, 0, TagP] + seq(35, _ => 0);
    assert data[..2] == data[0..2] == [0, 0];
    assert BigEndian([0, 0]) == 0 by {
      assert [0, 0][..1] == [0];
      assert [0][..0] == [];
    }
    assert Frames(data) == [[]] by {
      var rest := data[2..];
      assert rest[..2] == [TagP, 0];
      assert BigEndian([TagP, 0]) == 0x5000 by {
        assert [TagP, 0][..1] == [TagP];
        assert [TagP][..0] == [];
      }
      assert data[2..2] == [];
    }
    assert AsWrittenStep(data, 0) == Next(2, Some(Trade([], 0, 0.0, 0))) by {
      BigToHost16OfLoad(data[0..2]);
      var m := data[2..2 + TradeExtent];
      assert forall i :: 1 <= i < |m| ==> m[i] == 0;
      ZeroFields(m);
    }
  }

  /** A message whose bytes after the tag are all zero carries the trade with
      an empty symbol, timestamp 0, price 0 and no shares. */
  lemma ZeroFields(m: seq<Byte>)
    requires |m| >= TradeExtent
    requires forall i :: 1 <= i < |m| ==> m[i] == 0
    ensures TradeFields(m) == Trade([], 0, 0.0, 0)
  {
    AllZero(m[TimestampOffset..TimestampOffset + TimestampWidth]);
    AllZero(m[SharesOffset..SharesOffset + SharesWidth]);
    AllZero(m[PriceOffset..PriceOffset + PriceWidth]);
    assert SymbolOf(m[SymbolOffset..SymbolOffset + SymbolWidth]) == [];
  }

  lemma {:induction false} AllZero(b: seq<Byte>)
    requires forall i :: 0 <= i < |b| ==> b[i] == 0
    ensures BigEndian(b) == 0
    decreases |b|
  {
    if b != [] {
      AllZero(b[..|b| - 1]);
    }
  }

  // Two 100-share 'P' trades of AAPL at 100.0 and 200.0, half an hour into
  // the day, framed one after the other.

  const ScenarioTimestamp: U64 := 1_800_000_000_000

  function ScenarioTrade(priceRaw: U32): (t: Trade)
  {
    Trade("AAPL", ScenarioTimestamp, DecodePrice(priceRaw), 100)
  }

  function ScenarioMessage(priceRaw: U32): (m: seq<Byte>)
    ensures |m| == TradeExtent
  {
    assert ValidSymbol("AAPL");
    TradeMessage(TagP, ScenarioTimestamp, 100, "AAPL", priceRaw, [0, 0, 0, 0], [0, 0, 0, 0, 0, 0, 0], [])
  }

  lemma ScenarioDecodes(priceRaw: U32)
    ensures Decode(ScenarioMessage(priceRaw)) == TradeEvent(ScenarioTrade(priceRaw))
  {
    assert ValidSymbol("AAPL");
    DecodeTradeMessage(TagP, ScenarioTimestamp, 100, "AAPL", priceRaw, [0, 0, 0, 0], [0, 0, 0, 0, 0, 0, 0], []);
  }

  /** Both messages come back from the framer, and both are trades. */
  lemma ScenarioFrames()
    ensures Framable([ScenarioMessage(1_000_000), ScenarioMessage(2_000_000)])
    ensures var ms := [ScenarioMessage(1_000_000), ScenarioMessage(2_000_000)];
            Frames(EncodeFrames(ms)) == ms
            && TradesOf(ms) == [ScenarioTrade(1_000_000), ScenarioTrade(2_000_000)]
  {
    var m1, m2 := ScenarioMessage(1_000_000), ScenarioMessage(2_000_000);
    var ms := [m1, m2];
    FramesOfEncoding(ms, []);
    assert EncodeFrames(ms) + [] == EncodeFrames(ms);
    ScenarioDecodes(1_000_000);
    ScenarioDecodes(2_000_000);
    var first := ms[..1];
    assert first == [m1] && |first[..0]| == 0;
  }

  /** In hour 0 of AAPL the volume is 200 and the notional 30000.0. */
  lemma ScenarioTotals()
    ensures var ts := [ScenarioTrade(1_000_000), ScenarioTrade(2_000_000)];
            && Volume(ts, "AAPL", 0) == 200
            && Notional(ts, "AAPL", 0) == 30000.0
            && Width(ts, "AAPL") == 1
  {
    var t1, t2 := ScenarioTrade(1_000_000), ScenarioTrade(2_000_000);
    var ts := [t1, t2];
    HourExamples();
    PriceExamples();
    assert DecodePrice(2_000_000) == 200.0;
    var first := ts[..1];
    assert first == [t1] && |first[..0]| == 0;
  }

  /** The scenario run through the loop: both messages are counted and
      folded in, and hour 0 of AAPL holds volume 200 and VWAP 150.0. */
  method TwoTradeScenario() returns (bucket: Bucket, totalMessages: nat, tradesProcessed: nat)
    ensures bucket == Bucket(150.0, 200)
    ensures totalMessages == 2 && tradesProcessed == 2
  {
    var ms := [ScenarioMessage(1_000_000), ScenarioMessage(2_000_000)];
    ScenarioFrames();
    ScenarioTotals();
    var ts := [ScenarioTrade(1_000_000), ScenarioTrade(2_000_000)];
    var table := new VwapTable();
    totalMessages, tradesProcessed := ParseAndProcess(EncodeFrames(ms), table);
    assert table.folded == ts;
    assert "AAPL" in table.hourlyVwaps;
    var row := table.hourlyVwaps["AAPL"];
    assert RowHolds(row, ts, "AAPL");
    bucket := row[0];
  }
}
