/** Trade messages: the hour-of-day mapping, the trade tags, the fixed field
    layout of a trade message and its decoding (main.cpp:16-21, 39-41,
    105-111). A message is the frame's bytes starting at the tag byte. */
module Trades {
  import opened Endian

  const NanosPerHour: nat := 3_600_000_000_000
  const HoursPerDay: nat := 24

  /** `timestamp_to_hour` (main.cpp:39-41). The result is the hour of the day
      that the timestamp falls in, counting days from the timestamp's origin:
      timestamps a whole number of days apart share an hour. */
  function TimestampToHour(t: U64): (h: nat)
    ensures h < HoursPerDay
  {
    (t / NanosPerHour) % HoursPerDay
  }

  /** The hour is the one the timestamp falls in within its day. */
  lemma HourWithinDay(t: U64)
    ensures var h := TimestampToHour(t);
            h * NanosPerHour <= t % (HoursPerDay * NanosPerHour) < (h + 1) * NanosPerHour
  {
    var q := t / NanosPerHour;
    var h := q % HoursPerDay;
    assert t == (q / HoursPerDay) * (HoursPerDay * NanosPerHour) + (h * NanosPerHour + t % NanosPerHour);
    assert t % (HoursPerDay * NanosPerHour) == h * NanosPerHour + t % NanosPerHour;
  }

  /** The interval property determines the hour: no other hour satisfies it. */
  lemma HourIsUnique(t: U64, h: nat)
    requires h * NanosPerHour <= t % (HoursPerDay * NanosPerHour) < (h + 1) * NanosPerHour
    ensures h == TimestampToHour(t)
  {
    HourWithinDay(t);
  }

  lemma HourExamples()
    ensures TimestampToHour(0) == 0
    ensures TimestampToHour(3_599_999_999_999) == 0
    ensures TimestampToHour(3_600_000_000_000) == 1
    ensures TimestampToHour(86_399_999_999_999) == 23
    ensures TimestampToHour(86_400_000_000_000) == 0
    ensures TimestampToHour(1_800_000_000_000) == 0
  {
  }

  /** The message types that carry a trade (main.cpp:105). */
  const TagP: Byte := 'P' as int
  const TagE: Byte := 'E' as int
  const TagC: Byte := 'C' as int

  predicate IsTradeTag(tag: Byte)
  {
    tag == TagP || tag == TagE || tag == TagC
  }

  /** Field positions, counted from the tag byte (main.cpp:106-110). */
  const TimestampOffset: nat := 5
  const TimestampWidth: nat := 8
  const SharesOffset: nat := 20
  const SharesWidth: nat := 4
  const SymbolOffset: nat := 24
  const SymbolWidth: nat := 8
  const PriceOffset: nat := 32
  const PriceWidth: nat := 4
  /** The end of the last field: a trade message must be at least this long. */
  const TradeExtent: nat := 36

  /** The fixed-point scale of the wire price (main.cpp:111). */
  const PriceScale: real := 10000.0

  /** `struct Trade` (main.cpp:16-21), with the price held exactly. */
  datatype Trade = Trade(symbol: string, timestamp: U64, price: real, shares: U32)

  /** The price a raw fixed-point value stands for; the raw value is
      recovered by scaling back. */
  function DecodePrice(raw: U32): (p: real)
    ensures p >= 0.0
    ensures p * PriceScale == raw as real
  {
    raw as real / PriceScale
  }

  lemma PriceExamples()
    ensures DecodePrice(1000000) == 100.0
    ensures DecodePrice(12345) == 1.2345
  {
  }

  /** The symbol held in an 8-byte field: `memcpy` into a zeroed char[9]
      and `std::string(symbol)` keep the bytes up to, and not including,
      the first zero byte (main.cpp:108-109, 113). Other padding, such as
      spaces, is kept. */
  function SymbolOf(field: seq<Byte>): (s: string)
    ensures |s| <= |field|
    ensures forall i :: 0 <= i < |s| ==> field[i] != 0 && s[i] as int == field[i]
    ensures |s| < |field| ==> field[|s|] == 0
  {
    if field == [] || field[0] == 0 then []
    else [field[0] as char] + SymbolOf(field[1..])
  }

  /** The fields of a trade message, read at their fixed positions. */
  function TradeFields(m: seq<Byte>): (t: Trade)
    requires |m| >= TradeExtent
    ensures |t.symbol| <= SymbolWidth
  {
    var timestamp := BigEndian(m[TimestampOffset..TimestampOffset + TimestampWidth]);
    var shares := BigEndian(m[SharesOffset..SharesOffset + SharesWidth]);
    var priceRaw := BigEndian(m[PriceOffset..PriceOffset + PriceWidth]);
    Pow256Widths();
    Trade(SymbolOf(m[SymbolOffset..SymbolOffset + SymbolWidth]), timestamp, DecodePrice(priceRaw), shares)
  }

  /** The fields lie within the first TradeExtent bytes: what follows them
      does not change the trade. */
  lemma TradeFieldsWithinExtent(m: seq<Byte>, m': seq<Byte>)
    requires |m| >= TradeExtent && |m'| >= TradeExtent
    requires m[..TradeExtent] == m'[..TradeExtent]
    ensures TradeFields(m) == TradeFields(m')
  {
    assert m[5..13] == m[..36][5..13] == m'[5..13];
    assert m[20..24] == m[..36][20..24] == m'[20..24];
    assert m[24..32] == m[..36][24..32] == m'[24..32];
    assert m[32..36] == m[..36][32..36] == m'[32..36];
  }

  /** What a message is to the decoder. */
  datatype Decoded = NotATrade | PayloadTooShort | TradeEvent(trade: Trade)

  /** Decoding a message. Reads stay within the message: an empty message has
      no tag, and a trade tag on a message shorter than the field layout is
      rejected rather than read past its end. The code as written performs
      neither check (see AsWrittenStep in module Pipeline). */
  function Decode(m: seq<Byte>): (d: Decoded)
    ensures d.TradeEvent? <==> |m| >= TradeExtent && IsTradeTag(m[0])
    ensures d == PayloadTooShort <==> 0 < |m| < TradeExtent && IsTradeTag(m[0])
  {
    if |m| == 0 || !IsTradeTag(m[0]) then NotATrade
    else if |m| < TradeExtent then PayloadTooShort
    else TradeEvent(TradeFields(m))
  }

  /** A symbol that survives the round trip through an 8-byte field. */
  predicate ValidSymbol(s: string)
  {
    |s| <= SymbolWidth && forall i :: 0 <= i < |s| ==> 0 < s[i] as int < 0x100
  }

  /** The 8-byte field holding a symbol, zero padded. */
  function SymbolField(s: string): (f: seq<Byte>)
    requires ValidSymbol(s)
    ensures |f| == SymbolWidth
  {
    seq(SymbolWidth, i requires 0 <= i < SymbolWidth => if i < |s| then s[i] as int else 0)
  }

  lemma {:induction false} SymbolOfPrefix(f: seq<Byte>, s: string)
    requires |s| <= |f|
    requires forall i :: 0 <= i < |s| ==> 0 < s[i] as int < 0x100 && f[i] == s[i] as int
    requires |s| < |f| ==> f[|s|] == 0
    ensures SymbolOf(f) == s
    decreases |s|
  {
    if s != [] {
      SymbolOfPrefix(f[1..], s[1..]);
      assert s == [s[0]] + s[1..];
    }
  }

  lemma SymbolOfField(s: string)
    requires ValidSymbol(s)
    ensures SymbolOf(SymbolField(s)) == s
  {
    SymbolOfPrefix(SymbolField(s), s);
  }

  /** A trade message with the given fields; gap1 and gap2 are the bytes
      between the tag and the timestamp and between the timestamp and the
      share count, which the decoder ignores, and rest is what follows
      the price. */
  function TradeMessage(tag: Byte, timestamp: U64, shares: U32, symbol: string, priceRaw: U32,
                        gap1: seq<Byte>, gap2: seq<Byte>, rest: seq<Byte>): (m: seq<Byte>)
    requires |gap1| == TimestampOffset - 1
    requires |gap2| == SharesOffset - TimestampOffset - TimestampWidth
    requires ValidSymbol(symbol)
    ensures |m| == TradeExtent + |rest|
  {
    Pow256Widths();
    [tag] + gap1 + ToBigEndian(timestamp, TimestampWidth) + gap2 + ToBigEndian(shares, SharesWidth)
      + SymbolField(symbol) + ToBigEndian(priceRaw, PriceWidth) + rest
  }

  /** Decoding an encoded trade message returns its fields, whatever the
      ignored bytes and whatever follows the last field. */
  lemma DecodeTradeMessage(tag: Byte, timestamp: U64, shares: U32, symbol: string, priceRaw: U32,
                           gap1: seq<Byte>, gap2: seq<Byte>, rest: seq<Byte>)
    requires IsTradeTag(tag)
    requires |gap1| == TimestampOffset - 1
    requires |gap2| == SharesOffset - TimestampOffset - TimestampWidth
    requires ValidSymbol(symbol)
    ensures Decode(TradeMessage(tag, timestamp, shares, symbol, priceRaw, gap1, gap2, rest))
            == TradeEvent(Trade(symbol, timestamp, DecodePrice(priceRaw), shares))
  {
    Pow256Widths();
    var ts, sh, pr := ToBigEndian(timestamp, 8), ToBigEndian(shares, 4), ToBigEndian(priceRaw, 4);
    var sf := SymbolField(symbol);
    var m := TradeMessage(tag, timestamp, shares, symbol, priceRaw, gap1, gap2, rest);
    assert m == [tag] + gap1 + ts + gap2 + sh + sf + pr + rest;
    assert m[5..13] == ts;
    assert m[20..24] == sh;
    assert m[24..32] == sf;
    assert m[32..36] == pr;
    SymbolOfField(symbol);
  }
}
