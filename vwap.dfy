/** The per-symbol hourly VWAP aggregator (main.cpp:23-28, 49-59).

    Prices and the running mean are exact reals here; the code keeps them in
    IEEE doubles. A bucket's value is the volume-weighted mean price of the
    trades folded into it, so the notional (the sum of price times shares)
    and the volume (the sum of shares) determine it. */
module Vwap {
  import opened Endian
  import opened Trades

  /** `struct VWAP` (main.cpp:23-26). */
  datatype Bucket = Bucket(value: real, volume: nat)

  /** The bucket `resize` creates: value 0, volume 0. */
  const EmptyBucket: Bucket := Bucket(0.0, 0)

  /** The bucket holds the weighted mean of trades whose notional is given:
      its value is notional / volume, and an empty bucket holds 0. */
  predicate IsMeanOf(b: Bucket, notional: real)
  {
    if b.volume == 0 then b.value == 0.0 && notional == 0.0
    else b.value == notional / b.volume as real
  }

  /** One trade folded into a bucket (main.cpp:56-58). The code divides by
      the new volume unconditionally, which is 0 / 0 for a zero-share trade on
      an empty bucket; here that trade leaves the bucket as it is
      (see AsWrittenUpdate). */
  function UpdateBucket(b: Bucket, price: real, shares: nat): (r: Bucket)
    ensures r.volume == b.volume + shares
    ensures r.volume == 0 ==> r == b
  {
    if b.volume + shares == 0 then b
    else Bucket(FoldedMean(b.value, b.volume, price, shares), b.volume + shares)
  }

  /** The running mean after one trade (main.cpp:57): the old mean weighted
      by the old volume plus the trade's notional, over the new volume. */
  function FoldedMean(value: real, volume: nat, price: real, shares: nat): (mean: real)
    requires volume + shares > 0
  {
    (value * volume as real + price * shares as real) / (volume + shares) as real
  }

  /** The incremental update keeps the bucket the weighted mean: after
      folding in a trade, the value is the old notional plus price * shares,
      divided by the new volume. */
  lemma UpdateKeepsMean(b: Bucket, notional: real, price: real, shares: nat)
    requires IsMeanOf(b, notional)
    ensures IsMeanOf(UpdateBucket(b, price, shares), notional + price * shares as real)
  {
    var r := UpdateBucket(b, price, shares);
    if r.volume > 0 {
      var v := b.volume as real;
      assert b.value * v == notional by {
        if b.volume > 0 {
          assert b.value == notional / v;
        }
      }
      assert r.value == (notional + price * shares as real) / r.volume as real;
    }
  }

  // The totals over a run of folded trades, per symbol and hour.

  predicate InBucket(t: Trade, symbol: string, hour: nat)
  {
    t.symbol == symbol && TimestampToHour(t.timestamp) == hour
  }

  /** The sum of shares of the trades in bucket (symbol, hour). */
  function Volume(ts: seq<Trade>, symbol: string, hour: nat): (v: nat)
  {
    if ts == [] then 0
    else
      var last := ts[|ts| - 1];
      Volume(ts[..|ts| - 1], symbol, hour) + (if InBucket(last, symbol, hour) then last.shares else 0)
  }

  /** The sum of price times shares of the trades in bucket (symbol, hour). */
  function Notional(ts: seq<Trade>, symbol: string, hour: nat): (n: real)
  {
    if ts == [] then 0.0
    else
      var last := ts[|ts| - 1];
      Notional(ts[..|ts| - 1], symbol, hour)
        + (if InBucket(last, symbol, hour) then last.price * last.shares as real else 0.0)
  }

  /** The length the symbol's vector reaches: one past the latest hour of
      any of its trades, and 0 for a symbol without trades. */
  function Width(ts: seq<Trade>, symbol: string): (w: nat)
  {
    if ts == [] then 0
    else
      var last := ts[|ts| - 1];
      var w := Width(ts[..|ts| - 1], symbol);
      var need := if last.symbol == symbol then TimestampToHour(last.timestamp) + 1 else 0;
      if w < need then need else w
  }

  /** A symbol has a vector exactly when one of its trades was folded in. */
  lemma {:induction false} WidthPositive(ts: seq<Trade>, symbol: string)
    ensures Width(ts, symbol) > 0 <==> exists i :: 0 <= i < |ts| && ts[i].symbol == symbol
    decreases |ts|
  {
    if ts != [] {
      var init := ts[..|ts| - 1];
      WidthPositive(init, symbol);
      if exists i :: 0 <= i < |init| && init[i].symbol == symbol {
        var i :| 0 <= i < |init| && init[i].symbol == symbol;
        assert ts[i].symbol == symbol;
      }
      if exists i :: 0 <= i < |ts| && ts[i].symbol == symbol {
        var i :| 0 <= i < |ts| && ts[i].symbol == symbol;
        if i < |init| {
          assert init[i].symbol == symbol;
        }
      }
    }
  }

  /** The symbols of a run of trades. */
  function SymbolsOf(ts: seq<Trade>): (syms: set<string>)
    ensures forall i :: 0 <= i < |ts| ==> ts[i].symbol in syms
    ensures forall s :: s in syms ==> exists i :: 0 <= i < |ts| && ts[i].symbol == s
  {
    set i | 0 <= i < |ts| :: ts[i].symbol
  }

  /** No trade of the symbol lies in an hour at or beyond its vector. */
  lemma {:induction false} NothingBeyondWidth(ts: seq<Trade>, symbol: string, hour: nat)
    requires hour >= Width(ts, symbol)
    ensures Volume(ts, symbol, hour) == 0
    ensures Notional(ts, symbol, hour) == 0.0
    decreases |ts|
  {
    if ts != [] {
      NothingBeyondWidth(ts[..|ts| - 1], symbol, hour);
    }
  }

  /** A zero volume means a zero notional. */
  lemma {:induction false} NoVolumeNoNotional(ts: seq<Trade>, symbol: string, hour: nat)
    requires Volume(ts, symbol, hour) == 0
    ensures Notional(ts, symbol, hour) == 0.0
    decreases |ts|
  {
    if ts != [] {
      NoVolumeNoNotional(ts[..|ts| - 1], symbol, hour);
    }
  }

  /** The totals over two runs of trades add up. */
  lemma TotalsConcat(a: seq<Trade>, b: seq<Trade>, symbol: string, hour: nat)
    ensures Volume(a + b, symbol, hour) == Volume(a, symbol, hour) + Volume(b, symbol, hour)
    ensures Notional(a + b, symbol, hour) == Notional(a, symbol, hour) + Notional(b, symbol, hour)
  {
    VolumeConcat(a, b, symbol, hour);
    NotionalConcat(a, b, symbol, hour);
  }

  lemma {:induction false} VolumeConcat(a: seq<Trade>, b: seq<Trade>, symbol: string, hour: nat)
    ensures Volume(a + b, symbol, hour) == Volume(a, symbol, hour) + Volume(b, symbol, hour)
    decreases |b|
  {
    if b == [] {
      assert a + b == a;
    } else {
      assert (a + b)[..|a + b| - 1] == a + b[..|b| - 1];
      VolumeConcat(a, b[..|b| - 1], symbol, hour);
    }
  }

  lemma {:induction false} NotionalConcat(a: seq<Trade>, b: seq<Trade>, symbol: string, hour: nat)
    ensures Notional(a + b, symbol, hour) == Notional(a, symbol, hour) + Notional(b, symbol, hour)
    decreases |b|
  {
    if b == [] {
      assert a + b == a;
    } else {
      assert (a + b)[..|a + b| - 1] == a + b[..|b| - 1];
      NotionalConcat(a, b[..|b| - 1], symbol, hour);
    }
  }

  /** The order in which two runs of trades arrive does not change any
      bucket's totals, hence not its weighted mean. */
  lemma ArrivalOrderIrrelevant(a: seq<Trade>, b: seq<Trade>, symbol: string, hour: nat)
    ensures Volume(a + b, symbol, hour) == Volume(b + a, symbol, hour)
    ensures Notional(a + b, symbol, hour) == Notional(b + a, symbol, hour)
  {
    TotalsConcat(a, b, symbol, hour);
    TotalsConcat(b, a, symbol, hour);
  }

  /** Each bucket of the row holds the totals of the trades of its hour. */
  ghost predicate RowHolds(row: seq<Bucket>, ts: seq<Trade>, symbol: string)
  {
    && |row| == Width(ts, symbol)
    && forall h :: 0 <= h < |row| ==>
         row[h].volume == Volume(ts, symbol, h) && IsMeanOf(row[h], Notional(ts, symbol, h))
  }

  /** The vector of a symbol after `resize(hour + 1)`, when it is that short
      (main.cpp:52-54): the existing buckets, then empty ones. */
  function Grown(row: seq<Bucket>, hour: nat): (r: seq<Bucket>)
    ensures |r| == if |row| <= hour then hour + 1 else |row|
    ensures forall h :: 0 <= h < |r| ==> r[h] == if h < |row| then row[h] else EmptyBucket
  {
    if |row| <= hour then row + seq(hour + 1 - |row|, _ => EmptyBucket) else row
  }

  /** Every symbol with trades has a vector and every vector belongs to a
      symbol with trades; each vector is as long as the latest hour of those
      trades requires, and each bucket is the weighted mean of exactly the
      trades of its symbol and hour. */
  ghost predicate TableHolds(table: map<string, seq<Bucket>>, ts: seq<Trade>)
  {
    && (forall s {:trigger table[s]} :: s in table ==> RowHolds(table[s], ts, s) && Width(ts, s) > 0)
    && (forall s :: Width(ts, s) > 0 ==> s in table)
  }

  /** `hourly_vwaps[symbol]` (main.cpp:51) creates the symbol's entry on its
      first trade and never removes one: the table's symbols are exactly the
      symbols of the trades folded in. */
  lemma KeysAreSymbols(table: map<string, seq<Bucket>>, ts: seq<Trade>)
    requires TableHolds(table, ts)
    ensures table.Keys == SymbolsOf(ts)
  {
    forall s | s in table
      ensures s in SymbolsOf(ts)
    {
      WidthPositive(ts, s);
    }
    forall s | s in SymbolsOf(ts)
      ensures s in table
    {
      WidthPositive(ts, s);
    }
  }

  /** The table is a function of the trades folded in: two tables that both
      hold for the same trades are equal. */
  lemma TableDetermined(t1: map<string, seq<Bucket>>, t2: map<string, seq<Bucket>>, ts: seq<Trade>)
    requires TableHolds(t1, ts) && TableHolds(t2, ts)
    ensures t1 == t2
  {
    KeysAreSymbols(t1, ts);
    KeysAreSymbols(t2, ts);
    forall s | s in t1
      ensures t1[s] == t2[s]
    {
      var r1, r2 := t1[s], t2[s];
      assert |r1| == |r2|;
      forall h | 0 <= h < |r1|
        ensures r1[h] == r2[h]
      {
        assert r1[h].volume == r2[h].volume == Volume(ts, s, h);
      }
    }
  }

  /** The width is the larger width of the two runs. */
  lemma {:induction false} WidthConcat(a: seq<Trade>, b: seq<Trade>, symbol: string)
    ensures Width(a + b, symbol) == if Width(a, symbol) < Width(b, symbol) then Width(b, symbol) else Width(a, symbol)
    decreases |b|
  {
    if b == [] {
      assert a + b == a;
    } else {
      assert (a + b)[..|a + b| - 1] == a + b[..|b| - 1];
      WidthConcat(a, b[..|b| - 1], symbol);
    }
  }

  /** Two runs of trades folded in either order leave the same table. */
  lemma TableOrderIndependent(t1: map<string, seq<Bucket>>, t2: map<string, seq<Bucket>>, a: seq<Trade>, b: seq<Trade>)
    requires TableHolds(t1, a + b) && TableHolds(t2, b + a)
    ensures t1 == t2
  {
    forall s | s in t2
      ensures RowHolds(t2[s], a + b, s) && Width(a + b, s) > 0
    {
      WidthConcat(a, b, s);
      WidthConcat(b, a, s);
      forall h | 0 <= h < |t2[s]|
        ensures t2[s][h].volume == Volume(a + b, s, h) && IsMeanOf(t2[s][h], Notional(a + b, s, h))
      {
        ArrivalOrderIrrelevant(a, b, s, h);
      }
    }
    forall s | Width(a + b, s) > 0
      ensures s in t2
    {
      WidthConcat(a, b, s);
      WidthConcat(b, a, s);
    }
    TableDetermined(t1, t2, a + b);
  }

  /** `hourly_vwaps` (main.cpp:28) and the updates `process_trade` makes to it. */
  class VwapTable {
    var hourlyVwaps: map<string, seq<Bucket>>
    /** The trades folded in so far, in order of arrival. */
    ghost var folded: seq<Trade>

    /** Every symbol with trades has a vector and every vector belongs to
        a symbol with trades; each vector is as long as the latest hour of
        those trades requires, and each bucket is the weighted mean of
        exactly the trades of its symbol and hour. */
    ghost predicate Valid()
      reads this
    {
      TableHolds(hourlyVwaps, folded)
    }

    constructor ()
      ensures Valid()
      ensures hourlyVwaps == map[] && folded == []
    {
      hourlyVwaps := map[];
      folded := [];
    }

    /** `process_trade` (main.cpp:49-59). Only the symbol's vector changes:
        it grows to hour + 1 when it is too short, with empty buckets, and
        only the trade's hour bucket is updated. */
    method ProcessTrade(trade: Trade)
      requires Valid()
      modifies this
      ensures Valid()
      ensures folded == old(folded) + [trade]
      ensures hourlyVwaps.Keys == old(hourlyVwaps).Keys + {trade.symbol}
      ensures forall s :: s in old(hourlyVwaps) && s != trade.symbol ==> hourlyVwaps[s] == old(hourlyVwaps)[s]
      ensures var hour := TimestampToHour(trade.timestamp);
              var before := if trade.symbol in old(hourlyVwaps) then old(hourlyVwaps)[trade.symbol] else [];
              var row := hourlyVwaps[trade.symbol];
              && |row| == (if |before| <= hour then hour + 1 else |before|)
              && (forall h :: 0 <= h < |row| && h != hour ==>
                    row[h] == if h < |before| then before[h] else EmptyBucket)
              && row[hour] == UpdateBucket(if hour < |before| then before[hour] else EmptyBucket,
                                           trade.price, trade.shares)
    {
      var hour := TimestampToHour(trade.timestamp);
      var vwaps := if trade.symbol in hourlyVwaps then hourlyVwaps[trade.symbol] else [];
      ghost var before := vwaps;
      vwaps := Grown(vwaps, hour);
      vwaps := vwaps[hour := UpdateBucket(vwaps[hour], trade.price, trade.shares)];
      ghost var ts := folded;
      hourlyVwaps := hourlyVwaps[trade.symbol := vwaps];
      folded := folded + [trade];
      assert folded[..|folded| - 1] == ts;
      forall s | s in hourlyVwaps
        ensures RowHolds(hourlyVwaps[s], folded, s) && Width(folded, s) > 0
      {
        if s == trade.symbol {
          SymbolRowHolds(before, ts, trade, vwaps);
        } else {
          assert Width(folded, s) == Width(ts, s);
          assert forall h :: Volume(folded, s, h) == Volume(ts, s, h);
          assert forall h :: Notional(folded, s, h) == Notional(ts, s, h);
        }
      }
    }
  }

  /** The induction step of ProcessTrade for the trade's own symbol. */
  lemma {:induction false} SymbolRowHolds(before: seq<Bucket>, ts: seq<Trade>, trade: Trade, row: seq<Bucket>)
    requires before == [] ==> Width(ts, trade.symbol) == 0
    requires before != [] ==> RowHolds(before, ts, trade.symbol)
    requires var hour := TimestampToHour(trade.timestamp);
             var grown := Grown(before, hour);
             row == grown[hour := UpdateBucket(grown[hour], trade.price, trade.shares)]
    ensures RowHolds(row, ts + [trade], trade.symbol)
  {
    var s, hour := trade.symbol, TimestampToHour(trade.timestamp);
    var ts' := ts + [trade];
    assert ts'[..|ts'| - 1] == ts;
    assert |before| == Width(ts, s);
    var grown := Grown(before, hour);
    assert Width(ts', s) == if Width(ts, s) < hour + 1 then hour + 1 else Width(ts, s);
    assert |row| == |grown| == Width(ts', s);
    forall h | 0 <= h < |row|
      ensures row[h].volume == Volume(ts', s, h) && IsMeanOf(row[h], Notional(ts', s, h))
    {
      GrownHolds(before, ts, s, hour, h);
      BucketAt(grown[h], ts, trade, row[h], h);
    }
  }

  /** One bucket of SymbolRowHolds: the bucket of hour h before the trade
      held the totals of the earlier trades, and after it holds the totals
      including the trade. */
  lemma {:induction false} BucketAt(g: Bucket, ts: seq<Trade>, trade: Trade, b: Bucket, h: nat)
    requires g.volume == Volume(ts, trade.symbol, h)
    requires IsMeanOf(g, Notional(ts, trade.symbol, h))
    requires b == if h == TimestampToHour(trade.timestamp) then UpdateBucket(g, trade.price, trade.shares) else g
    ensures b.volume == Volume(ts + [trade], trade.symbol, h)
    ensures IsMeanOf(b, Notional(ts + [trade], trade.symbol, h))
  {
    var s := trade.symbol;
    var inBucket := h == TimestampToHour(trade.timestamp);
    var ts' := ts + [trade];
    AppendTotals(ts, trade, s, h);
    var n, n' := Notional(ts, s, h), Notional(ts', s, h);
    assert n' == n + (if inBucket then trade.price * trade.shares as real else 0.0);
    MeanStep(g, n, n', trade.price, trade.shares, inBucket, b);
  }

  /** One bucket across one trade: updated when the trade is in it and kept
      otherwise, it goes on holding the weighted mean. */
  lemma MeanStep(b: Bucket, notional: real, notional': real, price: real, shares: nat, inBucket: bool, b': Bucket)
    requires IsMeanOf(b, notional)
    requires notional' == notional + (if inBucket then price * shares as real else 0.0)
    requires b' == if inBucket then UpdateBucket(b, price, shares) else b
    ensures b'.volume == b.volume + (if inBucket then shares else 0)
    ensures IsMeanOf(b', notional')
  {
    if inBucket {
      UpdateKeepsMean(b, notional, price, shares);
    }
  }

  /** Appending a trade adds its shares and notional to its own bucket only. */
  lemma {:induction false} AppendTotals(ts: seq<Trade>, trade: Trade, symbol: string, hour: nat)
    ensures Volume(ts + [trade], symbol, hour)
            == Volume(ts, symbol, hour) + (if InBucket(trade, symbol, hour) then trade.shares else 0)
    ensures Notional(ts + [trade], symbol, hour)
            == Notional(ts, symbol, hour) + (if InBucket(trade, symbol, hour) then trade.price * trade.shares as real else 0.0)
  {
    var ts' := ts + [trade];
    assert ts'[..|ts'| - 1] == ts;
  }

  /** One bucket of SymbolRowHolds: before the update, the grown vector holds
      the totals of the earlier trades. */
  lemma {:induction false} GrownHolds(before: seq<Bucket>, ts: seq<Trade>, symbol: string, hour: nat, h: nat)
    requires before == [] ==> Width(ts, symbol) == 0
    requires before != [] ==> RowHolds(before, ts, symbol)
    requires h < |Grown(before, hour)|
    ensures Grown(before, hour)[h].volume == Volume(ts, symbol, h)
    ensures IsMeanOf(Grown(before, hour)[h], Notional(ts, symbol, h))
  {
    if h >= |before| {
      NothingBeyondWidth(ts, symbol, h);
    }
  }

  // The update as written, over IEEE doubles: 0 / 0 is NaN, and NaN stays NaN
  // through every later update.

  datatype Double = Finite(x: real) | NaN

  /** `struct VWAP` with a double value, as the code holds it. */
  datatype SourceBucket = SourceBucket(value: Double, volume: nat)

  /** process_trade's arithmetic (main.cpp:56-58) as written: the division by
      the new volume happens even when that volume is 0. */
  function AsWrittenUpdate(b: SourceBucket, price: real, shares: nat): (r: SourceBucket)
    ensures r.volume == b.volume + shares
    ensures r.volume == 0 ==> r.value == NaN
    ensures b.value == NaN ==> r.value == NaN
  {
    if b.value.NaN? || b.volume + shares == 0 then SourceBucket(NaN, b.volume + shares)
    else SourceBucket(Finite(FoldedMean(b.value.x, b.volume, price, shares)), b.volume + shares)
  }

  /** Away from the zero-volume case the code computes what UpdateBucket does. */
  lemma AsWrittenAgrees(b: Bucket, price: real, shares: nat)
    requires b.volume + shares > 0
    ensures AsWrittenUpdate(SourceBucket(Finite(b.value), b.volume), price, shares).value
            == Finite(UpdateBucket(b, price, shares).value)
  {
  }

  /** A zero-share trade arriving first in a bucket makes its value NaN, and
      a later 100-share trade at 100.0 leaves it NaN with volume 100; the
      corrected update gives the mean 100.0. */
  lemma ZeroShareTradePoisonsBucket()
    ensures AsWrittenUpdate(AsWrittenUpdate(SourceBucket(Finite(0.0), 0), 100.0, 0), 100.0, 100)
            == SourceBucket(NaN, 100)
    ensures UpdateBucket(UpdateBucket(EmptyBucket, 100.0, 0), 100.0, 100) == Bucket(100.0, 100)
  {
  }
}
