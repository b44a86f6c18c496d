# ITCH trade feed to hourly VWAP, modelled in Dafny

The program reads a binary market-data feed in the ITCH style. The feed is a
run of frames. Each frame is a 2-byte big-endian length followed by that many
message bytes, and the first message byte is the message type. Messages of
type 'P', 'E' and 'C' carry a trade: a big-endian 64-bit timestamp at offset
5, a 32-bit share count at offset 20, an 8-byte symbol at offset 24 and a
32-bit fixed-point price (scale 10000) at offset 32. Each trade is folded into
a per-symbol vector of hourly buckets. Each bucket holds the running
volume-weighted average price (VWAP) and the volume of that symbol in that hour
of the day. The loop counts every complete frame and every trade it folds in.
It stops quietly at the first frame whose prefix or message does not fit in
the input.

The model has five modules, one per file:

- `Endian` (endian.dfy): byte-order conversion. The unaligned integer
  loads and `big_to_little_endian` are proved to read the big-endian value of
  the wire bytes.
- `Trades` (trades.dfy): the hour of a timestamp, the trade tags, the field
  layout, and decoding of a message into a trade.
- `Framing` (framing.dfy): the framer as a function of the input. It comes
  with its inverse, the frame encoder, and a position-based form that the
  loop walks.
- `Vwap` (vwap.dfy): the buckets and the `hourly_vwaps` table. The table is a
  class whose `ProcessTrade` updates it in place. A ghost history of the
  trades folded in so far carries the invariant: every bucket is the weighted
  mean of exactly the trades of its symbol and hour.
- `Pipeline` (pipeline.dfy): the processing loop with its two counters,
  the loop exactly as written (without the bounds checks), and a worked
  two-trade scenario.

Prices and means are exact reals. The host is taken to be little-endian, so
an unaligned load of n bytes yields their little-endian value, and `ntohs` and
`ntohl` reverse the bytes of their argument.

Where the code and the design description of the program differ, the model
follows the code:

- The symbol is cut at the first zero byte only, so padding spaces are kept.
- A symbol's vector grows on demand to one past the latest hour seen. It is
  not created with 24 buckets.
- Zero-share trades are not rejected. They are folded in and counted.
- The worked example's timestamp 1_800_000_000_000 ns is half an hour into
  the day, so `timestamp_to_hour` puts it in hour 0, not hour 12.

The model differs from the code as written in two places. Both are in
"## Findings", and each is proved against a model of the code as written:

- The loop reads message bytes only within the frame.
- A bucket that would reach volume 0 is left as it is, instead of being divided by zero.

## Model

| member | source | states |
|---|---|---|
| Endian.BigToHost16OfLoad | main.cpp:96-97 | the 2-byte length load `Load16` converted from network order by `BigToHost16` (the byte swap `Ntohs`) is the big-endian value of the two prefix bytes |
| Endian.BigToHost32OfLoad | main.cpp:34 | a 4-byte load `Load32` converted by `BigToHost32` (the byte swap `Ntohl`) is the big-endian value of the four bytes |
| Endian.BigToHost64OfLoad | main.cpp:35 | the 8-byte conversion `BigToHost64` (two halves swapped by `Ntohl`, then exchanged) applied to a load `Load64` is the big-endian value of the eight bytes |
| Endian.BigToHost64IsByteReversal | main.cpp:35 | the 8-byte conversion of a load equals reading the reversed bytes as a little-endian load: a full byte reversal |
| Endian.ToBigEndianOfBigEndian | main.cpp:31-37 | big-endian decoding is invertible: re-encoding the value at the same width gives the bytes back |
| Endian.LittleEndianOfReverse | main.cpp:31-37 | the little-endian value of the reversed bytes is the big-endian value of the bytes |
| Trades.TimestampToHour | main.cpp:39-41 | the hour is always below 24 |
| Trades.HourWithinDay | main.cpp:39-41 | the timestamp, taken within its day, lies in [hour * 1 h, (hour + 1) * 1 h) |
| Trades.HourIsUnique | main.cpp:39-41 | any hour whose interval contains the timestamp within its day is the computed hour |
| Trades.HourExamples | main.cpp:39-41 | 0 and 3_599_999_999_999 give hour 0, 3_600_000_000_000 gives 1, 86_399_999_999_999 gives 23, 86_400_000_000_000 wraps to 0, 1_800_000_000_000 gives 0 |
| Trades.DecodePrice | main.cpp:111 | the price is non-negative and scaling it by 10000 gives back the raw value |
| Trades.SymbolOf | main.cpp:108-109 | the symbol is the leading non-zero bytes of the 8-byte field, stopping at the first zero byte |
| Trades.SymbolOfField | main.cpp:108-109 | a symbol of up to 8 non-zero bytes, zero padded to 8 bytes, is read back unchanged |
| Trades.TradeFields | main.cpp:106-110 | the symbol read from a trade message has at most 8 characters |
| Trades.TradeFieldsWithinExtent | main.cpp:106-110 | the trade read depends only on the first 36 bytes of the message |
| Trades.Decode | main.cpp:102-111 | a message is a trade exactly when it has a 'P', 'E' or 'C' tag (`IsTradeTag`) and at least 36 bytes, and is rejected as too short exactly when it has such a tag and 1 to 35 bytes |
| Trades.DecodeTradeMessage | main.cpp:105-111 | decoding a message built from a tag, timestamp, shares, symbol and raw price returns those fields, whatever bytes fill the gaps or follow |
| Framing.Frames | main.cpp:93-100 | a frame consumes at least two bytes, and every message fits a 16-bit length |
| Framing.FramesEmpty | main.cpp:94-100 | the framer yields nothing exactly when the prefix or the announced message does not fit |
| Framing.FramesOfEncoding | main.cpp:93-100 | framing an encoded run of messages, followed by any truncated tail, gives the messages back |
| Framing.FramesCoverInput | main.cpp:93-117 | the input is its frames re-encoded followed by a truncated tail: no byte before the tail is skipped |
| Framing.FramesOfExtension | main.cpp:93-117 | the frames of a prefix of the input are a prefix of the frames of the whole input |
| Framing.FramesOfCut | main.cpp:93-117 | cutting the input right after its j-th frame leaves an input whose frames are exactly the first j frames |
| Framing.EncodeFramesConcat | main.cpp:93-100 | the wire form of two runs of messages is the wire form of the first followed by that of the second |
| Framing.FramesAtIsFrames | main.cpp:91-117 | `FramesAt`, the framer walking the input by offset as the loop does, yields the frames of the rest of the input |
| Vwap.UpdateBucket | main.cpp:56-58 | the new volume is the old volume plus the shares, and a bucket left at volume 0 is unchanged; otherwise the value is `FoldedMean`, the old mean weighted by the old volume plus the trade's notional, over the new volume |
| Vwap.UpdateKeepsMean | main.cpp:56-58 | if a bucket is the weighted mean of a notional, the update (through `FoldedMean`) makes it the weighted mean of that notional plus price * shares |
| Vwap.Grown | main.cpp:52-54 | a vector no longer than the hour grows to hour + 1, keeping its buckets and padding with empty ones |
| Vwap.WidthPositive | main.cpp:51-54 | a symbol has a non-empty vector exactly when one of its trades was folded in |
| Vwap.NothingBeyondWidth | main.cpp:52-54 | no trade of a symbol lies in an hour at or past its vector's length |
| Vwap.NoVolumeNoNotional | main.cpp:56-58 | a bucket with zero volume has zero notional |
| Vwap.TotalsConcat | main.cpp:49-59 | volume and notional over two runs of trades are the sums over each run |
| Vwap.ArrivalOrderIrrelevant | main.cpp:49-59 | any bucket's volume and notional are the same whichever of two runs arrives first |
| Vwap.WidthConcat | main.cpp:52-54 | the vector length after two runs is the larger of the two lengths |
| Vwap.KeysAreSymbols | main.cpp:51-54 | a table consistent with the trades folded in has exactly their symbols as keys: an entry is created on a symbol's first trade and none exists without a trade |
| Vwap.TableDetermined | main.cpp:28 | two tables consistent with the same trades are equal, keys and buckets alike |
| Vwap.TableOrderIndependent | main.cpp:28 | tables built from two runs of trades in either order are equal |
| Vwap.VwapTable.constructor | main.cpp:28 | the table starts empty with no trades folded in, and is consistent |
| Vwap.VwapTable.ProcessTrade | main.cpp:49-59 | the table stays consistent with the trades folded in, the trade is appended to them, its symbol joins the keys, other symbols' vectors are unchanged, the vector grows to hour + 1 if shorter, and only the hour's bucket is updated |
| Vwap.AsWrittenUpdate | main.cpp:56-58 | as written over doubles: a bucket reaching volume 0 becomes NaN, and a NaN bucket stays NaN |
| Vwap.AsWrittenAgrees | main.cpp:56-58 | away from volume 0 the code's update computes the same value as UpdateBucket |
| Vwap.ZeroShareTradePoisonsBucket | main.cpp:56-57 | a zero-share trade first in a bucket makes it NaN for good under the code, and a mean of 100.0 under the corrected update |
| Pipeline.TradeOf | main.cpp:102-115 | a message yields at most one trade, and yields one exactly when it decodes as a trade |
| Pipeline.TradesOfComplete | main.cpp:102-115 | every message of a run that decodes to a trade has that trade among the run's trades |
| Pipeline.TradesOfSound | main.cpp:102-115 | every trade of a run comes from a message of the run that decodes to it |
| Pipeline.TradesOfConcat | main.cpp:93-118 | the trades of two runs of messages are those of each run, in order |
| Pipeline.TradesOfTruncation | main.cpp:93-118 | cutting the input at any byte neither invents nor reorders trades: the trades of the cut input are a prefix of those of the whole input |
| Pipeline.TradesOfCut | main.cpp:93-118 | cutting the input right after its j-th frame loses exactly the trades of the later frames: the whole input's trades are the cut input's trades followed by those of frames j onwards |
| Pipeline.SymbolsOfConcat | main.cpp:51 | the symbols of two runs are the union of each run's symbols |
| Pipeline.TradeOfLoads | main.cpp:106-111 | the loads (`Load64`, `Load32`) and conversions (`BigToHost64`, `BigToHost32`) of the timestamp, shares and price fields read the big-endian fields of the message |
| Pipeline.ProcessMessage | main.cpp:102-115 | reports a trade exactly when the message decodes to one, appends that trade (and only it) to the folded trades, adds its symbol to the keys, and keeps the table consistent |
| Pipeline.NextFrame | main.cpp:94-100 | finds a frame exactly when the framer does, returns its message and the offset just past it, and otherwise reports that no frame starts there |
| Pipeline.ParseAndProcess | main.cpp:91-118 | the message count is the number of frames, the trade count is the number of trades among them, the table holds exactly those trades folded in order and stays consistent, and the keys gain exactly their symbols |
| Pipeline.RecordStep | main.cpp:103-114 | after one more message, the trade count, the folded trades and the keys are those of the messages seen so far |
| Pipeline.AsWrittenStep | main.cpp:93-117 | one iteration as written moves at least past the prefix and stays within the input, or reads past the end of the input |
| Pipeline.AsWrittenStopsWhereFramesEnd | main.cpp:94-100 | the loop as written stops exactly where the framer yields nothing |
| Pipeline.AsWrittenAgreesOnSoundFrames | main.cpp:102-117 | on a non-empty frame with, for a trade tag, at least 36 bytes, the loop as written moves past the frame and yields the decoded trade |
| Pipeline.EmptyFrameReadsPastEnd | main.cpp:102 | a zero-length frame at the end is one empty, non-trade message, yet the loop as written reads its tag one past the end |
| Pipeline.EmptyFrameReadsNextFrame | main.cpp:102-111 | a zero-length frame followed by a 'P' byte and 35 zero bytes is one empty, non-trade message and nothing more, yet the loop as written folds in a trade read from the bytes after the empty frame |
| Pipeline.ShortTradeReadsPastEnd | main.cpp:106-110 | a one-byte 'P' frame at the end is rejected as too short, yet the loop as written reads 35 bytes past the end |
| Pipeline.ShortTradeReadsNextFrame | main.cpp:106-110 | a one-byte 'P' frame followed by more input is skipped by the decoder, yet the loop as written folds in a trade read from the following bytes |
| Pipeline.ScenarioFrames | main.cpp:93-115 | two encoded AAPL trade messages frame back to themselves and decode to their trades |
| Pipeline.ScenarioTotals | main.cpp:49-59 | hour 0 of AAPL has volume 200 and notional 30000.0, and the vector has one bucket |
| Pipeline.TwoTradeScenario | main.cpp:91-118 | running the loop on the two frames counts 2 messages and 2 trades and leaves hour 0 of AAPL at VWAP 150.0 and volume 200 |

## Left out

- File handling (`open`, `fstat`, `mmap`, `munmap`, `close`) and its errors: the input is the byte sequence the file maps to.
- Logging and the timing of the run (`log_message`, `std::chrono`): output and clocks only.
- The report writer `output_vwap` and the command-line entry point: formatting and I/O around the core.
- IEEE double rounding of prices and means: prices and VWAPs are exact reals. Only the NaN from 0 / 0 is modelled, in `Vwap.AsWrittenUpdate`.
- The 64-bit widths of the counters, of `size_t` offsets and of bucket volumes, and the conversion of the double `new_volume` back to a 64-bit volume: all are unbounded naturals. The counters and offsets are bounded by the input length, and a 64-bit volume overflows only after more than 2^32 trades of the largest share count.
- A big-endian host: the loads are modelled as they behave on a little-endian host.
- The global `hourly_vwaps` map is one `VwapTable` object passed to the loop.
- The fall-through `return value` of `big_to_little_endian` for other widths: the code calls it only with 2, 4 and 8 bytes.
- Pipeline.ParseAndProcess: never reads past a frame, unlike the code. The code's behaviour on short frames is modelled separately by `Pipeline.AsWrittenStep` (see "## Findings").
- Vwap.VwapTable.ProcessTrade: leaves a bucket reaching volume 0 unchanged, where the code's bucket becomes NaN. The code's arithmetic is `Vwap.AsWrittenUpdate` (see "## Findings").

## Findings

| source | as written | input that shows it | evidently intended | confidence | as-written member | corrected member |
|---|---|---|---|---|---|---|
| main.cpp:102 | the tag byte is read before checking that the message has any bytes | the input `00 00`: one zero-length frame at the end of the input; the tag read is at offset 2, one past the end. With a 'P' byte and 35 zero bytes after it, a trade with an empty symbol is folded in from the bytes after the empty frame (Pipeline.EmptyFrameReadsNextFrame) | an empty message is not a trade and no byte of it is read | not executed | Pipeline.EmptyFrameReadsPastEnd | Pipeline.ProcessMessage |
| main.cpp:106-110 | the fields at offsets 5 to 35 are read whatever the message length | the input `00 01 50`: a one-byte 'P' frame; the field reads reach 35 bytes past the end of the input. With 35 more zero bytes after it, a trade with an empty symbol is folded in from the bytes after the frame | a trade-tagged message shorter than 36 bytes is skipped | not executed | Pipeline.ShortTradeReadsNextFrame | Pipeline.ProcessMessage |
| main.cpp:56-57 | the new mean is divided by the new volume even when that volume is 0 | a 0-share trade as the first trade of a bucket: 0 / 0 makes the bucket NaN, and every later trade leaves it NaN | a bucket that stays at volume 0 keeps value 0 | not executed | Vwap.ZeroShareTradePoisonsBucket | Vwap.UpdateKeepsMean |
