# Network counter driver, modelled in Dafny

This project models the network driver of the gator profiling daemon,
`daemon/NetDriver.cpp`. The driver publishes two delta counters,
`Linux_net_rx` and `Linux_net_tx`. On every sampling cycle it reloads
`/proc/net/dev` and recomputes two `uint64_t` byte totals from it: received
bytes and transmitted bytes, summed over all interfaces. Each counter then
reports how much its total grew since the counter was last read.

The model is split into five modules:

- `Word` (word.dfy): `uint64_t` and `int64_t` as newtypes. The C wrap-around
  of addition and subtraction, and the conversion of the unsigned difference
  to a signed one, are written out.
- `Text` (text.dfy): `strchr`. It is a specification function `IndexOf` and a
  loop `FindChar` proved against it.
- `Scan` (scan.dfy): the `sscanf` call with the format
  `" %" SCNu64 " %*u %*u %*u %*u %*u %*u %*u %" SCNu64`. It reads nine unsigned decimal
  fields and keeps the first and the ninth. Each conversion skips white space
  and then reads a run of decimal digits.
- `NetDevTable` (table.dfy): what `doRead` computes from a snapshot, as
  functions:
  - the header skip (`HeaderEnd`);
  - the row loop (`ScanTable` / `ScanRowAfterColon`);
  - the wrapped sums (`SumReceived` / `SumTransmitted`);
  - a renderer of well-formed tables (`FormatRows`) used to state what a
    well-formed snapshot reads back to.
- `NetDriver` (netdriver.dfy): the stateful part.
  - `NetCounter` is a class. Its `prev` field (`mPrev`) is updated by `Read`.
  - Each counter points at a driver-owned `Cell`, which models the pointer
    `mValue` into `mReceiveBytes` / `mTransmitBytes`.
  - `NetDriver` is a class with the two cells, the snapshot buffer and the
    counter chain, which is a sequence with its head first.
  - `DoRead` follows `doRead` step by step. `SkipHeader` holds the two
    header `strchr` calls. `NextRow` is one turn of the row loop. `SumRows`
    is the loop itself, which updates the totals in place.
  - Each method is proved against the functions of `NetDevTable`.

The snapshot the driver would read is a parameter, an `Option<string>` that
is `None` when the file cannot be read. The accessibility of the file in
`readEvents` is a boolean parameter. `handleException()` aborts the process,
so it is modelled as a failure result (`false` from `Start`, `Fatal` from
`Read`) after which nothing else happens.

Two behaviours of the code are worth stating plainly:

- A malformed row does not roll back: `doRead` has already zeroed the
  totals and added the earlier rows when it returns `false`, so the totals
  keep those partial sums (`ReadStopsAtMalformedRow`).
- The colon search runs across line ends, so a line without a colon is
  passed over as part of the next row's name
  (`ScanTableSkipsTextWithoutColon`).

## Model

| member | source | states |
|---|---|---|
| Word.Wrap | daemon/NetDriver.cpp:111-112 | the reduction of a value to `uint64_t` is the value modulo 2^64, and the value itself when it already fits |
| Word.WrapAdd | daemon/NetDriver.cpp:111-112 | `uint64_t` addition: the exact sum when it fits, else the sum minus 2^64 |
| Word.WrapSub | daemon/NetDriver.cpp:49 | `uint64_t` subtraction: the exact difference when it is not negative, else the difference plus 2^64 |
| Word.AsSigned | daemon/NetDriver.cpp:49 | the `int64_t` view of a `uint64_t` equals it modulo 2^64, and is non-negative exactly when the value is below 2^63 |
| Word.SubThenAdd | daemon/NetDriver.cpp:49-50 | adding the old baseline back to the unsigned difference gives the new value: the delta and the baseline update lose nothing |
| Word.SignedDifference | daemon/NetDriver.cpp:49 | the signed view of the wrapped difference is the true difference, a decrease included, whenever that difference fits in `int64_t` |
| Text.IndexOf | daemon/NetDriver.cpp:88 | a position found by `strchr` lies inside the text and holds the character searched for |
| Text.IndexOfIsFirst | daemon/NetDriver.cpp:88 | the position found is the first occurrence, and nothing is found exactly when the character does not occur |
| Text.FirstIsIndexOf | daemon/NetDriver.cpp:88 | conversely, any position holding the first occurrence is the one found |
| Text.FindChar | daemon/NetDriver.cpp:97-98 | the scanning loop of `strchr` from an offset returns the absolute position of the first match at or after the offset, or none |
| Scan.SkipSpaces | daemon/NetDriver.cpp:106 | skipping white space never lengthens the input |
| Scan.SkipSpacesDropsLeadingSpace | daemon/NetDriver.cpp:106 | white space skipping removes a prefix made only of white space and stops at a character that is not white space |
| Scan.DigitRun | daemon/NetDriver.cpp:106 | the digits read by `%u` are a prefix of the input made only of decimal digits |
| Scan.DigitRunIsMaximal | daemon/NetDriver.cpp:106 | `%u` reads as many digits as there are: a non-digit or the end of the input follows them |
| Scan.DecValueOfDecimal | daemon/NetDriver.cpp:106 | the value of a number's decimal rendering is the number (conversion is the inverse of rendering) |
| Scan.ScanUnsigned | daemon/NetDriver.cpp:106 | a successful `%u` conversion consumes at least one character |
| Scan.ScanUnsignedSucceedsOnDigit | daemon/NetDriver.cpp:106 | a `%u` conversion succeeds exactly when a digit follows the leading white space, and leaves a suffix of the input that does not start with a digit |
| Scan.ScanUnsignedReadsBaseTen | daemon/NetDriver.cpp:106 | `SCNu64` converts in base 10 only: `010` reads ten, and `0x1A` reads zero and stops at the `x` |
| Scan.ScanRow | daemon/NetDriver.cpp:104-110 | defines the `sscanf` call: it yields the first and ninth values exactly when all nine conversions succeed (`count == 2`), and nothing otherwise |
| Scan.ScanFields | daemon/NetDriver.cpp:106-107 | a successful scan of n conversions yields exactly n values |
| Scan.ScanUnsignedOfRendered | daemon/NetDriver.cpp:106 | one conversion reads back one rendered field, whatever blank padding precedes it, and leaves what follows it |
| Scan.ScanFieldsOfRendered | daemon/NetDriver.cpp:106-107 | n conversions over padded fields (blanks between fields, possibly none before the first) give back the first n values, in order |
| Scan.ScanFieldsBeyondRendered | daemon/NetDriver.cpp:106-108 | asking for more conversions than there are fields fails |
| Scan.ScanRowOfRendered | daemon/NetDriver.cpp:106-110 | a row of at least nine padded fields yields its first field as received bytes and its ninth as transmitted bytes (`count == 2`) |
| Scan.ScanRowTooFewFields | daemon/NetDriver.cpp:106-110 | a row of fewer than nine fields, such as `lo: 100`, is rejected (`count != 2`) |
| NetDevTable.HeaderEnd | daemon/NetDriver.cpp:86-91 | defines the header skip: the position just past the second newline, found by two successive newline searches, or none when either search fails |
| NetDevTable.HeaderEndIsSecondNewline | daemon/NetDriver.cpp:86-91 | the rows start just after a newline, and the skipped header holds exactly two newlines |
| NetDevTable.SecondNewline | daemon/NetDriver.cpp:86-91 | after two successful newline searches, the text up to the second newline holds exactly two newlines |
| NetDevTable.HeaderMissingIffFewerThanTwoNewlines | daemon/NetDriver.cpp:86-90 | the header skip fails exactly when the snapshot holds fewer than two newlines, so in particular when it is empty |
| NetDevTable.ScanTable | daemon/NetDriver.cpp:96-118 | defines the row loop: search the whole remaining text for a colon; no colon ends the loop successfully, otherwise one turn runs on the text after it |
| NetDevTable.ScanRowAfterColon | daemon/NetDriver.cpp:97-117 | defines one turn: cut the row at the next newline (or take the rest when there is none), scan it, fail on a bad row, stop after an unterminated last row, else continue after the newline |
| NetDevTable.ParseNetDev | daemon/NetDriver.cpp:86-118 | defines what a snapshot yields: a missing header, or the rows the loop accepted and whether it ran to the end |
| NetDevTable.SumReceived | daemon/NetDriver.cpp:93-112 | defines the receive total: zero, then one `uint64_t` addition per accepted row, in row order |
| NetDevTable.SumTransmitted | daemon/NetDriver.cpp:93-112 | defines the transmit total in the same way, from the ninth field |
| NetDevTable.RowsAtMostColons | daemon/NetDriver.cpp:96-118 | the row loop accepts at most one row per colon in the text |
| NetDevTable.RowsAfterColon | daemon/NetDriver.cpp:97-117 | after a colon, the loop accepts at most one more row than the colons that follow |
| NetDevTable.AddReduced | daemon/NetDriver.cpp:111-112 | reducing the operands to 64 bits before a wrapped addition gives the exact sum modulo 2^64 |
| NetDevTable.SumsAreTotalsModulo | daemon/NetDriver.cpp:93-112 | the totals accumulated from zero are the exact sums of the rows modulo 2^64, and the exact sums when those fit |
| NetDevTable.LineLayout | daemon/NetDriver.cpp:96-98 | on a rendered row, the colon search finds the colon after the name and the newline search finds the end of the fields |
| NetDevTable.ScanTableLine | daemon/NetDriver.cpp:96-117 | a well-formed row contributes its counts, and the loop continues after its newline |
| NetDevTable.ScanTableShortLine | daemon/NetDriver.cpp:104-110 | a row with fewer than nine fields ends the loop as a failure, whatever follows it |
| NetDevTable.ScanTableUnterminatedLine | daemon/NetDriver.cpp:98-117 | a last row with no newline after it still counts, and the loop then ends successfully |
| NetDevTable.ScanTableSkipsTextWithoutColon | daemon/NetDriver.cpp:96 | text without a colon in front of the rows changes nothing: the colon search runs across line ends |
| NetDevTable.ScanTableRows | daemon/NetDriver.cpp:96-118 | well-formed rows are read back in order, and then the loop continues with whatever follows them |
| NetDevTable.MalformedRowKeepsEarlierRows | daemon/NetDriver.cpp:104-112 | a malformed row fails the scan, and the rows before it stay accepted |
| NetDevTable.ParseAfterHeader | daemon/NetDriver.cpp:86-91 | two header lines are skipped whatever they hold, and the rows are scanned from the character after the second newline |
| NetDevTable.ParseRenderedSnapshot | daemon/NetDriver.cpp:86-118 | a snapshot of two header lines and well-formed rows parses completely to the rows' counts, in order |
| NetDevTable.TwoRowSums | daemon/NetDriver.cpp:93-112 | the totals over two rows are one wrapped addition of their counts, starting from zero |
| NetDevTable.TwoInterfaceTotals | daemon/NetDriver.cpp:93-112 | rows with 100/200 and 300/50 bytes give received and transmitted totals of 400 and 250 |
| NetDriver.Delta | daemon/NetDriver.cpp:49 | a counter's delta equals current minus previous modulo 2^64, and exactly that when the growth is below 2^63 |
| NetDriver.Cell.constructor | daemon/NetDriver.cpp:56-57 | a total starts with the given value |
| NetDriver.NetCounter.constructor | daemon/NetDriver.cpp:36-41 | a new counter has its name and its total, a baseline of 0, and is disabled until the configuration enables it |
| NetDriver.NetCounter.Read | daemon/NetDriver.cpp:47-52 | returns the delta of the current total against the old baseline, and makes the current total the new baseline |
| NetDriver.FreshCounterReportsRawThenZero | daemon/NetDriver.cpp:36-52 | a new counter's first read reports the raw total, and a second read over an unchanged total reports 0 |
| NetDriver.CounterRollsForward | daemon/NetDriver.cpp:47-52 | with totals v1 <= v2 <= v3 over three reads, each step below 2^63, the second reports v2 - v1 and the third v3 - v2 |
| NetDriver.DeltasTelescope | daemon/NetDriver.cpp:47-52 | the deltas of successive reads add up, modulo 2^64, to the total growth since the first baseline |
| NetDriver.ReadSucceeds | daemon/NetDriver.cpp:76-121 | defines when `doRead` returns true: no counter enabled, or a readable snapshot with a header whose row loop runs to the end |
| NetDriver.TotalsAfterRead | daemon/NetDriver.cpp:76-121 | defines the totals after `doRead`: unchanged when no counter is enabled, the snapshot is unreadable or the header is missing; otherwise recomputed from zero over the accepted rows |
| NetDriver.ReadWithoutHeader | daemon/NetDriver.cpp:86-90 | with the header missing, the read fails and the totals are untouched |
| NetDriver.ReadWithHeader | daemon/NetDriver.cpp:86-118 | once the header is found, the read succeeds exactly when the row loop completes, and the totals are the sums of the rows it accepted |
| NetDriver.ReadFailsWithoutHeader | daemon/NetDriver.cpp:86-90 | a snapshot with fewer than two newlines, an empty one included, fails the read and leaves the totals alone |
| NetDriver.ReadRecomputesTotals | daemon/NetDriver.cpp:93-94 | once the header is found the previous totals play no part: they are recomputed from zero |
| NetDriver.ReadOfRenderedSnapshot | daemon/NetDriver.cpp:76-121 | a well-formed snapshot is read successfully, and its totals are the exact per-interface sums modulo 2^64 |
| NetDriver.ReadStopsAtMalformedRow | daemon/NetDriver.cpp:104-112 | a malformed row fails the read, and the totals keep the sums of the rows before it: no rollback, no completion |
| NetDriver.SkipHeader | daemon/NetDriver.cpp:86-91 | the two newline searches find the start of the rows exactly as the header specification does, or fail when it does |
| NetDriver.NextRow | daemon/NetDriver.cpp:96-117 | one loop turn ends, fails, accepts a last row, or accepts a row and moves the cursor strictly forward, exactly as the row specification does |
| NetDriver.Samples | daemon/NetDriver.cpp:144 | defines what a reporting pass yields: one (name, delta) sample per enabled counter, in chain order |
| NetDriver.Rebased | daemon/NetDriver.cpp:128-135 | defines the chain after a pass: each enabled counter's baseline becomes its total, and the chain keeps its length |
| NetDriver.SamplesAppend | daemon/NetDriver.cpp:144 | the samples of a chain are the samples of its parts, in order |
| NetDriver.RebasedKeepsOthers | daemon/NetDriver.cpp:128-135 | reading the chain moves the baseline of each enabled counter to its total and changes nothing else |
| NetDriver.RebasedReportsZero | daemon/NetDriver.cpp:128-135 | right after the baseline pass, a pass over unchanged totals reports a zero delta for every enabled counter, in the same order |
| NetDriver.NothingEnabledReportsNothing | daemon/NetDriver.cpp:144 | a chain with no enabled counter reports no sample |
| NetDriver.ViewsElements | daemon/NetDriver.cpp:128-135 | the view of the chain holds each counter's name, enabled flag, total and baseline at the same position |
| NetDriver.PrevsElements | daemon/NetDriver.cpp:128-135 | the baselines of the chain are the counters' `prev` fields, in order |
| NetDriver.SamplesStep | daemon/NetDriver.cpp:128-135 | a pass reports counter by counter: an enabled counter adds one sample, a disabled one none |
| NetDriver.RebasedViews | daemon/NetDriver.cpp:128-135 | when each enabled counter's baseline is its total and the others keep theirs, the chain is the rebased one |
| NetDriver.NetDriver.CountersEnabled | daemon/NetDriver.cpp:78 | defines `countersEnabled()`: some counter of the chain is enabled |
| NetDriver.NetDriver.constructor | daemon/NetDriver.cpp:54-59 | a new driver has an empty buffer, two distinct zero totals and an empty chain |
| NetDriver.NetDriver.ReadEvents | daemon/NetDriver.cpp:64-74 | when the file is accessible the chain becomes tx, rx, then the previous chain unchanged, each new counter bound to its own total with a zero baseline; otherwise the chain is unchanged |
| NetDriver.NetDriver.DoRead | daemon/NetDriver.cpp:76-121 | succeeds exactly as the read specification says: always when no counter is enabled, without touching anything; otherwise only for a readable snapshot with a header and rows that all scan. The totals end as that specification computes them |
| NetDriver.NetDriver.SumRows | daemon/NetDriver.cpp:93-118 | the loop zeroes the totals, adds every accepted row, and reports whether it reached the end of the rows rather than a bad row |
| NetDriver.NetDriver.ReadEnabledCounters | daemon/NetDriver.cpp:128-135 | reads every enabled counter once, in chain order, returns their deltas against the old baselines, and leaves each enabled counter's baseline at its total and each disabled one's untouched |
| NetDriver.NetDriver.Start | daemon/NetDriver.cpp:123-136 | a failed statistics read is fatal and leaves every baseline as it was; after a successful one every enabled counter's baseline is its total and disabled counters are untouched |
| NetDriver.NetDriver.Read | daemon/NetDriver.cpp:138-145 | a failed statistics read is fatal; otherwise the cycle reports every enabled counter's delta against its old baseline, in chain order, and rebases them |

## Left out

- Reading `/proc/net/dev` (`mBuf.read`) and probing it with `access` are
  file I/O. The snapshot is a parameter that is `None` when it cannot be
  read, and accessibility is a boolean.
- Logging (`logg.logSetup`, `logg.logError`) has no effect on the model's
  state and is not modelled.
- `handleException()` aborts the process. It is modelled as a failure
  result after which the driver does nothing further.
- The base class is not part of this model. Its `read(buffer)` is modelled
  as one read of every enabled counter in chain order, returning the
  (name, delta) samples. The `Buffer` encoding, the counter keys and
  `countersEnabled()` beyond "some counter of the chain is enabled" are not
  modelled.
- Enabling counters is done by the session configuration (`mxml_node_t`),
  which is not part of this model. `enabled` is a plain field.
- `strdup`, ownership and destructors are memory management and are not
  modelled. Counter names are values.
- Scan.ScanUnsigned: models `%u` as white space followed by a run of
  decimal digits read in base 10, as the conversion does (`010` reads ten,
  `0x1A` reads zero and stops at the `x`). A leading sign and glibc's
  saturation on overflow are not modelled. A value beyond 64 bits is
  reduced modulo 2^64 when it is added to a total.
- `doRead` writes two `'\0'` bytes into the buffer: the one at the row's
  newline (daemon/NetDriver.cpp:100) ends the `sscanf` input, and the one
  at the colon (daemon/NetDriver.cpp:102) ends the interface name, which
  nothing reads. The model slices the text instead and keeps the buffer as
  read. A NUL character inside the snapshot itself, which would end C's
  searches early, is not modelled.
- NetDriver.NetDriver.DoRead: on a failed snapshot read the buffer is
  modelled as unchanged. What `mBuf.read` leaves behind on failure is not
  part of this model.
