/** The network counter driver: two delta counters (`Linux_net_rx`,
    `Linux_net_tx`) over byte totals that each cycle recomputes from a
    `/proc/net/dev` snapshot. */
module NetDriver {
  import opened Word
  import opened Text
  import opened Scan
  import opened NetDevTable

  // ---------------------------------------------------------------------------
  // Delta counters

  /** The value a delta counter reports: the `uint64_t` difference between the
      current and the previous absolute value, read as an `int64_t`. */
  function Delta(current: U64, prev: U64): (d: I64)
    ensures (d as int + prev as int - current as int) % TWO_64 == 0
    ensures prev <= current && current as int - prev as int < TWO_63 ==> d as int == current as int - prev as int
  {
    AsSigned(WrapSub(current, prev))
  }

  /** A `uint64_t` storage cell owned by the driver; counters hold a pointer
      to one. */
  class Cell {
    var value: U64

    constructor (v: U64)
      ensures value == v
    {
      value := v;
    }
  }

  /** `NetCounter`: a named counter that reports how much the driver-owned
      total it points at has grown since it last reported. */
  class NetCounter {
    const name: string
    /** Set by the session configuration, which is not part of this model. */
    var enabled: bool
    /** The driver-owned absolute value (`mValue`). */
    const total: Cell
    /** The absolute value at the previous read (`mPrev`). */
    var prev: U64

    constructor (name: string, total: Cell)
      ensures this.name == name && this.total == total
      ensures prev == 0 && !enabled
    {
      this.name := name;
      this.total := total;
      enabled := false;
      prev := 0;
    }

    /** Reports the change since the previous read and makes the current
        value the new baseline. */
    method Read() returns (delta: I64)
      modifies this`prev
      ensures delta == Delta(total.value, old(prev))
      ensures prev == total.value
    {
      delta := AsSigned(WrapSub(total.value, prev));
      prev := total.value;
    }
  }

  /** A fresh counter's first read reports the raw total (no baseline yet);
      a second read with the total unchanged reports zero. */
  method FreshCounterReportsRawThenZero(v: U64) returns (first: I64, second: I64)
    ensures first == AsSigned(v)
    ensures second == 0
  {
    var cell := new Cell(v);
    var counter := new NetCounter("Linux_net_rx", cell);
    first := counter.Read();
    second := counter.Read();
  }

  /** Across cycles the baseline rolls forward: each read reports the growth
      since the read before it. */
  method CounterRollsForward(v1: U64, v2: U64, v3: U64) returns (d2: I64, d3: I64)
    requires v1 <= v2 <= v3
    requires v2 as int - v1 as int < TWO_63 && v3 as int - v2 as int < TWO_63
    ensures d2 as int == v2 as int - v1 as int
    ensures d3 as int == v3 as int - v2 as int
  {
    var cell := new Cell(v1);
    var counter := new NetCounter("Linux_net_tx", cell);
    var d1 := counter.Read();
    cell.value := v2;
    d2 := counter.Read();
    cell.value := v3;
    d3 := counter.Read();
  }

  /** The deltas reported by successive reads of totals `values`, starting
      from baseline `base`. */
  function Deltas(base: U64, values: seq<U64>): seq<I64>
    decreases |values|
  {
    if values == [] then [] else [Delta(values[0], base)] + Deltas(values[0], values[1..])
  }

  function SumDeltas(ds: seq<I64>): int
  {
    if ds == [] then 0 else ds[0] as int + SumDeltas(ds[1..])
  }

  lemma AddMultiples(x: int, y: int)
    requires x % TWO_64 == 0 && y % TWO_64 == 0
    ensures (x + y) % TWO_64 == 0
  {
    var a, b := x / TWO_64, y / TWO_64;
    assert x == a * TWO_64 && y == b * TWO_64;
    assert x + y == (a + b) * TWO_64;
  }

  /** Nothing is lost between reads: the reported deltas add up, modulo 2^64,
      to the total growth since the baseline. */
  lemma {:induction false} DeltasTelescope(base: U64, values: seq<U64>)
    requires values != []
    ensures (SumDeltas(Deltas(base, values)) - (values[|values| - 1] as int - base as int)) % TWO_64 == 0
    decreases |values|
  {
    var ds := Deltas(base, values);
    var d0 := Delta(values[0], base);
    assert ds[0] == d0 && ds[1..] == Deltas(values[0], values[1..]);
    if |values| == 1 {
      assert (d0 as int - (values[0] as int - base as int)) % TWO_64 == 0;
    } else {
      DeltasTelescope(values[0], values[1..]);
      var x := d0 as int - (values[0] as int - base as int);
      var y := SumDeltas(ds[1..]) - (values[|values| - 1] as int - values[0] as int);
      AddMultiples(x, y);
      assert SumDeltas(ds) - (values[|values| - 1] as int - base as int) == x + y;
    }
  }

  // ---------------------------------------------------------------------------
  // What one read of the statistics achieves

  /** Whether `doRead` succeeds, given whether any counter is enabled and the
      snapshot (None: the file could not be read). */
  function ReadSucceeds(anyEnabled: bool, snapshot: Option<string>): bool
  {
    !anyEnabled ||
    (snapshot.Some? && ParseNetDev(snapshot.value).Table? && ParseNetDev(snapshot.value).scan.complete)
  }

  datatype Totals = Totals(received: U64, transmitted: U64)

  /** The driver's two totals after `doRead`: recomputed from zero over the
      rows scanned (up to a failing row) once the header is found, otherwise
      unchanged. */
  function TotalsAfterRead(anyEnabled: bool, snapshot: Option<string>, before: Totals): Totals
  {
    if !anyEnabled || snapshot.None? then before
    else match ParseNetDev(snapshot.value)
      case MissingHeader => before
      case Table(t) => Totals(SumReceived(t.rows), SumTransmitted(t.rows))
  }

  lemma ReadWithoutHeader(s: string, before: Totals)
    requires HeaderEnd(s).None?
    ensures !ReadSucceeds(true, Some(s)) && TotalsAfterRead(true, Some(s), before) == before
  {
  }

  lemma ReadWithHeader(s: string, h: nat, before: Totals)
    requires HeaderEnd(s) == Some(h)
    ensures ReadSucceeds(true, Some(s)) == ScanTable(s[h..]).complete
    ensures TotalsAfterRead(true, Some(s), before) ==
              Totals(SumReceived(ScanTable(s[h..]).rows), SumTransmitted(ScanTable(s[h..]).rows))
  {
  }

  /** A snapshot with fewer than two newlines (an empty one included) fails
      the read and leaves the totals alone. */
  lemma ReadFailsWithoutHeader(s: string, before: Totals)
    requires Occurrences(s, '\n') < 2
    ensures !ReadSucceeds(true, Some(s))
    ensures TotalsAfterRead(true, Some(s), before) == before
  {
    HeaderMissingIffFewerThanTwoNewlines(s);
  }

  /** Once the header is found the previous totals play no part: the read
      recomputes them from zero. */
  lemma ReadRecomputesTotals(s: string, before: Totals)
    requires Occurrences(s, '\n') >= 2
    ensures TotalsAfterRead(true, Some(s), before) == TotalsAfterRead(true, Some(s), Totals(0, 0))
  {
    HeaderMissingIffFewerThanTwoNewlines(s);
  }

  /** A well-formed snapshot succeeds and its totals are the per-interface
      counts summed modulo 2^64. */
  lemma ReadOfRenderedSnapshot(h1: string, h2: string, ifs: seq<Interface>, before: Totals)
    requires '\n' !in h1 && '\n' !in h2
    requires Complete(ifs)
    ensures var s := h1 + ['\n'] + h2 + ['\n'] + FormatRows(ifs);
            ReadSucceeds(true, Some(s)) &&
            TotalsAfterRead(true, Some(s), before).received as int == TotalReceived(TrafficOfAll(ifs)) % TWO_64 &&
            TotalsAfterRead(true, Some(s), before).transmitted as int == TotalTransmitted(TrafficOfAll(ifs)) % TWO_64
  {
    ParseRenderedSnapshot(h1, h2, ifs);
    SumsAreTotalsModulo(TrafficOfAll(ifs));
  }

  /** A malformed row fails the read, and the totals keep the sums of the
      rows before it: they are neither rolled back nor completed. */
  lemma ReadStopsAtMalformedRow(h1: string, h2: string, good: seq<Interface>, bad: Interface, rest: string, before: Totals)
    requires '\n' !in h1 && '\n' !in h2
    requires Complete(good)
    requires WellFormedRow(bad) && |bad.fields| < 9
    ensures var s := h1 + ['\n'] + h2 + ['\n'] + (FormatRows(good) + (FormatLine(bad) + rest));
            !ReadSucceeds(true, Some(s)) &&
            TotalsAfterRead(true, Some(s), before) ==
              Totals(SumReceived(TrafficOfAll(good)), SumTransmitted(TrafficOfAll(good)))
  {
    ParseAfterHeader(h1, h2, FormatRows(good) + (FormatLine(bad) + rest));
    MalformedRowKeepsEarlierRows(good, bad, rest);
  }

  // ---------------------------------------------------------------------------
  // The steps of `doRead`

  /** The header skip of `doRead`: two `strchr` searches for a newline; the
      rows start after the second one. */
  method SkipHeader(text: string) returns (h: Option<nat>)
    ensures h == HeaderEnd(text)
  {
    assert text[0..] == text;
    var first := FindChar(text, 0, '\n');
    if first.None? {
      return None;
    }
    var second := FindChar(text, first.value + 1, '\n');
    if second.None? {
      return None;
    }
    assert IndexOf(text[first.value + 1..], '\n') == Some(second.value - first.value - 1);
    return Some(second.value + 1);
  }

  /** How one turn of the row loop ends: no colon left (success), a row that
      does not scan (failure), a last row without a newline after it, or a
      row followed by more text from `next` on. */
  datatype RowStep = NoMoreRows | BadRow | LastRow(row: Traffic) | Row(row: Traffic, next: nat)

  /** One turn of the row loop of `doRead` from position `key`: `strchr` for
      the colon, `strchr` for the newline that ends the row, and `sscanf` on
      the text between them. */
  method NextRow(text: string, key: nat) returns (step: RowStep)
    requires key <= |text|
    ensures step.Row? ==> key < step.next <= |text|
    ensures ScanTable(text[key..]) ==
              match step
              case NoMoreRows => TableScan([], true)
              case BadRow => TableScan([], false)
              case LastRow(r) => TableScan([r], true)
              case Row(r, next) => TableScan([r] + ScanTable(text[next..]).rows, ScanTable(text[next..]).complete)
  {
    var colon := FindChar(text, key, ':');
    if colon.None? {
      NoColonAt(text, key);
      return NoMoreRows;
    }
    var c := colon.value;
    assert IndexOf(text[key..], ':') == Some(c - key);
    ColonAt(text, key, c);
    var after := text[c + 1..];
    var end := FindChar(after, 0, '\n');
    assert after[0..] == after;
    if end.None? {
      var row := ScanRow(after);
      if row.None? {
        assert ScanRowAfterColon(after) == TableScan([], false);
        return BadRow;
      }
      assert ScanRowAfterColon(after) == TableScan([row.value], true);
      return LastRow(row.value);
    }
    var e := end.value;
    var row := ScanRow(after[..e]);
    if row.None? {
      assert ScanRowAfterColon(after) == TableScan([], false);
      return BadRow;
    }
    var later := ScanTable(after[e + 1..]);
    assert ScanRowAfterColon(after) == TableScan([row.value] + later.rows, later.complete);
    var next := c + 1 + e + 1;
    assert after[e + 1..] == text[next..];
    assert ScanTable(text[key..]) == TableScan([row.value] + ScanTable(text[next..]).rows, ScanTable(text[next..]).complete);
    step := Row(row.value, next);
  }

  // ---------------------------------------------------------------------------
  // What a pass over the counter chain reports

  /** One reported value: the counter's name and its delta. */
  datatype Sample = Sample(name: string, delta: I64)

  /** A counter of the chain as the reporting pass sees it. */
  datatype CounterView = CounterView(name: string, enabled: bool, total: U64, prev: U64)

  /** What a pass reports: one sample per enabled counter, in chain order. */
  function Samples(vs: seq<CounterView>): seq<Sample>
  {
    if vs == [] then []
    else (if vs[0].enabled then [Sample(vs[0].name, Delta(vs[0].total, vs[0].prev))] else []) + Samples(vs[1..])
  }

  /** The chain after a pass: each enabled counter's baseline is its total. */
  function Rebased(vs: seq<CounterView>): (r: seq<CounterView>)
    ensures |r| == |vs|
  {
    if vs == [] then []
    else [if vs[0].enabled then vs[0].(prev := vs[0].total) else vs[0]] + Rebased(vs[1..])
  }

  /** A chain is reported in pieces: the samples of a concatenation are the
      samples of its parts, in order. */
  lemma {:induction false} SamplesAppend(a: seq<CounterView>, b: seq<CounterView>)
    ensures Samples(a + b) == Samples(a) + Samples(b)
  {
    if a != [] {
      assert (a + b)[0] == a[0];
      assert (a + b)[1..] == a[1..] + b;
      SamplesAppend(a[1..], b);
      var head := if a[0].enabled then [Sample(a[0].name, Delta(a[0].total, a[0].prev))] else [];
      assert Samples(a + b) == head + (Samples(a[1..]) + Samples(b));
      assert head + (Samples(a[1..]) + Samples(b)) == (head + Samples(a[1..])) + Samples(b);
    } else {
      assert a + b == b;
    }
  }

  /** Rebasing moves the baseline of the enabled counters only and keeps
      everything else. */
  lemma {:induction false} RebasedKeepsOthers(vs: seq<CounterView>)
    ensures forall k :: 0 <= k < |vs| ==>
              Rebased(vs)[k].name == vs[k].name && Rebased(vs)[k].enabled == vs[k].enabled &&
              Rebased(vs)[k].total == vs[k].total &&
              Rebased(vs)[k].prev == if vs[k].enabled then vs[k].total else vs[k].prev
  {
    if vs != [] {
      RebasedKeepsOthers(vs[1..]);
      assert forall k :: 1 <= k < |vs| ==> Rebased(vs)[k] == Rebased(vs[1..])[k - 1];
    }
  }

  /** Right after a pass, a second pass over unchanged totals reports a zero
      delta for every enabled counter: this is why `start` reads the counters
      once before the first sampling cycle. */
  lemma {:induction false} RebasedReportsZero(vs: seq<CounterView>)
    ensures |Samples(Rebased(vs))| == |Samples(vs)|
    ensures forall k :: 0 <= k < |Samples(vs)| ==>
              Samples(Rebased(vs))[k] == Samples(vs)[k].(delta := 0)
  {
    if vs != [] {
      RebasedReportsZero(vs[1..]);
      assert Rebased(vs)[1..] == Rebased(vs[1..]);
    }
  }

  /** A chain with no enabled counter reports nothing. */
  lemma {:induction false} NothingEnabledReportsNothing(vs: seq<CounterView>)
    requires forall k :: 0 <= k < |vs| ==> !vs[k].enabled
    ensures Samples(vs) == []
  {
    if vs != [] {
      NothingEnabledReportsNothing(vs[1..]);
    }
  }

  /** The chain as a pass sees it, with the baselines `prevs`; every counter
      points at one of the cells `rx` and `tx`. */
  ghost function Views(cs: seq<NetCounter>, prevs: seq<U64>, rx: Cell, tx: Cell): (vs: seq<CounterView>)
    requires |prevs| == |cs|
    requires forall k :: 0 <= k < |cs| ==> cs[k].total == rx || cs[k].total == tx
    reads cs`enabled, rx`value, tx`value
    ensures |vs| == |cs|
  {
    if cs == [] then []
    else [CounterView(cs[0].name, cs[0].enabled, cs[0].total.value, prevs[0])] + Views(cs[1..], prevs[1..], rx, tx)
  }

  lemma {:induction false} ViewsElements(cs: seq<NetCounter>, prevs: seq<U64>, rx: Cell, tx: Cell)
    requires |prevs| == |cs|
    requires forall k :: 0 <= k < |cs| ==> cs[k].total == rx || cs[k].total == tx
    ensures forall k :: 0 <= k < |cs| ==>
              Views(cs, prevs, rx, tx)[k] == CounterView(cs[k].name, cs[k].enabled, cs[k].total.value, prevs[k])
    decreases |cs|
  {
    if cs != [] {
      ViewsElements(cs[1..], prevs[1..], rx, tx);
    }
  }

  /** The baselines of the chain. */
  ghost function Prevs(cs: seq<NetCounter>): (ps: seq<U64>)
    reads cs`prev
    ensures |ps| == |cs|
  {
    if cs == [] then [] else [cs[0].prev] + Prevs(cs[1..])
  }

  lemma {:induction false} PrevsElements(cs: seq<NetCounter>)
    ensures forall k :: 0 <= k < |cs| ==> Prevs(cs)[k] == cs[k].prev
    decreases |cs|
  {
    if cs != [] {
      PrevsElements(cs[1..]);
    }
  }

  /** A pass reports counter by counter. */
  lemma SamplesStep(vs: seq<CounterView>, i: nat)
    requires i < |vs|
    ensures Samples(vs[..i + 1]) ==
              Samples(vs[..i]) + if vs[i].enabled then [Sample(vs[i].name, Delta(vs[i].total, vs[i].prev))] else []
  {
    assert vs[..i + 1] == vs[..i] + [vs[i]];
    SamplesAppend(vs[..i], [vs[i]]);
    assert [vs[i]][1..] == [];
  }

  /** When every enabled counter's baseline is its total and the others keep
      `prevs`, the chain is the rebased one. */
  lemma RebasedViews(cs: seq<NetCounter>, prevs: seq<U64>, rx: Cell, tx: Cell)
    requires |prevs| == |cs|
    requires forall k :: 0 <= k < |cs| ==> cs[k].total == rx || cs[k].total == tx
    requires forall k :: 0 <= k < |cs| ==> cs[k].prev == if cs[k].enabled then cs[k].total.value else prevs[k]
    ensures Views(cs, Prevs(cs), rx, tx) == Rebased(Views(cs, prevs, rx, tx))
  {
    var vs := Views(cs, prevs, rx, tx);
    var now := Prevs(cs);
    PrevsElements(cs);
    ViewsElements(cs, prevs, rx, tx);
    ViewsElements(cs, now, rx, tx);
    RebasedKeepsOthers(vs);
    var after := Views(cs, now, rx, tx);
    forall k | 0 <= k < |vs|
      ensures after[k] == Rebased(vs)[k]
    {
    }
  }

  // ---------------------------------------------------------------------------
  // The driver

  /** The end of a sampling cycle: the samples reported, or a fatal error
      (the process is aborted). */
  datatype Cycle = Fatal | Reported(samples: seq<Sample>)

  class NetDriver {
    /** `mReceiveBytes` and `mTransmitBytes`. */
    const receiveBytes: Cell
    const transmitBytes: Cell
    /** `mBuf`: the last snapshot read. */
    var buf: string
    /** The counter chain, head first. */
    var counters: seq<NetCounter>

    /** The chain holds each counter once, and every counter points at one of
        the driver's two totals. */
    ghost predicate Valid()
      reads this`counters
    {
      receiveBytes != transmitBytes &&
      (forall i, j :: 0 <= i < j < |counters| ==> counters[i] != counters[j]) &&
      (forall k :: 0 <= k < |counters| ==> counters[k].total == receiveBytes || counters[k].total == transmitBytes)
    }

    /** `countersEnabled()`: whether any counter of the chain is enabled. */
    predicate CountersEnabled()
      reads this`counters, counters`enabled
    {
      exists i :: 0 <= i < |counters| && counters[i].enabled
    }

    constructor ()
      ensures Valid() && fresh(receiveBytes) && fresh(transmitBytes)
      ensures counters == [] && buf == []
      ensures receiveBytes.value == 0 && transmitBytes.value == 0
    {
      receiveBytes := new Cell(0);
      transmitBytes := new Cell(0);
      buf := [];
      counters := [];
    }

    /** `readEvents`: when the statistics file is accessible, registers the
        receive counter and then the transmit counter at the head of the
        chain, so the chain lists tx, rx, then the previous chain. */
    method ReadEvents(accessible: bool)
      requires Valid()
      modifies this`counters
      ensures Valid()
      ensures !accessible ==> counters == old(counters)
      ensures accessible ==> |counters| == |old(counters)| + 2 && counters[2..] == old(counters)
      ensures accessible ==> fresh(counters[0]) && fresh(counters[1])
      ensures accessible ==> counters[0].name == "Linux_net_tx" && counters[0].total == transmitBytes
      ensures accessible ==> counters[1].name == "Linux_net_rx" && counters[1].total == receiveBytes
      ensures accessible ==> counters[0].prev == 0 && !counters[0].enabled
      ensures accessible ==> counters[1].prev == 0 && !counters[1].enabled
    {
      if accessible {
        var rx := new NetCounter("Linux_net_rx", receiveBytes);
        counters := [rx] + counters;
        var tx := new NetCounter("Linux_net_tx", transmitBytes);
        counters := [tx] + counters;
      }
    }

    /** `doRead`: loads the snapshot, skips the two header lines, and sums
        the receive and transmit counts of the interface rows into the two
        totals; false when the snapshot cannot be read, has no header, or has
        a row that does not scan. */
    method DoRead(snapshot: Option<string>) returns (ok: bool)
      requires Valid()
      modifies this`buf, receiveBytes, transmitBytes
      ensures ok == ReadSucceeds(CountersEnabled(), snapshot)
      ensures Totals(receiveBytes.value, transmitBytes.value) ==
                TotalsAfterRead(CountersEnabled(), snapshot, old(Totals(receiveBytes.value, transmitBytes.value)))
      ensures buf == if CountersEnabled() && snapshot.Some? then snapshot.value else old(buf)
    {
      if !CountersEnabled() {
        return true;
      }
      if snapshot.None? {
        return false;
      }
      buf := snapshot.value;
      var text := buf;
      ghost var before := old(Totals(receiveBytes.value, transmitBytes.value));

      var header := SkipHeader(text);
      if header.None? {
        ReadWithoutHeader(text, before);
        return false;
      }
      var h := header.value;
      ReadWithHeader(text, h, before);
      ok := SumRows(text, h);
    }

    /** The row loop of `doRead`: zeroes the totals, then adds the receive
        and transmit counts of each row from position `h` on, and stops at
        the end of the rows (true) or at a row that does not scan (false). */
    method SumRows(text: string, h: nat) returns (complete: bool)
      requires Valid() && h <= |text|
      modifies receiveBytes, transmitBytes
      ensures complete == ScanTable(text[h..]).complete
      ensures receiveBytes.value == SumReceived(ScanTable(text[h..]).rows)
      ensures transmitBytes.value == SumTransmitted(ScanTable(text[h..]).rows)
    {
      ghost var scan := ScanTable(text[h..]);
      receiveBytes.value := 0;
      transmitBytes.value := 0;

      var key := h;
      ghost var done: seq<Traffic> := [];
      complete := true;
      var more := true;
      while more
        invariant h <= key <= |text|
        invariant more ==> complete && scan == TableScan(done + ScanTable(text[key..]).rows, ScanTable(text[key..]).complete)
        invariant !more ==> scan == TableScan(done, complete)
        invariant receiveBytes.value == SumReceived(done)
        invariant transmitBytes.value == SumTransmitted(done)
        decreases |text| - key, more
      {
        var step := NextRow(text, key);
        ghost var rest := ScanTable(text[key..]);
        if step.NoMoreRows? || step.BadRow? {
          assert done + [] == done;
          complete := step.NoMoreRows?;
          more := false;
        } else {
          var r := step.row;
          ghost var later := if step.LastRow? then TableScan([], true) else ScanTable(text[step.next..]);
          assert [r] + [] == [r];
          assert rest == TableScan([r] + later.rows, later.complete);
          ConcatAssoc(done, [r], later.rows);
          SumsStep(done, r);
          receiveBytes.value := WrapAdd(receiveBytes.value, Wrap(r.received));
          transmitBytes.value := WrapAdd(transmitBytes.value, Wrap(r.transmitted));
          done := done + [r];
          if step.LastRow? {
            assert done + [] == done;
            more := false;
          } else {
            key := step.next;
          }
        }
      }
    }

    /** The loop over the chain shared by `start` and the base driver's
        `read`: reads every enabled counter once, in chain order, and
        collects what each reports; disabled counters are not touched. */
    method ReadEnabledCounters() returns (samples: seq<Sample>)
      requires Valid()
      modifies counters`prev
      ensures samples == Samples(Views(counters, old(Prevs(counters)), receiveBytes, transmitBytes))
      ensures forall k :: 0 <= k < |counters| ==>
                counters[k].prev == if counters[k].enabled then counters[k].total.value else old(counters[k].prev)
      ensures Views(counters, Prevs(counters), receiveBytes, transmitBytes) == Rebased(Views(counters, old(Prevs(counters)), receiveBytes, transmitBytes))
    {
      ghost var prevs := Prevs(counters);
      ghost var vs := Views(counters, prevs, receiveBytes, transmitBytes);
      ViewsElements(counters, prevs, receiveBytes, transmitBytes);
      PrevsElements(counters);
      samples := [];
      var i := 0;
      while i < |counters|
        invariant 0 <= i <= |counters|
        invariant samples == Samples(vs[..i])
        invariant forall k :: 0 <= k < |counters| ==>
                    counters[k].prev == if k < i && counters[k].enabled then counters[k].total.value else prevs[k]
      {
        var counter := counters[i];
        SamplesStep(vs, i);
        if counter.enabled {
          var delta := counter.Read();
          samples := samples + [Sample(counter.name, delta)];
        }
        i := i + 1;
      }
      assert vs[..i] == vs;
      RebasedViews(counters, prevs, receiveBytes, transmitBytes);
    }

    /** `start`: one read of the statistics, then one read of every enabled
        counter so that each baseline is the current total; a failed read is
        fatal and nothing further happens. */
    method Start(snapshot: Option<string>) returns (ok: bool)
      requires Valid()
      modifies this`buf, receiveBytes, transmitBytes, counters`prev
      ensures Valid()
      ensures ok == ReadSucceeds(old(CountersEnabled()), snapshot)
      ensures Totals(receiveBytes.value, transmitBytes.value) ==
                TotalsAfterRead(old(CountersEnabled()), snapshot, old(Totals(receiveBytes.value, transmitBytes.value)))
      ensures buf == if old(CountersEnabled()) && snapshot.Some? then snapshot.value else old(buf)
      ensures ok ==> Views(counters, Prevs(counters), receiveBytes, transmitBytes) == Rebased(Views(counters, old(Prevs(counters)), receiveBytes, transmitBytes))
      ensures ok ==> forall k :: 0 <= k < |counters| ==>
                counters[k].prev == if counters[k].enabled then counters[k].total.value else old(counters[k].prev)
      ensures !ok ==> Prevs(counters) == old(Prevs(counters))
    {
      ok := DoRead(snapshot);
      if !ok {
        return;
      }
      var baselines := ReadEnabledCounters();
    }

    /** `read`: one sampling cycle. A failed read of the statistics is fatal;
        otherwise every enabled counter reports its delta, in chain order. */
    method Read(snapshot: Option<string>) returns (outcome: Cycle)
      requires Valid()
      modifies this`buf, receiveBytes, transmitBytes, counters`prev
      ensures Valid()
      ensures outcome.Fatal? <==> !ReadSucceeds(old(CountersEnabled()), snapshot)
      ensures Totals(receiveBytes.value, transmitBytes.value) ==
                TotalsAfterRead(old(CountersEnabled()), snapshot, old(Totals(receiveBytes.value, transmitBytes.value)))
      ensures buf == if old(CountersEnabled()) && snapshot.Some? then snapshot.value else old(buf)
      ensures outcome.Reported? ==> outcome.samples == Samples(Views(counters, old(Prevs(counters)), receiveBytes, transmitBytes))
      ensures outcome.Reported? ==> Views(counters, Prevs(counters), receiveBytes, transmitBytes) == Rebased(Views(counters, old(Prevs(counters)), receiveBytes, transmitBytes))
      ensures outcome.Fatal? ==> Prevs(counters) == old(Prevs(counters))
    {
      var ok := DoRead(snapshot);
      if !ok {
        return Fatal;
      }
      var samples := ReadEnabledCounters();
      return Reported(samples);
    }
  }
}
