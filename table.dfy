/** The `/proc/net/dev` snapshot as the driver reads it: two header lines,
    then one `name: field0 field1 ...` row per interface, whose receive and
    transmit byte counts are summed into two `uint64_t` totals. */
module NetDevTable {
  import opened Word
  import opened Text
  import opened Scan

  // ---------------------------------------------------------------------------
  // The header

  /** The position just past the second newline, where the interface rows
      begin; None when the snapshot has no second newline. */
  function HeaderEnd(s: seq<char>): Option<nat>
  {
    match IndexOf(s, '\n')
    case None => None
    case Some(i) =>
      match IndexOf(s[i + 1..], '\n')
      case None => None
      case Some(j) => Some(i + 1 + j + 1)
  }

  lemma CountSplit(s: seq<char>, i: nat, c: char)
    requires i < |s|
    ensures Occurrences(s, c) == Occurrences(s[..i], c) + Occurrences([s[i]], c) + Occurrences(s[i + 1..], c)
  {
    assert s == s[..i] + [s[i]] + s[i + 1..];
  }

  /** The rows start right after the second newline: the skipped header holds
      exactly two newline characters and ends with one. */
  lemma HeaderEndIsSecondNewline(s: seq<char>)
    requires HeaderEnd(s).Some?
    ensures var h := HeaderEnd(s).value;
            2 <= h <= |s| && s[h - 1] == '\n' && Occurrences(s[..h], '\n') == 2
  {
    var i := IndexOf(s, '\n').value;
    var rest := s[i + 1..];
    var j := IndexOf(rest, '\n').value;
    assert HeaderEnd(s) == Some(i + 1 + j + 1);
    SecondNewline(s, i, rest, j);
  }

  lemma SecondNewline(s: seq<char>, i: nat, rest: seq<char>, j: nat)
    requires IndexOf(s, '\n') == Some(i) && rest == s[i + 1..] && IndexOf(rest, '\n') == Some(j)
    ensures i + j + 2 <= |s| && s[i + j + 1] == '\n' && Occurrences(s[..i + j + 2], '\n') == 2
  {
    IndexOfIsFirst(s, '\n');
    IndexOfIsFirst(rest, '\n');
    TwoLinesAt(s, i, j);
    TwoLines(s[..i], rest[..j]);
  }

  /** The text up to the second of two newlines, at `i` and `i + 1 + j`, is
      two lines, each with its newline. */
  lemma TwoLinesAt(s: seq<char>, i: nat, j: nat)
    requires i + 1 + j < |s| && s[i] == '\n' && s[i + 1 + j] == '\n'
    ensures s[..i + j + 2] == s[..i] + ['\n'] + s[i + 1..][..j] + ['\n']
  {
    assert s[..i + j + 2] == s[..i + 1] + s[i + 1..][..j + 1];
  }

  /** Two lines, each terminated by a newline, hold exactly two. */
  lemma TwoLines(a: seq<char>, b: seq<char>)
    requires '\n' !in a && '\n' !in b
    ensures Occurrences(a + ['\n'] + b + ['\n'], '\n') == 2
  {
    NewlineEndsLine(a);
    NewlineEndsLine(b);
    assert a + ['\n'] + b + ['\n'] == (a + ['\n']) + (b + ['\n']);
    OccurrencesAppend(a + ['\n'], b + ['\n'], '\n');
  }

  lemma OccurrencesAppend(a: seq<char>, b: seq<char>, c: char)
    ensures Occurrences(a + b, c) == Occurrences(a, c) + Occurrences(b, c)
  {
    assert multiset(a + b) == multiset(a) + multiset(b);
  }

  /** A line without a newline, terminated by one, holds exactly one. */
  lemma NewlineEndsLine(line: seq<char>)
    requires '\n' !in line
    ensures Occurrences(line + ['\n'], '\n') == 1
  {
    OccurrencesAppend(line, ['\n'], '\n');
    assert multiset(line)['\n'] == 0;
  }

  /** The header is missing (and the read fails) exactly when the snapshot
      holds fewer than two newline characters; in particular when it is empty. */
  lemma HeaderMissingIffFewerThanTwoNewlines(s: seq<char>)
    ensures HeaderEnd(s).None? <==> Occurrences(s, '\n') < 2
  {
    IndexOfIsFirst(s, '\n');
    match IndexOf(s, '\n')
    case None =>
      assert Occurrences(s, '\n') == 0;
    case Some(i) =>
      CountSplit(s, i, '\n');
      assert Occurrences(s[..i], '\n') == 0;
      var rest := s[i + 1..];
      IndexOfIsFirst(rest, '\n');
      match IndexOf(rest, '\n')
      case None =>
        assert Occurrences(rest, '\n') == 0;
      case Some(j) =>
        assert Occurrences(rest, '\n') > 0;
  }

  // ---------------------------------------------------------------------------
  // The rows

  /** What the row loop produced: the counts of the rows it accepted, in
      order, and whether it ran to the end (false: a row failed to scan). */
  datatype TableScan = TableScan(rows: seq<Traffic>, complete: bool)

  /** The row loop over the text after the header. It looks for the next
      colon anywhere in the remaining text and scans the row after it; it
      stops when no colon is left. */
  function ScanTable(s: seq<char>): TableScan
    decreases |s|, 1
  {
    match IndexOf(s, ':')
    case None => TableScan([], true)
    case Some(c) => ScanRowAfterColon(s[c + 1..])
  }

  /** One turn of the row loop, on the text after a colon: the row is cut at
      the next newline and scanned; a row that does not scan stops the loop
      as a failure, and so does a last row without a newline as a success. */
  function ScanRowAfterColon(after: seq<char>): TableScan
    decreases |after|, 0
  {
    match IndexOf(after, '\n')
    case None =>
      (match ScanRow(after)
       case None => TableScan([], false)
       case Some(r) => TableScan([r], true))
    case Some(e) =>
      match ScanRow(after[..e])
      case None => TableScan([], false)
      case Some(r) =>
        var t := ScanTable(after[e + 1..]);
        TableScan([r] + t.rows, t.complete)
  }

  /** The loop accepts at most one row per colon of the text. */
  lemma {:induction false} RowsAtMostColons(s: seq<char>)
    ensures |ScanTable(s).rows| <= Occurrences(s, ':')
    decreases |s|, 1
  {
    match IndexOf(s, ':')
    case None =>
    case Some(c) =>
      var after := s[c + 1..];
      FirstColon(s, c, after);
      CountSplit(s, c, ':');
      RowsAfterColon(after);
  }

  /** After a colon, at most one row more than the colons that follow. */
  lemma {:induction false} RowsAfterColon(after: seq<char>)
    ensures |ScanRowAfterColon(after).rows| <= 1 + Occurrences(after, ':')
    decreases |after|, 0
  {
    match IndexOf(after, '\n')
    case None =>
    case Some(e) =>
      var next := after[e + 1..];
      if ScanRow(after[..e]).Some? {
        RowsAtMostColons(next);
        CountSplit(after, e, ':');
      }
  }

  /** The row loop ends when no colon is left after position `from` of the
      snapshot `s`. */
  lemma NoColonAt(s: seq<char>, from: nat)
    requires from <= |s|
    requires IndexOf(s[from..], ':').None?
    ensures ScanTable(s[from..]) == TableScan([], true)
  {
  }

  /** Otherwise it scans the row after the first colon from `from` on, found
      at position `c` of the snapshot `s`. */
  lemma ColonAt(s: seq<char>, from: nat, c: nat)
    requires from <= c < |s|
    requires IndexOf(s[from..], ':') == Some(c - from)
    ensures ScanTable(s[from..]) == ScanRowAfterColon(s[c + 1..])
  {
    var t := s[from..];
    assert t[c - from + 1..] == s[c + 1..];
    FirstColon(t, c - from, s[c + 1..]);
  }

  /** The first colon of `t` is at `c` and `after` is what follows it. */
  lemma FirstColon(t: seq<char>, c: nat, after: seq<char>)
    requires IndexOf(t, ':') == Some(c) && after == t[c + 1..]
    ensures ScanTable(t) == ScanRowAfterColon(after)
  {
  }

  /** What the driver concludes from a snapshot. */
  datatype Parse = MissingHeader | Table(scan: TableScan)

  function ParseNetDev(s: seq<char>): Parse
  {
    match HeaderEnd(s)
    case None => MissingHeader
    case Some(h) => Table(ScanTable(s[h..]))
  }

  // ---------------------------------------------------------------------------
  // The totals

  /** The receive total as the driver accumulates it: `uint64_t` additions,
      starting from zero, in row order. */
  function SumReceived(rows: seq<Traffic>): U64
  {
    if rows == [] then 0
    else WrapAdd(SumReceived(rows[..|rows| - 1]), Wrap(rows[|rows| - 1].received))
  }

  function SumTransmitted(rows: seq<Traffic>): U64
  {
    if rows == [] then 0
    else WrapAdd(SumTransmitted(rows[..|rows| - 1]), Wrap(rows[|rows| - 1].transmitted))
  }

  /** One more row: one more wrapped addition per total. */
  lemma SumsStep(rows: seq<Traffic>, r: Traffic)
    ensures SumReceived(rows + [r]) == WrapAdd(SumReceived(rows), Wrap(r.received))
    ensures SumTransmitted(rows + [r]) == WrapAdd(SumTransmitted(rows), Wrap(r.transmitted))
  {
    assert (rows + [r])[..|rows|] == rows;
  }

  /** The mathematical sums, without wrap-around. */
  function TotalReceived(rows: seq<Traffic>): int
  {
    if rows == [] then 0 else TotalReceived(rows[..|rows| - 1]) + rows[|rows| - 1].received
  }

  function TotalTransmitted(rows: seq<Traffic>): int
  {
    if rows == [] then 0 else TotalTransmitted(rows[..|rows| - 1]) + rows[|rows| - 1].transmitted
  }

  /** Reducing before a wrapped addition loses nothing. */
  lemma AddReduced(x: int, y: int)
    ensures WrapAdd(Wrap(x), Wrap(y)) as int == (x + y) % TWO_64
  {
    var qx, qy := x / TWO_64, y / TWO_64;
    var rx, ry := x % TWO_64, y % TWO_64;
    assert x == qx * TWO_64 + rx && y == qy * TWO_64 + ry;
    assert x + y == (qx + qy) * TWO_64 + (rx + ry);
    if rx + ry < TWO_64 {
      assert (x + y) % TWO_64 == rx + ry;
    } else {
      assert x + y == (qx + qy + 1) * TWO_64 + (rx + ry - TWO_64);
      assert (x + y) % TWO_64 == rx + ry - TWO_64;
    }
  }

  /** The accumulated totals are the true sums reduced modulo 2^64; so they
      are the true sums whenever those fit in 64 bits. */
  lemma {:induction false} SumsAreTotalsModulo(rows: seq<Traffic>)
    ensures SumReceived(rows) as int == TotalReceived(rows) % TWO_64
    ensures SumTransmitted(rows) as int == TotalTransmitted(rows) % TWO_64
  {
    if rows != [] {
      var init, last := rows[..|rows| - 1], rows[|rows| - 1];
      SumsAreTotalsModulo(init);
      AddReduced(TotalReceived(init), last.received);
      AddReduced(TotalTransmitted(init), last.transmitted);
      assert Wrap(TotalReceived(init)) == SumReceived(init);
      assert Wrap(TotalTransmitted(init)) == SumTransmitted(init);
    }
  }

  // ---------------------------------------------------------------------------
  // Rendered tables: the scan reads back rows laid out as `name:` followed by
  // blank-padded decimal fields

  /** One interface row: its name and its padded fields. */
  datatype Interface = Interface(name: string, fields: seq<Field>)

  /** A row the search cannot misread: the name holds no colon and no line
      end (it may hold the blanks of a right-aligned name), and the fields
      are padded with blanks. */
  predicate WellFormedRow(i: Interface)
  {
    ':' !in i.name && '\n' !in i.name && Padded(i.fields)
  }

  function FormatLine(i: Interface): string
  {
    i.name + [':'] + FormatFields(i.fields) + ['\n']
  }

  function FormatRows(ifs: seq<Interface>): string
  {
    if ifs == [] then [] else FormatLine(ifs[0]) + FormatRows(ifs[1..])
  }

  function TrafficOf(i: Interface): Traffic
    requires |i.fields| >= 9
  {
    Traffic(i.fields[0].value, i.fields[8].value)
  }

  predicate Complete(ifs: seq<Interface>)
  {
    forall k :: 0 <= k < |ifs| ==> WellFormedRow(ifs[k]) && |ifs[k].fields| >= 9
  }

  function TrafficOfAll(ifs: seq<Interface>): seq<Traffic>
    requires Complete(ifs)
  {
    if ifs == [] then [] else [TrafficOf(ifs[0])] + TrafficOfAll(ifs[1..])
  }

  lemma NoNewlineInFields(fs: seq<Field>)
    requires Padded(fs)
    ensures '\n' !in FormatFields(fs)
  {
    FormatFieldsChars(fs);
  }

  /** The search for the colon finds the one after the interface name, and the
      search for the row end finds the newline after the fields. */
  lemma LineLayout(i: Interface, rest: seq<char>)
    requires WellFormedRow(i)
    ensures var s := FormatLine(i) + rest;
            var c := |i.name|;
            IndexOf(s, ':') == Some(c) &&
            s[c + 1..] == FormatFields(i.fields) + ['\n'] + rest &&
            IndexOf(s[c + 1..], '\n') == Some(|FormatFields(i.fields)|)
  {
    var s := FormatLine(i) + rest;
    var f := FormatFields(i.fields);
    var c := |i.name|;
    assert s == i.name + [':'] + (f + ['\n'] + rest);
    assert forall k :: 0 <= k < c ==> s[k] == i.name[k];
    FirstIsIndexOf(s, ':', c);
    var after := s[c + 1..];
    assert after == f + ['\n'] + rest;
    NoNewlineInFields(i.fields);
    assert forall k :: 0 <= k < |f| ==> after[k] == f[k];
    FirstIsIndexOf(after, '\n', |f|);
  }

  /** A row that scans and ends at a newline is accepted, and the loop goes
      on with the text `next` after that newline. */
  lemma RowThenMore(after: seq<char>, e: nat, next: seq<char>)
    requires IndexOf(after, '\n') == Some(e) && next == after[e + 1..]
    ensures ScanRow(after[..e]).Some? ==>
              ScanRowAfterColon(after) ==
                TableScan([ScanRow(after[..e]).value] + ScanTable(next).rows, ScanTable(next).complete)
  {
  }

  /** A well-formed row is scanned and the loop carries on after its newline. */
  lemma ScanTableLine(i: Interface, rest: seq<char>)
    requires WellFormedRow(i) && |i.fields| >= 9
    ensures ScanTable(FormatLine(i) + rest) ==
              TableScan([TrafficOf(i)] + ScanTable(rest).rows, ScanTable(rest).complete)
  {
    LineLayout(i, rest);
    var s := FormatLine(i) + rest;
    var f := FormatFields(i.fields);
    var c := |i.name|;
    var after := s[c + 1..];
    FirstColon(s, c, after);
    assert after[..|f|] == f;
    assert after[|f| + 1..] == rest;
    ScanRowOfRendered(i.fields);
    RowThenMore(after, |f|, rest);
  }

  /** A row with fewer than nine fields fails the whole scan, whatever follows. */
  lemma ScanTableShortLine(i: Interface, rest: seq<char>)
    requires WellFormedRow(i) && |i.fields| < 9
    ensures ScanTable(FormatLine(i) + rest) == TableScan([], false)
  {
    LineLayout(i, rest);
    var s := FormatLine(i) + rest;
    var f := FormatFields(i.fields);
    var after := s[|i.name| + 1..];
    assert after[..|f|] == f;
    ScanRowTooFewFields(i.fields);
  }

  /** A last row with no newline after it still counts, and ends the scan. */
  lemma ScanTableUnterminatedLine(i: Interface)
    requires WellFormedRow(i) && |i.fields| >= 9
    ensures ScanTable(i.name + [':'] + FormatFields(i.fields)) == TableScan([TrafficOf(i)], true)
  {
    var f := FormatFields(i.fields);
    var s := i.name + [':'] + f;
    var c := |i.name|;
    assert forall k :: 0 <= k < c ==> s[k] == i.name[k];
    FirstIsIndexOf(s, ':', c);
    assert s[c + 1..] == f;
    NoNewlineInFields(i.fields);
    ScanRowOfRendered(i.fields);
  }

  lemma NoColonInEither(junk: seq<char>, s: seq<char>)
    requires ':' !in junk && IndexOf(s, ':').None?
    ensures ScanTable(junk + s) == TableScan([], true)
  {
    IndexOfIsFirst(s, ':');
    assert ':' !in junk + s;
    IndexOfIsFirst(junk + s, ':');
  }

  lemma FirstColonAfterJunk(junk: seq<char>, s: seq<char>, c: nat)
    requires ':' !in junk && IndexOf(s, ':') == Some(c)
    ensures IndexOf(junk + s, ':') == Some(|junk| + c)
  {
    IndexOfIsFirst(s, ':');
    var js := junk + s;
    forall k | 0 <= k < |junk| + c
      ensures js[k] != ':'
    {
      if k < |junk| {
        assert js[k] == junk[k];
      } else {
        assert js[k] == s[..c][k - |junk|];
      }
    }
    FirstIsIndexOf(js, ':', |junk| + c);
  }

  /** The colon search runs across line ends: text without a colon before a
      row is passed over as if it belonged to that row's name. */
  lemma ScanTableSkipsTextWithoutColon(junk: seq<char>, s: seq<char>)
    requires ':' !in junk
    ensures ScanTable(junk + s) == ScanTable(s)
  {
    var js := junk + s;
    if IndexOf(s, ':').None? {
      NoColonInEither(junk, s);
      assert ScanTable(s) == TableScan([], true);
    } else {
      var c := IndexOf(s, ':').value;
      var after := s[c + 1..];
      FirstColonAfterJunk(junk, s, c);
      assert js[|junk| + c + 1..] == after;
      FirstColon(js, |junk| + c, after);
      FirstColon(s, c, after);
    }
  }

  lemma ConcatAssoc(a: seq<Traffic>, b: seq<Traffic>, c: seq<Traffic>)
    ensures a + (b + c) == (a + b) + c
  {
  }

  /** Well-formed rows are read back in order, and the scan then continues
      with whatever follows them. */
  lemma {:induction false} ScanTableRows(ifs: seq<Interface>, rest: seq<char>)
    requires Complete(ifs)
    ensures ScanTable(FormatRows(ifs) + rest) ==
              TableScan(TrafficOfAll(ifs) + ScanTable(rest).rows, ScanTable(rest).complete)
  {
    if ifs == [] {
      assert FormatRows(ifs) + rest == rest;
    } else {
      var tl := ifs[1..];
      assert Complete(tl) by {
        forall k | 0 <= k < |tl| ensures WellFormedRow(tl[k]) && |tl[k].fields| >= 9 {
          assert tl[k] == ifs[k + 1];
        }
      }
      assert WellFormedRow(ifs[0]) && |ifs[0].fields| >= 9;
      var later := FormatRows(tl) + rest;
      assert FormatRows(ifs) + rest == FormatLine(ifs[0]) + later;
      ScanTableRows(tl, rest);
      ScanTableLine(ifs[0], later);
      var r := ScanTable(rest);
      var first, others := TrafficOf(ifs[0]), TrafficOfAll(tl);
      assert TrafficOfAll(ifs) == [first] + others;
      ConcatAssoc([first], others, r.rows);
    }
  }

  /** A malformed row ends the scan as a failure; the rows before it have
      already been accepted (and added to the totals): nothing is rolled back. */
  lemma MalformedRowKeepsEarlierRows(good: seq<Interface>, bad: Interface, rest: seq<char>)
    requires Complete(good)
    requires WellFormedRow(bad) && |bad.fields| < 9
    ensures ScanTable(FormatRows(good) + (FormatLine(bad) + rest)) == TableScan(TrafficOfAll(good), false)
  {
    ScanTableRows(good, FormatLine(bad) + rest);
    ScanTableShortLine(bad, rest);
  }

  /** Two header lines are skipped, whatever they hold, and the rows are
      scanned from the character after the second newline. */
  lemma ParseAfterHeader(h1: string, h2: string, body: string)
    requires '\n' !in h1 && '\n' !in h2
    ensures ParseNetDev(h1 + ['\n'] + h2 + ['\n'] + body) == Table(ScanTable(body))
  {
    var s := h1 + ['\n'] + h2 + ['\n'] + body;
    assert forall k :: 0 <= k < |h1| ==> s[k] == h1[k];
    FirstIsIndexOf(s, '\n', |h1|);
    var r := s[|h1| + 1..];
    assert r == h2 + ['\n'] + body;
    assert forall k :: 0 <= k < |h2| ==> r[k] == h2[k];
    FirstIsIndexOf(r, '\n', |h2|);
    assert s[|h1| + 1 + |h2| + 1..] == body;
  }

  /** A snapshot made of two header lines and well-formed rows parses to the
      rows' counts. */
  lemma ParseRenderedSnapshot(h1: string, h2: string, ifs: seq<Interface>)
    requires '\n' !in h1 && '\n' !in h2
    requires Complete(ifs)
    ensures ParseNetDev(h1 + ['\n'] + h2 + ['\n'] + FormatRows(ifs)) == Table(TableScan(TrafficOfAll(ifs), true))
  {
    ParseAfterHeader(h1, h2, FormatRows(ifs));
    assert FormatRows(ifs) + [] == FormatRows(ifs);
    ScanTableRows(ifs, []);
    assert TrafficOfAll(ifs) + [] == TrafficOfAll(ifs);
  }

  /** Totals over two rows: one wrapped addition per row, from zero. */
  lemma TwoRowSums(a: Traffic, b: Traffic)
    ensures SumReceived([a, b]) == WrapAdd(Wrap(a.received), Wrap(b.received))
    ensures SumTransmitted([a, b]) == WrapAdd(Wrap(a.transmitted), Wrap(b.transmitted))
  {
    assert [a, b][..1] == [a];
    assert [a][..0] == [];
    assert SumReceived([a]) == Wrap(a.received);
    assert SumTransmitted([a]) == Wrap(a.transmitted);
  }

  lemma TwoInterfaceCounts(lo: Interface, eth0: Interface)
    requires WellFormedRow(lo) && WellFormedRow(eth0) && |lo.fields| >= 9 && |eth0.fields| >= 9
    ensures Complete([lo, eth0])
    ensures TrafficOfAll([lo, eth0]) == [TrafficOf(lo), TrafficOf(eth0)]
  {
    assert [lo, eth0][1..] == [eth0];
    assert [eth0][1..] == [];
    assert TrafficOfAll([eth0]) == [TrafficOf(eth0)] + TrafficOfAll([]);
    assert TrafficOfAll([lo, eth0]) == [TrafficOf(lo)] + TrafficOfAll([eth0]);
  }

  /** Two interfaces, one with 100 bytes received and 200 sent and one with
      300 received and 50 sent, give totals of 400 and 250. */
  lemma TwoInterfaceTotals(h1: string, h2: string, lo: Interface, eth0: Interface)
    requires '\n' !in h1 && '\n' !in h2
    requires WellFormedRow(lo) && WellFormedRow(eth0) && |lo.fields| >= 9 && |eth0.fields| >= 9
    requires lo.fields[0].value == 100 && lo.fields[8].value == 200
    requires eth0.fields[0].value == 300 && eth0.fields[8].value == 50
    ensures var p := ParseNetDev(h1 + ['\n'] + h2 + ['\n'] + FormatRows([lo, eth0]));
            p.Table? && p.scan.complete &&
            SumReceived(p.scan.rows) == 400 && SumTransmitted(p.scan.rows) == 250
  {
    TwoInterfaceCounts(lo, eth0);
    ParseRenderedSnapshot(h1, h2, [lo, eth0]);
    TwoRowSums(TrafficOf(lo), TrafficOf(eth0));
  }
}
