/** The field scan that the driver hands to `sscanf` for each interface row:
    the format `" %" SCNu64 " %*u %*u %*u %*u %*u %*u %*u %" SCNu64`,
    restricted to runs of decimal digits separated by white space. */
module Scan {
  import opened Text
  import opened Word

  /** `isspace` in the C locale. */
  predicate IsSpace(ch: char)
  {
    ch == ' ' || ch == '\t' || ch == '\n' || ch == '\U{0B}' || ch == '\U{0C}' || ch == '\r'
  }

  predicate IsDigit(ch: char)
  {
    '0' <= ch <= '9'
  }

  predicate AllDigits(ds: seq<char>)
  {
    forall k :: 0 <= k < |ds| ==> IsDigit(ds[k])
  }

  /** What a white-space directive (or the implicit one of `%u`) leaves:
      the input with its leading white space removed. */
  function SkipSpaces(s: seq<char>): (t: seq<char>)
    ensures |t| <= |s|
  {
    if s != [] && IsSpace(s[0]) then SkipSpaces(s[1..]) else s
  }

  /** SkipSpaces drops exactly the leading white space: what it removes is
      all white space and what it keeps does not start with any. */
  lemma {:induction false} SkipSpacesDropsLeadingSpace(s: seq<char>)
    ensures SkipSpaces(s) == s[|s| - |SkipSpaces(s)|..]
    ensures forall k :: 0 <= k < |s| - |SkipSpaces(s)| ==> IsSpace(s[k])
    ensures SkipSpaces(s) == [] || !IsSpace(SkipSpaces(s)[0])
  {
    if s != [] && IsSpace(s[0]) {
      SkipSpacesDropsLeadingSpace(s[1..]);
    }
  }

  /** Length of the longest prefix of `s` made of decimal digits. */
  function DigitRun(s: seq<char>): (n: nat)
    ensures n <= |s|
    ensures AllDigits(s[..n])
  {
    if s != [] && IsDigit(s[0]) then
      var m := DigitRun(s[1..]);
      assert s[..m + 1] == [s[0]] + s[1..][..m];
      m + 1
    else 0
  }

  /** The digit run is maximal: a non-digit (or the end) follows it. */
  lemma {:induction false} DigitRunIsMaximal(s: seq<char>)
    ensures DigitRun(s) == |s| || !IsDigit(s[DigitRun(s)])
  {
    if s != [] && IsDigit(s[0]) {
      DigitRunIsMaximal(s[1..]);
    }
  }

  function DigitValue(ch: char): (d: nat)
    requires IsDigit(ch)
    ensures d < 10
  {
    ch as int - '0' as int
  }

  function DigitChar(d: nat): (ch: char)
    requires d < 10
    ensures IsDigit(ch) && DigitValue(ch) == d
  {
    ('0' as int + d) as char
  }

  /** The number a run of decimal digits denotes, most significant first. */
  function DecValue(ds: seq<char>): nat
    requires AllDigits(ds)
  {
    if ds == [] then 0
    else DecValue(ds[..|ds| - 1]) * 10 + DigitValue(ds[|ds| - 1])
  }

  /** The decimal rendering of `n`, without leading zeros. */
  function Decimal(n: nat): (ds: seq<char>)
    ensures ds != [] && AllDigits(ds)
  {
    if n < 10 then [DigitChar(n)] else Decimal(n / 10) + [DigitChar(n % 10)]
  }

  /** Reading back a rendered number gives the number. */
  lemma {:induction false} DecValueOfDecimal(n: nat)
    ensures DecValue(Decimal(n)) == n
  {
    var ds := Decimal(n);
    if n >= 10 {
      DecValueOfDecimal(n / 10);
      assert ds[..|ds| - 1] == Decimal(n / 10);
    }
  }

  /** One successful unsigned conversion: the value and the unread input. */
  datatype Scanned = Scanned(value: nat, rest: seq<char>)

  /** `%u`: skip white space, then read the longest run of decimal digits;
      the conversion fails when no digit follows the white space. */
  function ScanUnsigned(s: seq<char>): (r: Option<Scanned>)
    ensures r.Some? ==> |r.value.rest| < |s|
  {
    var t := SkipSpaces(s);
    var n := DigitRun(t);
    if n == 0 then None else Some(Scanned(DecValue(t[..n]), t[n..]))
  }

  /** A conversion succeeds exactly when a digit follows the leading white
      space; it then consumes a prefix of the input and stops at a non-digit. */
  lemma ScanUnsignedSucceedsOnDigit(s: seq<char>)
    ensures ScanUnsigned(s).Some? <==> SkipSpaces(s) != [] && IsDigit(SkipSpaces(s)[0])
    ensures ScanUnsigned(s).Some? ==>
              var rest := ScanUnsigned(s).value.rest;
              rest == s[|s| - |rest|..] && (rest == [] || !IsDigit(rest[0]))
  {
    SkipSpacesDropsLeadingSpace(s);
    DigitRunIsMaximal(SkipSpaces(s));
  }

  /** The conversion reads base 10 only: a leading zero does not switch to
      octal, and an `x` after it ends the number instead of starting a
      hexadecimal one. */
  lemma ScanUnsignedReadsBaseTen()
    ensures ScanUnsigned("010") == Some(Scanned(10, ""))
    ensures ScanUnsigned("0x1A") == Some(Scanned(0, "x1A"))
  {
    var oct: seq<char> := "010";
    assert SkipSpaces(oct) == oct;
    assert DigitRun(oct[2..]) == 1;
    assert DigitRun(oct) == 3;
    assert DecValue(oct[..2]) == 1 by {
      assert oct[..2][..1] == "0";
    }
    assert oct[..3][..2] == oct[..2];
    assert DecValue(oct[..3]) == 10;
    var hex: seq<char> := "0x1A";
    assert SkipSpaces(hex) == hex;
    assert DigitRun(hex) == 1 by {
      assert DigitRun(hex[1..]) == 0;
    }
  }

  /** `n` consecutive `%u` conversions; the values in input order, or None as
      soon as one of them fails. */
  function ScanFields(s: seq<char>, n: nat): (r: Option<seq<nat>>)
    ensures r.Some? ==> |r.value| == n
    decreases n
  {
    if n == 0 then Some([])
    else match ScanUnsigned(s)
      case None => None
      case Some(first) =>
        match ScanFields(first.rest, n - 1)
        case None => None
        case Some(others) => Some([first.value] + others)
  }

  /** What one interface row contributes: receive and transmit byte counts,
      as read (the reduction to 64 bits happens when they are added). */
  datatype Traffic = Traffic(received: nat, transmitted: nat)

  /** The `sscanf` call on the text after an interface's colon. It yields the
      counts exactly when it assigns both of them (`count == 2`), that is,
      when all nine conversions succeed; the first and the ninth are kept. */
  function ScanRow(row: seq<char>): Option<Traffic>
  {
    match ScanFields(row, 9)
    case None => None
    case Some(vs) => Some(Traffic(vs[0], vs[8]))
  }

  // The inverse direction: rendering the fields of a row. Each field is
  // preceded by its own run of blanks, as the kernel's right-aligned columns
  // are: the run may be empty before the first field (a wide receive count
  // follows the colon directly) and holds at least one blank between fields.

  /** White space that stays on the line. */
  predicate Blank(ws: seq<char>)
  {
    forall k :: 0 <= k < |ws| ==> IsSpace(ws[k]) && ws[k] != '\n'
  }

  /** One rendered field: its padding and its value. */
  datatype Field = Field(pad: seq<char>, value: nat)

  /** Paddings are blank, and all but the first are non-empty. */
  predicate Padded(fs: seq<Field>)
  {
    forall k :: 0 <= k < |fs| ==> Blank(fs[k].pad) && (k > 0 ==> fs[k].pad != [])
  }

  function FormatFields(fs: seq<Field>): (s: seq<char>)
  {
    if fs == [] then [] else fs[0].pad + Decimal(fs[0].value) + FormatFields(fs[1..])
  }

  /** Dropping the first field keeps the others padded. */
  lemma PaddedTail(fs: seq<Field>)
    requires fs != [] && Padded(fs)
    ensures Padded(fs[1..])
  {
    forall k | 0 <= k < |fs| - 1
      ensures Blank(fs[1..][k].pad) && (k > 0 ==> fs[1..][k].pad != [])
    {
      assert fs[1..][k] == fs[k + 1];
    }
  }

  /** Rendered fields hold only blanks and digits. */
  lemma {:induction false} FormatFieldsChars(fs: seq<Field>)
    requires Padded(fs)
    ensures forall k :: 0 <= k < |FormatFields(fs)| ==>
              (IsSpace(FormatFields(fs)[k]) && FormatFields(fs)[k] != '\n') || IsDigit(FormatFields(fs)[k])
  {
    if fs != [] {
      PaddedTail(fs);
      FormatFieldsChars(fs[1..]);
      var pad, ds, others := fs[0].pad, Decimal(fs[0].value), FormatFields(fs[1..]);
      var s := FormatFields(fs);
      assert s == pad + ds + others;
      assert Blank(pad);
      assert forall k :: 0 <= k < |pad| ==> s[k] == pad[k];
      assert forall k :: |pad| <= k < |pad| + |ds| ==> s[k] == ds[k - |pad|];
      assert forall k :: |pad| + |ds| <= k < |s| ==> s[k] == others[k - |pad| - |ds|];
    }
  }

  /** After the first, every rendered field starts with a blank. */
  lemma FormatFieldsStartsBlank(fs: seq<Field>, tail: seq<char>)
    requires fs != [] && fs[0].pad != [] && Blank(fs[0].pad)
    ensures var s := FormatFields(fs) + tail; s != [] && IsSpace(s[0]) && !IsDigit(s[0])
  {
    assert (FormatFields(fs) + tail)[0] == fs[0].pad[0];
  }

  lemma {:induction false} DigitRunOfDigits(ds: seq<char>, rest: seq<char>)
    requires AllDigits(ds)
    requires rest == [] || !IsDigit(rest[0])
    ensures DigitRun(ds + rest) == |ds|
    decreases |ds|
  {
    if ds != [] {
      assert (ds + rest)[1..] == ds[1..] + rest;
      DigitRunOfDigits(ds[1..], rest);
    }
  }

  /** White space skipping removes a blank prefix up to a non-space. */
  lemma {:induction false} SkipSpacesOfBlank(ws: seq<char>, t: seq<char>)
    requires Blank(ws)
    requires t == [] || !IsSpace(t[0])
    ensures SkipSpaces(ws + t) == t
    decreases |ws|
  {
    if ws == [] {
      assert ws + t == t;
    } else {
      assert (ws + t)[0] == ws[0];
      assert (ws + t)[1..] == ws[1..] + t;
      SkipSpacesOfBlank(ws[1..], t);
    }
  }

  /** A `%u` conversion reads back exactly one rendered field, whatever its
      padding. */
  lemma ScanUnsignedOfRendered(pad: seq<char>, n: nat, rest: seq<char>)
    requires Blank(pad)
    requires rest == [] || !IsDigit(rest[0])
    ensures ScanUnsigned(pad + Decimal(n) + rest) == Some(Scanned(n, rest))
  {
    var ds := Decimal(n);
    assert pad + ds + rest == pad + (ds + rest);
    assert (ds + rest)[0] == ds[0];
    SkipSpacesOfBlank(pad, ds + rest);
    DigitRunOfDigits(ds, rest);
    assert (ds + rest)[..|ds|] == ds;
    assert (ds + rest)[|ds|..] == rest;
    DecValueOfDecimal(n);
  }

  /** Scanning a rendered field consumes it, then scans the others. */
  lemma ScanFieldsCons(f: Field, rest: seq<char>, n: nat)
    requires n > 0 && Blank(f.pad)
    requires rest == [] || !IsDigit(rest[0])
    ensures ScanFields(rest, n - 1).None? ==>
              ScanFields(f.pad + Decimal(f.value) + rest, n) == None
    ensures ScanFields(rest, n - 1).Some? ==>
              ScanFields(f.pad + Decimal(f.value) + rest, n) == Some([f.value] + ScanFields(rest, n - 1).value)
  {
    ScanUnsignedOfRendered(f.pad, f.value, rest);
  }

  /** The values of rendered fields, in order. */
  function Values(fs: seq<Field>): (vs: seq<nat>)
    ensures |vs| == |fs|
    ensures forall k :: 0 <= k < |fs| ==> vs[k] == fs[k].value
  {
    seq(|fs|, k requires 0 <= k < |fs| => fs[k].value)
  }

  /** Scanning rendered fields gives their values back, in order. */
  lemma {:induction false} ScanFieldsOfRendered(fs: seq<Field>, tail: seq<char>, n: nat)
    requires Padded(fs) && n <= |fs|
    requires tail == [] || !IsDigit(tail[0])
    ensures ScanFields(FormatFields(fs) + tail, n) == Some(Values(fs)[..n])
    decreases n
  {
    if n > 0 {
      var tl := fs[1..];
      PaddedTail(fs);
      assert [fs[0].value] + Values(tl)[..n - 1] == Values(fs)[..n];
      var rest := FormatFields(tl) + tail;
      assert FormatFields(fs) + tail == fs[0].pad + Decimal(fs[0].value) + rest;
      if tl == [] {
        assert rest == tail;
      } else {
        assert tl[0] == fs[1];
        FormatFieldsStartsBlank(tl, tail);
      }
      ScanFieldsOfRendered(tl, tail, n - 1);
      ScanFieldsCons(fs[0], rest, n);
    }
  }

  /** Asking for more fields than were rendered fails. */
  lemma {:induction false} ScanFieldsBeyondRendered(fs: seq<Field>, n: nat)
    requires Padded(fs) && n > |fs|
    ensures ScanFields(FormatFields(fs), n) == None
    decreases n
  {
    if fs == [] {
      assert ScanUnsigned([]) == None;
    } else {
      var tl := fs[1..];
      PaddedTail(fs);
      ScanFieldsBeyondRendered(tl, n - 1);
      if tl != [] {
        assert tl[0] == fs[1];
        assert FormatFields(tl) + [] == FormatFields(tl);
        FormatFieldsStartsBlank(tl, []);
      }
      assert FormatFields(fs) == fs[0].pad + Decimal(fs[0].value) + FormatFields(tl);
      ScanFieldsCons(fs[0], FormatFields(tl), n);
    }
  }

  /** A row of at least nine rendered fields yields its first and ninth. */
  lemma ScanRowOfRendered(fs: seq<Field>)
    requires Padded(fs) && |fs| >= 9
    ensures ScanRow(FormatFields(fs)) == Some(Traffic(fs[0].value, fs[8].value))
  {
    assert FormatFields(fs) + [] == FormatFields(fs);
    ScanFieldsOfRendered(fs, [], 9);
    assert Values(fs)[..9][0] == fs[0].value;
    assert Values(fs)[..9][8] == fs[8].value;
  }

  /** A row with fewer than nine fields (such as `"lo: 100"`) is rejected:
      `sscanf` cannot assign the transmit count. */
  lemma ScanRowTooFewFields(fs: seq<Field>)
    requires Padded(fs) && |fs| < 9
    ensures ScanRow(FormatFields(fs)) == None
  {
    ScanFieldsBeyondRendered(fs, 9);
  }
}
