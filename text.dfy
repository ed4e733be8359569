/** Character search in the snapshot buffer: the C library's `strchr`. */
module Text {

  datatype Option<T> = None | Some(value: T)

  /** The index of the first `c` in `s`, if any. */
  function IndexOf(s: seq<char>, c: char): (r: Option<nat>)
    ensures r.Some? ==> r.value < |s| && s[r.value] == c
    decreases |s|
  {
    if s == [] then None
    else if s[0] == c then Some(0)
    else match IndexOf(s[1..], c)
      case None => None
      case Some(i) => Some(i + 1)
  }

  /** IndexOf finds the first `c`, and finds none only when there is none. */
  lemma {:induction false} IndexOfIsFirst(s: seq<char>, c: char)
    ensures IndexOf(s, c).Some? ==> c !in s[..IndexOf(s, c).value]
    ensures IndexOf(s, c).None? <==> c !in s
    decreases |s|
  {
    if s != [] && s[0] != c {
      IndexOfIsFirst(s[1..], c);
      if IndexOf(s[1..], c).Some? {
        var i := IndexOf(s[1..], c).value;
        assert s[..i + 1] == [s[0]] + s[1..][..i];
      } else {
        assert s == [s[0]] + s[1..];
      }
    }
  }

  /** Any position holding the first `c` of `s` is the one IndexOf finds. */
  lemma FirstIsIndexOf(s: seq<char>, c: char, i: nat)
    requires i < |s| && s[i] == c
    requires forall k :: 0 <= k < i ==> s[k] != c
    ensures IndexOf(s, c) == Some(i)
  {
    IndexOfIsFirst(s, c);
    assert s[i] == c;
    var j := IndexOf(s, c).value;
    assert j < |s| && s[j] == c;
    assert j <= i;
    assert j >= i;
  }

  /** Number of occurrences of `c` in `s`. */
  function Occurrences(s: seq<char>, c: char): nat
  {
    multiset(s)[c]
  }

  /** `strchr(buf + from, ch)`: scans forward from `from` for the first `ch`;
      the result is an index into `buf`. */
  method FindChar(buf: seq<char>, from: nat, ch: char) returns (pos: Option<nat>)
    requires from <= |buf|
    ensures pos == match IndexOf(buf[from..], ch)
                   case None => None
                   case Some(i) => Some(from + i)
  {
    var i := from;
    while i < |buf|
      invariant from <= i <= |buf|
      invariant forall k :: from <= k < i ==> buf[k] != ch
    {
      if buf[i] == ch {
        FirstIsIndexOf(buf[from..], ch, i - from);
        return Some(i);
      }
      i := i + 1;
    }
    assert ch !in buf[from..];
    IndexOfIsFirst(buf[from..], ch);
    return None;
  }
}
