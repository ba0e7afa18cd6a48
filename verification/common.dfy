/**
  Shared vocabulary of the model: an optional value, the string helpers the two
  code bases use (Python's `str.join` and `str.strip`, .NET's
  `string.IsNullOrWhiteSpace`) and decimal rendering of counters.
 */
module Common {

  /** A value that may be missing: Python's `None`, a C# `null`, an absent JSON field. */
  datatype Option<+T> = None | Some(value: T) {
    function GetOr(default: T): T {
      match this
      case Some(v) => v
      case None => default
    }
  }

  /** Flattening of a sequence of strings (Python `"".join`, repeated `+=`). */
  function Concat(parts: seq<string>): (r: string)
    ensures |parts| == 0 ==> r == ""
  {
    if |parts| == 0 then "" else parts[0] + Concat(parts[1..])
  }

  /** Python's `sep.join(parts)`: separators only between neighbours. */
  function Join(parts: seq<string>, sep: string): (r: string)
    ensures |parts| == 0 ==> r == ""
    ensures |parts| == 1 ==> r == parts[0]
  {
    if |parts| == 0 then ""
    else if |parts| == 1 then parts[0]
    else parts[0] + sep + Join(parts[1..], sep)
  }

  /** Joining one more part appends exactly one separator and the part. */
  lemma {:induction false} JoinSnoc(parts: seq<string>, p: string, sep: string)
    requires |parts| > 0
    ensures Join(parts + [p], sep) == Join(parts, sep) + sep + p
  {
    if |parts| == 1 {
      assert parts + [p] == [parts[0], p];
      assert (parts + [p])[1..] == [p];
    } else {
      var tail := parts[1..];
      assert (parts + [p])[1..] == tail + [p];
      JoinSnoc(tail, p, sep);
    }
  }

  /** Concatenating one more part appends it at the end. */
  lemma {:induction false} ConcatSnoc(parts: seq<string>, p: string)
    ensures Concat(parts + [p]) == Concat(parts) + p
  {
    if |parts| == 0 {
      assert parts + [p] == [p];
    } else {
      assert (parts + [p])[1..] == parts[1..] + [p];
      ConcatSnoc(parts[1..], p);
    }
  }

  function DigitChar(d: nat): (c: char)
    requires d < 10
    ensures '0' <= c <= '9' && c as int - '0' as int == d
  {
    ['0', '1', '2', '3', '4', '5', '6', '7', '8', '9'][d]
  }

  /** The number a run of decimal digits denotes, read left to right. */
  function DigitsValue(s: string): int
    decreases |s|
  {
    if |s| == 0 then 0 else 10 * DigitsValue(s[..|s| - 1]) + (s[|s| - 1] as int - '0' as int)
  }

  /**
    Decimal rendering of a natural number, as Python's f-string `{i}` and C#'s
    `{i}` print it: digits without a leading zero that denote `n`.
   */
  function NatToString(n: nat): (r: string)
    ensures |r| > 0
    ensures forall k :: 0 <= k < |r| ==> '0' <= r[k] <= '9'
    ensures |r| > 1 ==> r[0] != '0'
    ensures DigitsValue(r) == n
  {
    if n < 10 then
      var r := [DigitChar(n)];
      assert r[..0] == [];
      r
    else
      var high := NatToString(n / 10);
      var r := high + [DigitChar(n % 10)];
      assert r[..|r| - 1] == high;
      r
  }

  /** The characters for which Python's `str.isspace()` holds (what `str.strip()` removes). */
  predicate PyIsSpace(c: char) {
    ('\U{0009}' <= c <= '\U{000D}') || ('\U{001C}' <= c <= '\U{0020}')
    || c == '\U{0085}' || c == '\U{00A0}' || c == '\U{1680}'
    || ('\U{2000}' <= c <= '\U{200A}') || c == '\U{2028}' || c == '\U{2029}'
    || c == '\U{202F}' || c == '\U{205F}' || c == '\U{3000}'
  }

  /** The characters for which .NET's `Char.IsWhiteSpace` holds; unlike Python it excludes U+001C..U+001F. */
  predicate CsIsWhiteSpace(c: char) {
    ('\U{0009}' <= c <= '\U{000D}') || c == '\U{0020}'
    || c == '\U{0085}' || c == '\U{00A0}' || c == '\U{1680}'
    || ('\U{2000}' <= c <= '\U{200A}') || c == '\U{2028}' || c == '\U{2029}'
    || c == '\U{202F}' || c == '\U{205F}' || c == '\U{3000}'
  }

  function PyLStrip(s: string): (r: string)
    ensures |r| <= |s| && r == s[|s| - |r|..]
    ensures forall k :: 0 <= k < |s| - |r| ==> PyIsSpace(s[k])
    ensures |r| > 0 ==> !PyIsSpace(r[0])
  {
    if |s| > 0 && PyIsSpace(s[0]) then PyLStrip(s[1..]) else s
  }

  function PyRStrip(s: string): (r: string)
    ensures |r| <= |s| && r == s[..|r|]
    ensures forall k :: |r| <= k < |s| ==> PyIsSpace(s[k])
    ensures |r| > 0 ==> !PyIsSpace(r[|r| - 1])
  {
    if |s| > 0 && PyIsSpace(s[|s| - 1]) then PyRStrip(s[..|s| - 1]) else s
  }

  /** Python's `s.strip()` with no argument. */
  function PyStrip(s: string): (r: string)
    ensures |r| > 0 ==> !PyIsSpace(r[0]) && !PyIsSpace(r[|r| - 1])
  {
    PyRStrip(PyLStrip(s))
  }

  /** `s.strip()` is empty exactly when every character of `s` is Python whitespace. */
  lemma PyStripEmptyIff(s: string)
    ensures PyStrip(s) == "" <==> forall k :: 0 <= k < |s| ==> PyIsSpace(s[k])
  {
    var l := PyLStrip(s);
    if PyStrip(s) == "" {
      assert |l| == 0;
    } else {
      var r := PyStrip(s);
      assert r[0] == l[0];
      assert l[0] == s[|s| - |l|];
    }
  }

  /** .NET's `string.IsNullOrWhiteSpace`; `None` stands for `null`. */
  predicate IsNullOrWhiteSpace(s: Option<string>) {
    match s
    case None => true
    case Some(t) => forall k :: 0 <= k < |t| ==> CsIsWhiteSpace(t[k])
  }
}
