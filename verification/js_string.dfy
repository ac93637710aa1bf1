/**
 * Models of the JavaScript and Node.js built-ins the edition code relies on:
 * `startsWith`, `indexOf`/`includes`, `trim`, `replace(/\\/g, "/")`,
 * `toLowerCase`, `path.extname`, `Number` and `String`/`padStart`.
 * Strings are sequences of Unicode scalar values.
 */
module JsString {
  import opened Wrappers

  /** `s.startsWith(p)` */
  predicate StartsWith(s: string, p: string) {
    |p| <= |s| && s[..|p|] == p
  }

  /** `s.endsWith(p)` */
  predicate EndsWith(s: string, p: string) {
    |p| <= |s| && s[|s| - |p|..] == p
  }

  /** `pat` occurs in `s` starting at position `j`. */
  predicate OccursAt(s: string, pat: string, j: int) {
    0 <= j && j + |pat| <= |s| && s[j..j + |pat|] == pat
  }

  /** `s.indexOf(pat, from)`: the first occurrence at or after `from`, or -1. */
  function IndexFrom(s: string, pat: string, from: nat): (r: int)
    ensures r == -1 || (from <= r && OccursAt(s, pat, r))
    ensures r == -1 ==> forall j :: from <= j ==> !OccursAt(s, pat, j)
    ensures r != -1 ==> forall j :: from <= j < r ==> !OccursAt(s, pat, j)
    decreases |s| - from
  {
    if from + |pat| > |s| then -1
    else if s[from..from + |pat|] == pat then from
    else IndexFrom(s, pat, from + 1)
  }

  /** `s.indexOf(pat)` */
  function IndexOf(s: string, pat: string): (r: int)
    ensures r == -1 <==> forall j :: !OccursAt(s, pat, j)
    ensures r != -1 ==> OccursAt(s, pat, r) && forall j :: 0 <= j < r ==> !OccursAt(s, pat, j)
  {
    IndexFrom(s, pat, 0)
  }

  /** `s.includes(pat)` */
  predicate Includes(s: string, pat: string) {
    IndexOf(s, pat) >= 0
  }

  /** An occurrence in a suffix of `s` is an occurrence in `s`, shifted. */
  lemma OccursInSuffix(s: string, k: nat, pat: string, j: int)
    requires k <= |s|
    ensures OccursAt(s[k..], pat, j) <==> (0 <= j && OccursAt(s, pat, k + j))
  {
    if 0 <= j && j + |pat| <= |s| - k {
      assert s[k..][j..j + |pat|] == s[k + j..k + j + |pat|];
    }
  }

  /** White space and line terminators as `String.prototype.trim` removes them. */
  predicate IsWhiteSpace(c: char) {
    var n := c as int;
    n == 0x09 || n == 0x0A || n == 0x0B || n == 0x0C || n == 0x0D || n == 0x20
    || n == 0xA0 || n == 0x1680 || (0x2000 <= n <= 0x200A) || n == 0x2028
    || n == 0x2029 || n == 0x202F || n == 0x205F || n == 0x3000 || n == 0xFEFF
  }

  /** Every character of `s` is white space. */
  predicate AllWhite(s: string) {
    forall i :: 0 <= i < |s| ==> IsWhiteSpace(s[i])
  }

  function TrimStart(s: string): (r: string)
    ensures EndsWith(s, r)
    ensures r == [] || !IsWhiteSpace(r[0])
  {
    if s != [] && IsWhiteSpace(s[0]) then
      var r := TrimStart(s[1..]);
      assert s[|s| - |r|..] == s[1..][|s| - 1 - |r|..];
      r
    else s
  }

  function TrimEnd(s: string): (r: string)
    ensures StartsWith(s, r)
    ensures r == [] || !IsWhiteSpace(r[|r| - 1])
  {
    if s != [] && IsWhiteSpace(s[|s| - 1]) then
      var r := TrimEnd(s[..|s| - 1]);
      assert s[..|r|] == s[..|s| - 1][..|r|];
      r
    else s
  }

  /** `s` is `a + r + b` where `a` and `b` are white space only. */
  predicate BetweenWhite(s: string, r: string) {
    exists k :: 0 <= k <= |s| - |r| && s[k..k + |r|] == r && AllWhite(s[..k]) && AllWhite(s[k + |r|..])
  }

  /** What `TrimStart` cuts off is white space. */
  lemma {:induction false} TrimStartWhite(s: string)
    ensures AllWhite(s[..|s| - |TrimStart(s)|])
    decreases |s|
  {
    if s != [] && IsWhiteSpace(s[0]) {
      TrimStartWhite(s[1..]);
      var w := s[..|s| - |TrimStart(s)|];
      forall i | 0 <= i < |w| ensures IsWhiteSpace(w[i]) {
        if i > 0 {
          assert w[i] == s[1..][..|s| - 1 - |TrimStart(s)|][i - 1];
        }
      }
    }
  }

  /** What `TrimEnd` cuts off is white space. */
  lemma {:induction false} TrimEndWhite(s: string)
    ensures AllWhite(s[|TrimEnd(s)|..])
    decreases |s|
  {
    if s != [] && IsWhiteSpace(s[|s| - 1]) {
      TrimEndWhite(s[..|s| - 1]);
      var w := s[|TrimEnd(s)|..];
      forall i | 0 <= i < |w| ensures IsWhiteSpace(w[i]) {
        if i < |w| - 1 {
          assert w[i] == s[..|s| - 1][|TrimEnd(s)|..][i];
        }
      }
    }
  }

  /** Trimming the end keeps every character up to the last non-blank one. */
  lemma {:induction false} TrimEndKeeps(s: string, i: nat)
    requires i < |s| && !IsWhiteSpace(s[i])
    ensures |TrimEnd(s)| > i
    decreases |s|
  {
    if IsWhiteSpace(s[|s| - 1]) {
      TrimEndKeeps(s[..|s| - 1], i);
    }
  }

  /**
   * `s.trim()`: `s` with the white space at both ends removed. The result is
   * a piece of `s` between two runs of white space and does not itself start
   * or end with white space, which fixes it uniquely.
   */
  function Trim(s: string): (r: string)
    ensures r == [] || (!IsWhiteSpace(r[0]) && !IsWhiteSpace(r[|r| - 1]))
    ensures BetweenWhite(s, r)
  {
    var t := TrimStart(s);
    var r := TrimEnd(t);
    TrimStartWhite(s);
    TrimEndWhite(t);
    TrimPieces(s, t, r);
    r
  }

  /** Cutting white space off the front of `s` to give `t`, then off the end of `t` to give `r`. */
  lemma TrimPieces(s: string, t: string, r: string)
    requires |t| <= |s| && t == s[|s| - |t|..] && AllWhite(s[..|s| - |t|])
    requires t == [] || !IsWhiteSpace(t[0])
    requires |r| <= |t| && r == t[..|r|] && AllWhite(t[|r|..])
    requires r == [] || !IsWhiteSpace(r[|r| - 1])
    ensures r == [] || (!IsWhiteSpace(r[0]) && !IsWhiteSpace(r[|r| - 1]))
    ensures BetweenWhite(s, r)
  {
    assert r != [] ==> r[0] == t[0];
    var k := |s| - |t|;
    assert s[k..k + |r|] == t[..|r|];
    assert s[k + |r|..] == t[|r|..];
  }

  /** Every character of `s.trim()` is a character of `s`. */
  lemma TrimInside(s: string)
    ensures forall i :: 0 <= i < |Trim(s)| ==> Trim(s)[i] in s
  {
    var t := TrimStart(s);
    var r := TrimEnd(t);
    assert t == s[|s| - |t|..];
    assert r == t[..|r|];
    forall i | 0 <= i < |r| ensures r[i] in s {
      assert r[i] == t[i] == s[|s| - |t| + i];
    }
  }

  /** A string with no white space at either end is its own trim. */
  lemma TrimUnchanged(s: string)
    requires s == [] || (!IsWhiteSpace(s[0]) && !IsWhiteSpace(s[|s| - 1]))
    ensures Trim(s) == s
  {
  }

  /** `s.replace(/\\/g, "/")`: every backslash becomes a forward slash. */
  function ReplaceBackslashes(s: string): (r: string)
    ensures |r| == |s| && '\\' !in r
    ensures forall i :: 0 <= i < |s| && s[i] != '\\' ==> r[i] == s[i]
    ensures forall i :: 0 <= i < |s| && s[i] == '\\' ==> r[i] == '/'
  {
    seq(|s|, i requires 0 <= i < |s| => if s[i] == '\\' then '/' else s[i])
  }

  /** Lower-cases the ASCII letters `A`-`Z`. */
  function LowerChar(c: char): char {
    if 'A' <= c <= 'Z' then (c as int + 32) as char else c
  }

  /** `s.toLowerCase()` restricted to ASCII letters. */
  function ToLowerAscii(s: string): (r: string)
    ensures |r| == |s|
    ensures forall i :: 0 <= i < |s| ==> r[i] == LowerChar(s[i])
  {
    seq(|s|, i requires 0 <= i < |s| => LowerChar(s[i]))
  }

  /**
   * One step of Node's POSIX `path.extname`, which scans `path` from its end.
   * `end` is one past the last character that is not a trailing `/` (-1
   * while only trailing slashes have been seen), `startDot` the position of
   * the last dot before `end` (-1 if none), and `preDotState` what lies in
   * front of that dot: 0 nothing yet, 1 a dot was seen, -1 another character.
   */
  function ExtScan(path: string, i: int, startDot: int, end: int, preDotState: int): string
    requires -1 <= i < |path|
    requires end == -1 ==> startDot == -1
    requires end != -1 ==> i < end <= |path|
    requires startDot != -1 ==> i < startDot < end
    decreases i + 1
  {
    if i < 0 then ExtOfScan(path, startDot, end, preDotState, 0)
    else if path[i] == '/' then
      if end != -1 then ExtOfScan(path, startDot, end, preDotState, i + 1)
      else ExtScan(path, i - 1, startDot, end, preDotState)
    else
      var end' := if end == -1 then i + 1 else end;
      if path[i] == '.' then
        if startDot == -1 then ExtScan(path, i - 1, i, end', preDotState)
        else ExtScan(path, i - 1, startDot, end', 1)
      else ExtScan(path, i - 1, startDot, end', if startDot != -1 then -1 else preDotState)
  }

  /**
   * The end of the scan: no extension when there is no dot, when the dot
   * opens the last component, or when that component is exactly `..`.
   */
  function ExtOfScan(path: string, startDot: int, end: int, preDotState: int, startPart: int): string
    requires startDot == -1 || 0 <= startDot < end <= |path|
  {
    if startDot == -1 || end == -1 || preDotState == 0
      || (preDotState == 1 && startDot == end - 1 && startDot == startPart + 1)
    then ""
    else path[startDot..end]
  }

  /** Node's POSIX `path.extname`. */
  function Extname(path: string): string {
    ExtScan(path, |path| - 1, -1, -1, 0)
  }

  /** The scan keeps its dot at `startDot` and meets no `/` between `i` and `end`. */
  lemma {:induction false} ExtScanShape(path: string, i: int, startDot: int, end: int, preDotState: int)
    requires -1 <= i < |path|
    requires end == -1 ==> startDot == -1
    requires end != -1 ==> i < end <= |path|
    requires startDot != -1 ==> i < startDot < end && path[startDot] == '.'
    requires end != -1 ==> forall j :: i < j < end ==> path[j] != '/'
    ensures var e := ExtScan(path, i, startDot, end, preDotState);
      e == "" || (e[0] == '.' && '/' !in e)
    decreases i + 1
  {
    if i >= 0 && !(path[i] == '/' && end != -1) {
      if path[i] == '/' {
        ExtScanShape(path, i - 1, startDot, end, preDotState);
      } else {
        var end' := if end == -1 then i + 1 else end;
        if path[i] == '.' {
          if startDot == -1 {
            ExtScanShape(path, i - 1, i, end', preDotState);
          } else {
            ExtScanShape(path, i - 1, startDot, end', 1);
          }
        } else {
          ExtScanShape(path, i - 1, startDot, end', if startDot != -1 then -1 else preDotState);
        }
      }
    }
  }

  /** An extension is empty or a dot followed by characters other than `/`. */
  lemma ExtnameShape(path: string)
    ensures Extname(path) == "" || (Extname(path)[0] == '.' && '/' !in Extname(path))
  {
    ExtScanShape(path, |path| - 1, -1, -1, 0);
  }

  /** Extensions of the names the upload code meets, and of the corner cases Node singles out. */
  lemma ExtnameExamples()
    ensures Extname("scan.PDF") == ".PDF"
    ensures Extname(".pdf") == ""
    ensures Extname("..") == ""
  {
    assert ExtScan("scan.PDF", 7, -1, -1, 0) == ExtScan("scan.PDF", 4, -1, 8, 0)
      == ExtScan("scan.PDF", 3, 4, 8, 0) == ExtScan("scan.PDF", -1, 4, 8, -1);
    assert ExtScan(".pdf", 3, -1, -1, 0) == ExtScan(".pdf", 0, -1, 4, 0) == ExtOfScan(".pdf", 0, 4, 0, 0);
    assert ExtScan("..", 1, -1, -1, 0) == ExtScan("..", 0, 1, 2, 0) == ExtOfScan("..", 1, 2, 1, 0);
  }

  predicate IsDigit(c: char) {
    '0' <= c <= '9'
  }

  predicate AllDigits(s: string) {
    forall i :: 0 <= i < |s| ==> IsDigit(s[i])
  }

  function DigitValue(c: char): nat
    requires IsDigit(c)
  {
    c as int - '0' as int
  }

  function DigitChar(d: nat): (c: char)
    requires d < 10
    ensures IsDigit(c) && DigitValue(c) == d
  {
    (d + '0' as int) as char
  }

  /** The value of a string of decimal digits. */
  function DecimalValue(s: string): nat
    requires AllDigits(s)
  {
    if s == [] then 0 else DecimalValue(s[..|s| - 1]) * 10 + DigitValue(s[|s| - 1])
  }

  /**
   * `Number(s)`: surrounding white space is dropped, what remains is either
   * empty (0) or an optionally signed decimal integer; `None` stands for `NaN`.
   */
  function JsNumber(s: string): (r: Option<int>)
    ensures Trim(s) == "" ==> r == Some(0)
    ensures AllDigits(Trim(s)) ==> r.Some? && r.value >= 0
  {
    var t := Trim(s);
    if t == "" then Some(0)
    else if AllDigits(t) then Some(DecimalValue(t) as int)
    else if (t[0] == '-' || t[0] == '+') && |t| > 1 && AllDigits(t[1..]) then
      var v: int := DecimalValue(t[1..]);
      Some(if t[0] == '-' then -v else v)
    else None
  }

  /** A digit is not white space, so a string of digits is read as its decimal value. */
  lemma NumberOfDigits(s: string)
    requires s != [] && AllDigits(s)
    ensures JsNumber(s) == Some(DecimalValue(s) as int)
  {
    TrimUnchanged(s);
  }

  /** `String(n)` for a natural number. */
  function NatToString(n: nat): (s: string)
    ensures |s| >= 1 && AllDigits(s)
    ensures DecimalValue(s) == n
  {
    if n < 10 then [DigitChar(n)]
    else
      var s := NatToString(n / 10) + [DigitChar(n % 10)];
      assert s[..|s| - 1] == NatToString(n / 10);
      s
  }

  /** `String(i)` for an integer. */
  function IntToString(i: int): string {
    if i < 0 then "-" + NatToString(-i) else NatToString(i)
  }

  /** `s.padStart(2, "0")` */
  function PadStart2(s: string): (r: string)
    ensures |r| == if |s| >= 2 then |s| else 2
    ensures EndsWith(r, s)
    ensures forall i :: 0 <= i < |r| - |s| ==> r[i] == '0'
  {
    if |s| >= 2 then s else if |s| == 1 then "0" + s else "00"
  }

  /** The index of the first `c` in `s`, or `|s|` when there is none. */
  function CharIndex(s: string, c: char): (i: nat)
    ensures i <= |s| && (i < |s| ==> s[i] == c)
    ensures forall j :: 0 <= j < i ==> s[j] != c
  {
    if s == [] then 0
    else if s[0] == c then 0
    else 1 + CharIndex(s[1..], c)
  }

  /** `s.split(sep)`: the pieces between separators, in order. */
  function Split(s: string, sep: char): (parts: seq<string>)
    ensures |parts| >= 1
    decreases |s|
  {
    var i := CharIndex(s, sep);
    if i == |s| then [s] else [s[..i]] + Split(s[i + 1..], sep)
  }

  /** Splitting at the first separator: the piece before it, then the pieces of the rest. */
  lemma SplitAt(x: string, sep: char, y: string)
    requires sep !in x
    ensures Split(x + [sep] + y, sep) == [x] + Split(y, sep)
  {
    var s := x + [sep] + y;
    assert s[|x|] == sep;
    assert forall j :: 0 <= j < |x| ==> s[j] == x[j];
    assert CharIndex(s, sep) == |x|;
    assert s[..|x|] == x && s[|x| + 1..] == y;
  }

  /** A string without the separator is a single piece. */
  lemma SplitNone(x: string, sep: char)
    requires sep !in x
    ensures Split(x, sep) == [x]
  {
    assert CharIndex(x, sep) == |x|;
  }
}
