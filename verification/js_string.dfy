/**
 * The ECMAScript string operations the URL builder relies on:
 * `String.prototype.trim`, `Array.prototype.join`, and the splitting a
 * reader of the generated query performs (`split` on a separator, and a
 * cut at the first occurrence of a character).
 */
module JsString {

  /** ECMAScript WhiteSpace or LineTerminator: the code points `trim` removes. */
  predicate IsTrimmable(c: char) {
    || c == '\t' || c == '\n' || c == '\U{B}' || c == '\U{C}' || c == '\r'
    || c == ' ' || c == '\U{A0}' || c == '\U{1680}'
    || ('\U{2000}' <= c <= '\U{200A}')
    || c == '\U{2028}' || c == '\U{2029}' || c == '\U{202F}' || c == '\U{205F}'
    || c == '\U{3000}' || c == '\U{FEFF}'
  }

  /** A string that is empty or holds nothing but trimmable code points. */
  predicate Blank(s: string) {
    forall i :: 0 <= i < |s| ==> IsTrimmable(s[i])
  }

  /** Drops the longest trimmable prefix. */
  function TrimStart(s: string): (r: string)
    ensures |r| <= |s| && r == s[|s| - |r|..]
    ensures forall i :: 0 <= i < |s| - |r| ==> IsTrimmable(s[i])
    ensures r == [] || !IsTrimmable(r[0])
    decreases |s|
  {
    if |s| > 0 && IsTrimmable(s[0]) then TrimStart(s[1..]) else s
  }

  /** Drops the longest trimmable suffix. */
  function TrimEnd(s: string): (r: string)
    ensures |r| <= |s| && r == s[..|r|]
    ensures forall i :: |r| <= i < |s| ==> IsTrimmable(s[i])
    ensures r == [] || !IsTrimmable(r[|r| - 1])
    decreases |s|
  {
    if |s| > 0 && IsTrimmable(s[|s| - 1]) then TrimEnd(s[..|s| - 1]) else s
  }

  /** `s.trim()`: empty exactly when `s` is blank. */
  function Trim(s: string): (r: string)
    ensures r == [] <==> Blank(s)
    ensures r != [] ==> !IsTrimmable(r[0]) && !IsTrimmable(r[|r| - 1])
  {
    var t := TrimStart(s);
    if t == [] then
      []
    else
      assert !IsTrimmable(t[0]);
      TrimEnd(t)
  }

  /** `parts.join(sep)`: neighbours separated by one `sep`, none at either end. */
  function Join(parts: seq<string>, sep: char): (r: string)
    ensures |parts| == 0 ==> r == []
    ensures |parts| > 0 ==> parts[0] <= r
  {
    if |parts| == 0 then []
    else if |parts| == 1 then parts[0]
    else parts[0] + [sep] + Join(parts[1..], sep)
  }

  /** `s.split(sep)` for a one-character separator: the runs between
      separators, empty ones included, so never fewer than one. */
  function Split(s: string, sep: char): (r: seq<string>)
    ensures |r| >= 1
    ensures forall i :: 0 <= i < |r| ==> sep !in r[i]
    ensures Join(r, sep) == s
    decreases |s|
  {
    if |s| == 0 then [[]]
    else
      var t := Split(s[1..], sep);
      if s[0] == sep then
        var r := [[]] + t;
        assert r[0] == [] && r[1..] == t;
        assert s == [sep] + s[1..];
        r
      else
        var r := [[s[0]] + t[0]] + t[1..];
        assert r[1..] == t[1..];
        assert s == [s[0]] + s[1..];
        assert Join(r, sep) == [s[0]] + Join(t, sep) by {
          if |t| > 1 {
            assert Join(t, sep) == t[0] + [sep] + Join(t[1..], sep);
          }
        }
        r
  }

  /** Cuts `s` at the first `c`: what precedes it and what follows it;
      `(s, "")` when there is no `c`, as a query reader treats a pair
      without `=`. */
  function SplitAtFirst(s: string, c: char): (r: (string, string))
    ensures c !in r.0
    ensures c in s ==> s == r.0 + [c] + r.1
    ensures c !in s ==> r == (s, [])
    decreases |s|
  {
    if |s| == 0 then ([], [])
    else if s[0] == c then ([], s[1..])
    else
      var t := SplitAtFirst(s[1..], c);
      assert s == [s[0]] + s[1..];
      ([s[0]] + t.0, t.1)
  }

  lemma SplitPlain(a: string, sep: char)
    requires sep !in a
    ensures Split(a, sep) == [a]
  {
  }

  lemma {:induction false} SplitCut(a: string, b: string, sep: char)
    requires sep !in a
    ensures Split(a + [sep] + b, sep) == [a] + Split(b, sep)
    decreases |a|
  {
    var s := a + [sep] + b;
    if |a| == 0 {
      assert s[0] == sep && s[1..] == b;
    } else {
      var rest := a[1..] + [sep] + b;
      assert s[0] == a[0] && s[1..] == rest;
      SplitCut(a[1..], b, sep);
      var t := Split(rest, sep);
      assert t[0] == a[1..] && t[1..] == Split(b, sep);
      assert [a[0]] + a[1..] == a;
    }
  }

  /** Splitting undoes joining, provided no part holds the separator and
      there is at least one part. */
  lemma {:induction false} SplitJoin(parts: seq<string>, sep: char)
    requires |parts| > 0
    requires forall i :: 0 <= i < |parts| ==> sep !in parts[i]
    ensures Split(Join(parts, sep), sep) == parts
    decreases |parts|
  {
    if |parts| == 1 {
      SplitPlain(parts[0], sep);
    } else {
      SplitJoin(parts[1..], sep);
      SplitCut(parts[0], Join(parts[1..], sep), sep);
      assert [parts[0]] + parts[1..] == parts;
    }
  }

  /** Cutting at the first `c` recovers both halves when the first half has no `c`. */
  lemma {:induction false} SplitAtFirstCut(a: string, b: string, c: char)
    requires c !in a
    ensures SplitAtFirst(a + [c] + b, c) == (a, b)
    decreases |a|
  {
    var s := a + [c] + b;
    if |a| == 0 {
      assert s[0] == c && s[1..] == b;
    } else {
      var rest := a[1..] + [c] + b;
      assert s[0] == a[0] && s[1..] == rest;
      SplitAtFirstCut(a[1..], b, c);
      assert [a[0]] + a[1..] == a;
    }
  }
}
