/** Character-level string helpers with the semantics of the JavaScript
    built-ins the application calls: ASCII letter classes of regular
    expressions, `toLowerCase`, `trim`, and decimal rendering of a count. */
module Text {

  predicate IsUpper(c: char) { 'A' <= c <= 'Z' }

  predicate IsLower(c: char) { 'a' <= c <= 'z' }

  predicate IsDigit(c: char) { '0' <= c <= '9' }

  /** `toLowerCase` on one character, restricted to ASCII (see README). */
  function LowerChar(c: char): char
  {
    if IsUpper(c) then (c as int + 32) as char else c
  }

  /** `toUpperCase` on one lowercase ASCII letter. */
  function UpperChar(c: char): (d: char)
    requires IsLower(c)
    ensures IsUpper(d) && LowerChar(d) == c
  {
    (c as int - 32) as char
  }

  /** `String.prototype.toLowerCase`, character by character. */
  function Lower(s: string): (r: string)
    ensures |r| == |s|
    ensures forall i :: 0 <= i < |r| ==> !IsUpper(r[i])
    ensures forall i :: 0 <= i < |r| ==> (r[i] == s[i] <==> !IsUpper(s[i]))
  {
    seq(|s|, i requires 0 <= i < |s| => LowerChar(s[i]))
  }

  lemma LowerIdempotent(s: string)
    ensures Lower(Lower(s)) == Lower(s)
  {
  }

  /** The characters `String.prototype.trim` removes: ECMAScript WhiteSpace
      (tab, vertical tab, form feed, the space separators, BOM) and
      LineTerminator (LF, CR, LS, PS). */
  predicate IsJsWhite(c: char)
  {
    c == '\t' || c == '\n' || c == '\U{000B}' || c == '\U{000C}' || c == '\r' || c == ' '
    || c == '\U{00A0}' || c == '\U{1680}' || ('\U{2000}' <= c <= '\U{200A}')
    || c == '\U{2028}' || c == '\U{2029}' || c == '\U{202F}' || c == '\U{205F}'
    || c == '\U{3000}' || c == '\U{FEFF}'
  }

  function TrimStart(s: string): (r: string)
    ensures r == [] || !IsJsWhite(r[0])
    ensures |r| <= |s| && r == s[|s| - |r|..]
    ensures forall i :: 0 <= i < |s| - |r| ==> IsJsWhite(s[i])
  {
    if s != [] && IsJsWhite(s[0]) then TrimStart(s[1..]) else s
  }

  function TrimEnd(s: string): (r: string)
    ensures r == [] || !IsJsWhite(r[|r| - 1])
    ensures |r| <= |s| && r == s[..|r|]
    ensures forall i :: |r| <= i < |s| ==> IsJsWhite(s[i])
  {
    if s != [] && IsJsWhite(s[|s| - 1]) then TrimEnd(s[..|s| - 1]) else s
  }

  /** `String.prototype.trim`. */
  function Trim(s: string): (r: string)
    ensures r == [] || (!IsJsWhite(r[0]) && !IsJsWhite(r[|r| - 1]))
  {
    TrimEnd(TrimStart(s))
  }

  /** Trimming yields the empty string exactly when every character is white space. */
  lemma TrimEmptyIffBlank(s: string)
    ensures Trim(s) == [] <==> forall i :: 0 <= i < |s| ==> IsJsWhite(s[i])
  {
    var t := TrimStart(s);
    assert t != [] ==> t[0] == s[|s| - |t|];
    assert t != [] ==> TrimEnd(t) != [];
  }

  /** A string without white space at either end is its own trim. */
  lemma TrimUnchanged(s: string)
    requires s == [] || (!IsJsWhite(s[0]) && !IsJsWhite(s[|s| - 1]))
    ensures Trim(s) == s
  {
  }

  /** Decimal rendering of a natural number, as a template literal shows it. */
  function Decimal(n: nat): (r: string)
    ensures |r| >= 1
    ensures forall i :: 0 <= i < |r| ==> IsDigit(r[i])
    ensures r[0] == '0' ==> n == 0
  {
    if n < 10 then [('0' as int + n) as char]
    else Decimal(n / 10) + [('0' as int + n % 10) as char]
  }

  /** Reading a string of decimal digits back as a number. */
  function DigitsValue(s: string): nat
    requires forall i :: 0 <= i < |s| ==> IsDigit(s[i])
  {
    if s == [] then 0
    else
      var last := s[|s| - 1];
      assert IsDigit(last);
      10 * DigitsValue(s[..|s| - 1]) + (last as int - '0' as int)
  }

  lemma {:induction false} DecimalRoundTrip(n: nat)
    ensures DigitsValue(Decimal(n)) == n
  {
    if n >= 10 {
      DecimalRoundTrip(n / 10);
      var d := Decimal(n);
      assert d[..|d| - 1] == Decimal(n / 10);
    }
  }

  /** Position of the first `c` in `s` (`indexOf`), or `|s|` when absent. */
  function IndexOf(s: string, c: char): (i: nat)
    ensures i <= |s| && c !in s[..i]
    ensures i < |s| ==> s[i] == c
    ensures i == |s| <==> c !in s
  {
    if s == [] then 0 else if s[0] == c then 0 else 1 + IndexOf(s[1..], c)
  }

  /** `s.split(c)` for a one-character separator: the pieces between the separators. */
  function Split(s: string, sep: char): (parts: seq<string>)
    ensures |parts| >= 1
    ensures forall k :: 0 <= k < |parts| ==> sep !in parts[k]
    decreases |s|
  {
    if sep !in s then [s]
    else
      var i := IndexOf(s, sep);
      [s[..i]] + Split(s[i + 1..], sep)
  }

  /** `parts.join(sep)` */
  function Join(parts: seq<string>, sep: char): string
    requires |parts| >= 1
  {
    if |parts| == 1 then parts[0] else parts[0] + [sep] + Join(parts[1..], sep)
  }

  /** Splitting loses nothing: joining the pieces gives the string back. */
  lemma {:induction false} SplitJoin(s: string, sep: char)
    ensures Join(Split(s, sep), sep) == s
    decreases |s|
  {
    if sep in s {
      var i := IndexOf(s, sep);
      var tail := Split(s[i + 1..], sep);
      SplitJoin(s[i + 1..], sep);
      var parts := [s[..i]] + tail;
      assert Split(s, sep) == parts;
      assert parts[1..] == tail;
      assert Join(parts, sep) == s[..i] + [sep] + Join(tail, sep);
      assert s == s[..i] + [sep] + s[i + 1..];
    }
  }

  /** Splitting a string whose first separator ends the piece `a`. */
  lemma SplitFirst(a: string, sep: char, b: string)
    requires sep !in a
    ensures Split(a + [sep] + b, sep) == [a] + Split(b, sep)
  {
    var s := a + [sep] + b;
    assert s[|a|] == sep;
    assert s[..|a|] == a;
    assert IndexOf(s, sep) == |a|;
    assert s[|a| + 1..] == b;
  }

  /** There is a second piece exactly when the separator occurs. */
  lemma SplitHasSecond(s: string, sep: char)
    ensures |Split(s, sep)| >= 2 <==> sep in s
  {
  }

  /** Lower-casing does not move the first occurrence of a non-letter. */
  lemma {:induction false} IndexOfLower(s: string, c: char)
    requires !IsUpper(c) && !IsLower(c)
    ensures IndexOf(Lower(s), c) == IndexOf(s, c)
  {
    if s != [] {
      assert Lower(s)[1..] == Lower(s[1..]);
      IndexOfLower(s[1..], c);
    }
  }

  /** `ls` holds the lower-cased pieces of `ps`, one by one. */
  predicate LowersOf(ls: seq<string>, ps: seq<string>)
  {
    |ls| == |ps| && forall k :: 0 <= k < |ps| ==> ls[k] == Lower(ps[k])
  }

  lemma LowersCons(x: string, ls: seq<string>, ps: seq<string>)
    requires LowersOf(ls, ps)
    ensures LowersOf([Lower(x)] + ls, [x] + ps)
  {
    var l, p := [Lower(x)] + ls, [x] + ps;
    forall k | 0 <= k < |p| ensures l[k] == Lower(p[k]) {
      if k > 0 {
        assert l[k] == ls[k - 1] && p[k] == ps[k - 1];
      }
    }
  }

  /** One split step on a string and on its lower-cased form. */
  lemma SplitLowerStep(s: string, sep: char)
    requires !IsUpper(sep) && !IsLower(sep)
    ensures var i := IndexOf(s, sep);
      i < |s| ==> Split(Lower(s), sep) == [Lower(s[..i])] + Split(Lower(s[i + 1..]), sep)
    ensures sep !in s ==> Split(Lower(s), sep) == [Lower(s)]
  {
    var i := IndexOf(s, sep);
    if i < |s| {
      assert IndexOf(Lower(s), sep) == i && sep in Lower(s) by { IndexOfLower(s, sep); }
      assert Lower(s)[..i] == Lower(s[..i]) && Lower(s)[i + 1..] == Lower(s[i + 1..]) by { LowerSlices(s, i); }
    } else {
      assert sep !in Lower(s) by { IndexOfLower(s, sep); }
    }
  }

  lemma LowerSlices(s: string, i: nat)
    requires i < |s|
    ensures Lower(s)[..i] == Lower(s[..i])
    ensures Lower(s)[i + 1..] == Lower(s[i + 1..])
  {
  }

  /** Lower-casing commutes with splitting on a character that is not a letter. */
  lemma {:induction false} SplitLower(s: string, sep: char)
    requires !IsUpper(sep) && !IsLower(sep)
    ensures |Split(Lower(s), sep)| == |Split(s, sep)|
    ensures forall k :: 0 <= k < |Split(s, sep)| ==> Split(Lower(s), sep)[k] == Lower(Split(s, sep)[k])
    decreases |s|
  {
    SplitLowerStep(s, sep);
    var i := IndexOf(s, sep);
    if i < |s| {
      SplitLower(s[i + 1..], sep);
      LowersCons(s[..i], Split(Lower(s[i + 1..]), sep), Split(s[i + 1..], sep));
    }
  }

  /** `r` is `s` with spaces inserted (and nothing else changed). */
  predicate InsertsSpaces(s: string, r: string)
    decreases |r|
  {
    if r == [] then s == []
    else
      || (s != [] && r[0] == s[0] && InsertsSpaces(s[1..], r[1..]))
      || (r[0] == ' ' && InsertsSpaces(s, r[1..]))
  }
}
