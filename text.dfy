/**
 * The Python string operations the parser relies on: `str.strip`, `str.lower`,
 * `str.capitalize`, `str.split("-")[0]`, `str.replace(",", ".")`, `str.startswith`
 * and `int(str)`, written out over `seq<char>`.
 */
module Text {
  import opened Wrappers

  /** Python's `str.isspace` for one character; the regex class `\s` is the same set. */
  predicate IsSpace(c: char) {
    ('\t' <= c <= '\r') || ('\U{1C}' <= c <= ' ') || c == '\U{85}' || c == '\U{A0}'
    || c == '\U{1680}' || ('\U{2000}' <= c <= '\U{200A}') || c == '\U{2028}' || c == '\U{2029}'
    || c == '\U{202F}' || c == '\U{205F}' || c == '\U{3000}'
  }

  /** `s.startswith(p)`. */
  predicate StartsWith(s: string, p: string) {
    |p| <= |s| && s[..|p|] == p
  }

  // ---------------------------------------------------------------- strip

  /** `s.lstrip()`: drops every leading whitespace character and nothing else. */
  function TrimStart(s: string): (r: string)
    ensures |r| <= |s| && r == s[|s| - |r|..]
    ensures r == [] || !IsSpace(r[0])
  {
    if s != [] && IsSpace(s[0]) then TrimStart(s[1..]) else s
  }

  /** `s.rstrip()`: drops every trailing whitespace character and nothing else. */
  function TrimEnd(s: string): (r: string)
    ensures |r| <= |s| && r == s[..|r|]
    ensures r == [] || !IsSpace(r[|r| - 1])
  {
    if s != [] && IsSpace(s[|s| - 1]) then TrimEnd(s[..|s| - 1]) else s
  }

  /** `s.strip()`: what is left after `lstrip` and `rstrip`; it neither starts nor ends with whitespace. */
  function Trim(s: string): (r: string)
    ensures r == [] || (!IsSpace(r[0]) && !IsSpace(r[|r| - 1]))
  {
    var t := TrimStart(s);
    var r := TrimEnd(t);
    assert r != [] ==> r[0] == t[0];
    r
  }

  /** What `lstrip` removes is whitespace. */
  lemma {:induction false} TrimStartDrops(s: string)
    ensures forall i :: 0 <= i < |s| - |TrimStart(s)| ==> IsSpace(s[i])
  {
    if s != [] && IsSpace(s[0]) {
      TrimStartDrops(s[1..]);
      assert forall i :: 1 <= i < |s| - |TrimStart(s)| ==> s[i] == s[1..][i - 1];
    }
  }

  /** What `rstrip` removes is whitespace. */
  lemma {:induction false} TrimEndDrops(s: string)
    ensures forall i :: |TrimEnd(s)| <= i < |s| ==> IsSpace(s[i])
  {
    if s != [] && IsSpace(s[|s| - 1]) {
      TrimEndDrops(s[..|s| - 1]);
    }
  }

  /** `strip` keeps one contiguous piece of its input and removes only whitespace around it. */
  lemma TrimInfix(s: string)
    ensures var r := Trim(s); var k := |s| - |TrimStart(s)|;
            k + |r| <= |s| && r == s[k..k + |r|]
            && (forall i :: 0 <= i < k ==> IsSpace(s[i]))
            && (forall i :: k + |r| <= i < |s| ==> IsSpace(s[i]))
  {
    var t := TrimStart(s);
    var r := Trim(s);
    var k := |s| - |t|;
    TrimStartDrops(s);
    TrimEndDrops(t);
    assert r == t[..|r|];
    assert t == s[k..];
    forall i | k + |r| <= i < |s|
      ensures IsSpace(s[i])
    {
      assert s[i] == t[i - k];
    }
  }

  /** A string that neither starts nor ends with whitespace is its own strip. */
  lemma TrimUnchanged(s: string)
    requires s == [] || (!IsSpace(s[0]) && !IsSpace(s[|s| - 1]))
    ensures Trim(s) == s
  {
    assert TrimStart(s) == s;
  }

  lemma {:induction false} TrimStartSpaces(pre: string, x: string)
    requires forall i :: 0 <= i < |pre| ==> IsSpace(pre[i])
    requires x == [] || !IsSpace(x[0])
    ensures TrimStart(pre + x) == x
  {
    if pre == [] {
      assert pre + x == x;
    } else {
      assert (pre + x)[1..] == pre[1..] + x;
      TrimStartSpaces(pre[1..], x);
    }
  }

  lemma {:induction false} TrimEndSpaces(x: string, post: string)
    requires forall i :: 0 <= i < |post| ==> IsSpace(post[i])
    requires x == [] || !IsSpace(x[|x| - 1])
    ensures TrimEnd(x + post) == x
  {
    if post == [] {
      assert x + post == x;
    } else {
      assert (x + post)[..|x + post| - 1] == x + post[..|post| - 1];
      TrimEndSpaces(x, post[..|post| - 1]);
    }
  }

  /** Surrounding whitespace around a core that starts and ends with non-whitespace strips to that core. */
  lemma TrimSurrounded(pre: string, core: string, post: string)
    requires forall i :: 0 <= i < |pre| ==> IsSpace(pre[i])
    requires forall i :: 0 <= i < |post| ==> IsSpace(post[i])
    requires core != [] && !IsSpace(core[0]) && !IsSpace(core[|core| - 1])
    ensures Trim(pre + core + post) == core
  {
    assert pre + core + post == pre + (core + post);
    TrimStartSpaces(pre, core + post);
    TrimEndSpaces(core, post);
  }

  // ---------------------------------------------------------------- case mapping

  /**
   * Python's full lower-case mapping of one character, for ASCII, Latin-1 and the
   * Turkish letters of Latin Extended-A (Ğ, Ş, İ); any other character maps to itself.
   * `İ` lower-cases to two characters, `i` followed by COMBINING DOT ABOVE.
   */
  function LowerChar(c: char): string {
    if 'A' <= c <= 'Z' || ('\U{C0}' <= c <= '\U{DE}' && c != '\U{D7}') then [(c as int + 32) as char]
    else if c == '\U{178}' then ['\U{FF}']
    else if c == '\U{11E}' then ['\U{11F}']
    else if c == '\U{15E}' then ['\U{15F}']
    else if c == '\U{130}' then ['i', '\U{307}']
    else [c]
  }

  /**
   * Python's full title-case mapping of one character, over the same letters as
   * LowerChar; `ß` title-cases to `Ss`, `ı` to `I`, `µ` to Greek capital mu.
   */
  function TitleChar(c: char): string {
    if 'a' <= c <= 'z' || ('\U{E0}' <= c <= '\U{FE}' && c != '\U{F7}') then [(c as int - 32) as char]
    else if c == '\U{DF}' then "Ss"
    else if c == '\U{FF}' then ['\U{178}']
    else if c == '\U{B5}' then ['\U{39C}']
    else if c == '\U{11F}' then ['\U{11E}']
    else if c == '\U{15F}' then ['\U{15E}']
    else if c == '\U{131}' then ['I']
    else [c]
  }

  /** `s.lower()`. */
  function Lower(s: string): string {
    if s == [] then [] else LowerChar(s[0]) + Lower(s[1..])
  }

  /** `s.capitalize()`: the first character title-cased, the rest lower-cased. */
  function Capitalize(s: string): string {
    if s == [] then [] else TitleChar(s[0]) + Lower(s[1..])
  }

  lemma {:induction false} LowerAppend(a: string, b: string)
    ensures Lower(a + b) == Lower(a) + Lower(b)
  {
    if a != [] {
      calc {
        Lower(a + b);
        LowerChar((a + b)[0]) + Lower((a + b)[1..]);
        { assert (a + b)[0] == a[0]; assert (a + b)[1..] == a[1..] + b; }
        LowerChar(a[0]) + Lower(a[1..] + b);
        { LowerAppend(a[1..], b); }
        LowerChar(a[0]) + (Lower(a[1..]) + Lower(b));
        Lower(a) + Lower(b);
      }
    } else {
      assert a + b == b;
    }
  }

  /** Every character LowerChar produces is its own lower case. */
  lemma LowerCharStable(c: char)
    ensures forall i :: 0 <= i < |LowerChar(c)| ==> LowerChar(LowerChar(c)[i]) == [LowerChar(c)[i]]
  {
  }

  lemma {:induction false} LowerOfStable(t: string)
    requires forall i :: 0 <= i < |t| ==> LowerChar(t[i]) == [t[i]]
    ensures Lower(t) == t
  {
    if t != [] {
      LowerOfStable(t[1..]);
    }
  }

  /** Lower-casing twice is lower-casing once. */
  lemma {:induction false} LowerIdempotent(s: string)
    ensures Lower(Lower(s)) == Lower(s)
  {
    if s != [] {
      LowerCharStable(s[0]);
      LowerOfStable(LowerChar(s[0]));
      LowerAppend(LowerChar(s[0]), Lower(s[1..]));
      LowerIdempotent(s[1..]);
    }
  }

  /** TitleChar yields a character that title-cases to itself, then characters that lower-case to themselves. */
  lemma TitleCharStable(c: char)
    ensures var t := TitleChar(c);
            t != [] && TitleChar(t[0]) == [t[0]]
            && forall i :: 1 <= i < |t| ==> LowerChar(t[i]) == [t[i]]
  {
  }

  /** Capitalizing twice is capitalizing once. */
  lemma CapitalizeIdempotent(s: string)
    ensures Capitalize(Capitalize(s)) == Capitalize(s)
  {
    if s != [] {
      var t := TitleChar(s[0]);
      var c := t + Lower(s[1..]);
      TitleCharStable(s[0]);
      assert c[0] == t[0];
      assert c[1..] == t[1..] + Lower(s[1..]);
      assert Lower(t[1..]) == t[1..] by {
        LowerOfStable(t[1..]);
      }
      LowerAppend(t[1..], Lower(s[1..]));
      LowerIdempotent(s[1..]);
      assert [t[0]] + t[1..] == t;
    }
  }

  // ---------------------------------------------------------------- split, replace

  /** `s.split(sep)[0]`: the part of `s` before the first `sep`, or all of `s` when there is none. */
  function UpToFirst(s: string, sep: char): (r: string)
    ensures |r| <= |s| && r == s[..|r|]
    ensures sep !in r
    ensures |r| == |s| || s[|r|] == sep
  {
    if s == [] || s[0] == sep then [] else [s[0]] + UpToFirst(s[1..], sep)
  }

  lemma {:induction false} UpToFirstAppend(a: string, b: string, sep: char)
    requires sep !in a
    ensures UpToFirst(a + b, sep) == a + UpToFirst(b, sep)
  {
    if a != [] {
      calc {
        UpToFirst(a + b, sep);
        { assert (a + b)[0] == a[0]; assert (a + b)[1..] == a[1..] + b; }
        [a[0]] + UpToFirst(a[1..] + b, sep);
        { UpToFirstAppend(a[1..], b, sep); }
        [a[0]] + (a[1..] + UpToFirst(b, sep));
        { assert a == [a[0]] + a[1..]; }
        a + UpToFirst(b, sep);
      }
    } else {
      assert a + b == b;
    }
  }

  /** Lower-casing and cutting at the first `-` commute: no character lower-cases to or from `-`. */
  lemma {:induction false} LowerUpToFirstDash(s: string)
    ensures UpToFirst(Lower(s), '-') == Lower(UpToFirst(s, '-'))
  {
    if s != [] && s[0] != '-' {
      assert '-' !in LowerChar(s[0]);
      UpToFirstAppend(LowerChar(s[0]), Lower(s[1..]), '-');
      LowerUpToFirstDash(s[1..]);
      LowerAppend([s[0]], UpToFirst(s[1..], '-'));
      assert Lower([s[0]]) == LowerChar(s[0]) + Lower([]);
    }
  }

  /** `s.replace(from, to)` for one-character strings. */
  function ReplaceChar(s: string, from: char, to: char): (r: string)
    ensures |r| == |s|
    ensures forall i :: 0 <= i < |s| ==> r[i] == (if s[i] == from then to else s[i])
  {
    if s == [] then [] else [if s[0] == from then to else s[0]] + ReplaceChar(s[1..], from, to)
  }

  // ---------------------------------------------------------------- int()

  predicate IsDigit(c: char) {
    '0' <= c <= '9'
  }

  /**
   * The digit part `int()` accepts: digits, each underscore standing between two
   * digits.
   */
  predicate IsDigitGroup(b: string) {
    |b| > 0 && IsDigit(b[0])
    && forall i {:trigger b[i]} :: 0 <= i < |b| ==> IsDigit(b[i]) || (b[i] == '_' && i + 1 < |b| && IsDigit(b[i + 1]))
  }

  /** The decimal value of the digits of `b`, underscores skipped. */
  function DigitsValue(b: string): nat {
    if b == [] then 0
    else if IsDigit(b[|b| - 1]) then DigitsValue(b[..|b| - 1]) * 10 + (b[|b| - 1] as int - '0' as int)
    else DigitsValue(b[..|b| - 1])
  }

  /** The unsigned part of `int(s)`: a digit group's value, or None. */
  function ParseUnsigned(b: string): Option<nat> {
    if IsDigitGroup(b) then Some(DigitsValue(b)) else None
  }

  /** `int(t)` for a string without surrounding whitespace: an optional sign, then a digit group. */
  function ParseSigned(t: string): Option<int> {
    if |t| > 0 && (t[0] == '-' || t[0] == '+') then
      match ParseUnsigned(t[1..])
      case Some(v) => var w: int := v; Some(if t[0] == '-' then -w else w)
      case None => None
    else
      match ParseUnsigned(t)
      case Some(v) => Some(v)
      case None => None
  }

  /**
   * The whitespace `int()` skips around the number: `str.isspace` without the
   * separators U+001C to U+001F. A non-ASCII whitespace character is first turned
   * into a space; an ASCII one is kept, and only the six ASCII whitespace
   * characters are skipped.
   */
  predicate IsIntSpace(c: char) {
    IsSpace(c) && !('\U{1C}' <= c <= '\U{1F}')
  }

  /** The leading `int()` whitespace skipped; when something was dropped, the last one dropped is whitespace. */
  function IntTrimStart(s: string): (r: string)
    ensures |r| <= |s| && r == s[|s| - |r|..]
    ensures r == [] || !IsIntSpace(r[0])
    ensures |r| < |s| ==> IsIntSpace(s[|s| - |r| - 1])
  {
    if s != [] && IsIntSpace(s[0]) then IntTrimStart(s[1..]) else s
  }

  /** The trailing `int()` whitespace skipped; when something was dropped, the first one dropped is whitespace. */
  function IntTrimEnd(s: string): (r: string)
    ensures |r| <= |s| && r == s[..|r|]
    ensures r == [] || !IsIntSpace(r[|r| - 1])
    ensures |r| < |s| ==> IsIntSpace(s[|r|])
  {
    if s != [] && IsIntSpace(s[|s| - 1]) then IntTrimEnd(s[..|s| - 1]) else s
  }

  /** The text `int()` reads the number from: neither end is `int()` whitespace. */
  function IntTrim(s: string): (r: string)
    ensures r == [] || (!IsIntSpace(r[0]) && !IsIntSpace(r[|r| - 1]))
  {
    var t := IntTrimStart(s);
    var r := IntTrimEnd(t);
    assert r != [] ==> r[0] == t[0];
    r
  }

  /**
   * `int(s)` for a `str` argument in base 10: surrounding whitespace allowed, an
   * optional sign, then a digit group; anything else raises ValueError (None here).
   */
  function ParseInt(s: string): Option<int> {
    ParseSigned(IntTrim(s))
  }

  function Digit(d: nat): (c: char)
    requires d < 10
  {
    ('0' as int + d) as char
  }

  /** `str(n)` for a non-negative integer. */
  function NatToString(n: nat): (s: string)
    ensures |s| > 0 && forall i :: 0 <= i < |s| ==> IsDigit(s[i])
  {
    if n < 10 then [Digit(n)] else NatToString(n / 10) + [Digit(n % 10)]
  }

  /** `str(n)`. */
  function IntToString(n: int): string {
    if n < 0 then "-" + NatToString(-n) else NatToString(n)
  }

  lemma {:induction false} DigitsValueOfNatToString(n: nat)
    ensures DigitsValue(NatToString(n)) == n
  {
    var s := NatToString(n);
    if n >= 10 {
      DigitsValueOfNatToString(n / 10);
      assert s[..|s| - 1] == NatToString(n / 10);
    }
  }

  /** `int(str(n)) == n` for non-negative `n`. */
  lemma ParseNatRoundTrip(n: nat)
    ensures ParseInt(NatToString(n)) == Some(n)
  {
    var d := NatToString(n);
    DigitsValueOfNatToString(n);
    ParseIntUntrimmed(d);
    assert !(d[0] == '-' || d[0] == '+');
    assert IsDigitGroup(d);
  }

  lemma ParseIntUntrimmed(s: string)
    requires s == [] || (!IsIntSpace(s[0]) && !IsIntSpace(s[|s| - 1]))
    ensures ParseInt(s) == ParseSigned(s)
  {
    assert IntTrimStart(s) == s;
  }

  lemma {:induction false} IntTrimStartSpaces(pre: string, x: string)
    requires forall i :: 0 <= i < |pre| ==> IsIntSpace(pre[i])
    requires x == [] || !IsIntSpace(x[0])
    ensures IntTrimStart(pre + x) == x
  {
    if pre == [] {
      assert pre + x == x;
    } else {
      assert (pre + x)[1..] == pre[1..] + x;
      IntTrimStartSpaces(pre[1..], x);
    }
  }

  lemma {:induction false} IntTrimEndSpaces(x: string, post: string)
    requires forall i :: 0 <= i < |post| ==> IsIntSpace(post[i])
    requires x == [] || !IsIntSpace(x[|x| - 1])
    ensures IntTrimEnd(x + post) == x
  {
    if post == [] {
      assert x + post == x;
    } else {
      assert (x + post)[..|x + post| - 1] == x + post[..|post| - 1];
      IntTrimEndSpaces(x, post[..|post| - 1]);
    }
  }

  /** `int()` skips exactly the `int()` whitespace around the number and reads what is between. */
  lemma ParseIntSkips(pre: string, core: string, post: string)
    requires forall i :: 0 <= i < |pre| ==> IsIntSpace(pre[i])
    requires forall i :: 0 <= i < |post| ==> IsIntSpace(post[i])
    requires core != [] && !IsIntSpace(core[0]) && !IsIntSpace(core[|core| - 1])
    ensures ParseInt(pre + core + post) == ParseSigned(core)
  {
    assert pre + core + post == pre + (core + post);
    IntTrimStartSpaces(pre, core + post);
    IntTrimEndSpaces(core, post);
  }

  lemma ParseSignedBadFirst(r: string)
    requires r != [] && !IsDigit(r[0]) && r[0] != '-' && r[0] != '+'
    ensures ParseSigned(r) == None
  {
  }

  lemma ParseSignedBadLast(r: string)
    requires r != [] && !IsDigit(r[|r| - 1]) && r[|r| - 1] != '_'
    ensures ParseSigned(r) == None
  {
    var b := if r[0] == '-' || r[0] == '+' then r[1..] else r;
    assert b == [] || b[|b| - 1] == r[|r| - 1];
    assert !IsDigitGroup(b);
    assert ParseUnsigned(b) == None;
  }

  /** A string whose first character is not `int()` whitespace keeps that character first. */
  lemma IntTrimKeepsFirst(s: string)
    requires s != [] && !IsIntSpace(s[0])
    ensures IntTrim(s) != [] && IntTrim(s)[0] == s[0]
  {
    assert IntTrimStart(s) == s;
  }

  /** A string whose last character is not `int()` whitespace keeps that character last. */
  lemma IntTrimKeepsLast(s: string)
    requires s != [] && !IsIntSpace(s[|s| - 1])
    ensures IntTrim(s) != [] && IntTrim(s)[|IntTrim(s)| - 1] == s[|s| - 1]
  {
    var u := IntTrimStart(s);
    assert u != [] && u[|u| - 1] == s[|s| - 1];
    assert IntTrimEnd(u) == u;
  }

  /** `int()` accepts no number that starts or ends with a separator U+001C to U+001F. */
  lemma SeparatorNotSkipped(c: char, t: string)
    requires '\U{1C}' <= c <= '\U{1F}'
    ensures ParseInt([c] + t) == None
    ensures ParseInt(t + [c]) == None
  {
    assert !IsIntSpace(c);
    IntTrimKeepsFirst([c] + t);
    ParseSignedBadFirst(IntTrim([c] + t));
    IntTrimKeepsLast(t + [c]);
    ParseSignedBadLast(IntTrim(t + [c]));
  }

  lemma ParseSignedNegative(t: string, v: nat)
    requires |t| > 0 && t[0] == '-' && ParseUnsigned(t[1..]) == Some(v)
    ensures ParseSigned(t) == Some(-(v as int))
  {
  }

  lemma ParseNegated(s: string)
    requires |s| > 1 && s[0] == '-' && forall i :: 1 <= i < |s| ==> IsDigit(s[i])
    ensures ParseInt(s) == Some(-(DigitsValue(s[1..]) as int))
  {
    ParseIntUntrimmed(s);
    assert IsDigitGroup(s[1..]);
    ParseSignedNegative(s, DigitsValue(s[1..]));
  }

  /** `int(str(n)) == n`: ParseInt reads back every integer IntToString writes. */
  lemma ParseIntRoundTrip(n: int)
    ensures ParseInt(IntToString(n)) == Some(n)
  {
    if n < 0 {
      var d := NatToString(-n);
      var s := "-" + d;
      assert IntToString(n) == s;
      assert DigitsValue(s[1..]) == -n by {
        DigitsValueOfNatToString(-n);
        assert s[1..] == d;
      }
      assert forall i :: 1 <= i < |s| ==> IsDigit(s[i]) by {
        assert forall i :: 1 <= i < |s| ==> s[i] == d[i - 1];
      }
      ParseNegated(s);
    } else {
      ParseNatRoundTrip(n);
    }
  }

  /** `int("")` and `int("   ")` raise. */
  lemma ParseIntBlank(s: string)
    requires forall i :: 0 <= i < |s| ==> IsSpace(s[i])
    ensures ParseInt(s) == None
  {
    var u := IntTrimStart(s);
    var r := IntTrim(s);
    assert r == IntTrimEnd(u);
    assert r != [] ==> r[0] == u[0] == s[|s| - |u|];
  }
}
