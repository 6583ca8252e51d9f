/**
 * The two regular expressions of `description_info`, written as scanners over
 * the suffix of the text still to be searched:
 *
 *   item pattern    `<li><strong>(.*?):\s*</strong>(.*?)(?:</li>|$)`
 *   strong pattern  `<strong>(.*?)</strong>`
 *
 * Both are searched with `re.findall` and no flags, so `.` is any character but a
 * newline, `\s` is Unicode whitespace, and `$` matches at the end of the text or
 * just before a newline that ends it. A lazy group `(.*?)` tries its lengths from
 * short to long, and the scanners do the same; after an attempt fails at one
 * position the search continues one character later, and after a match it
 * continues where the match ended.
 */
module Patterns {
  import opened Wrappers
  import opened Text

  const StrongOpen := "<strong>"
  const LiOpen := "<li>"
  const ItemOpen := LiOpen + StrongOpen
  const StrongClose := "</strong>"
  const ItemClose := "</li>"

  // ---------------------------------------------------------------- item pattern

  /** `x` has no newline: what `.` in a pattern matches. */
  predicate NoNewline(x: string) {
    forall i :: 0 <= i < |x| ==> x[i] != '\n'
  }

  /** `\s*</strong>` at the start of `t` (greedy spaces): the text after the closing tag. */
  function AfterColon(t: string): (r: Option<string>)
    ensures r.Some? ==> |r.value| + |StrongClose| <= |t|
    ensures r.Some? ==> var n := |t| - |r.value|;
              t[n - |StrongClose|..n] == StrongClose && t[n..] == r.value
              && forall i :: 0 <= i < n - |StrongClose| ==> IsSpace(t[i])
  {
    var u := TrimStart(t);
    TrimStartDrops(t);
    if StartsWith(u, StrongClose) then
      assert u[..|StrongClose|] == StrongClose;
      Some(u[|StrongClose|..])
    else None
  }

  /**
   * The value group `(.*?)` and `(?:</li>|$)` on `u`, value lengths from `m` up:
   * the value and the text after the match. The value is the shortest one that
   * has no newline and is followed by `</li>` or by the end of the text.
   */
  function ValueFrom(u: string, m: nat): (r: Option<(string, string)>)
    requires m <= |u|
    decreases |u| - m
    ensures r.Some? ==> var (v, rest) := r.value;
              m <= |v| <= |u| && v == u[..|v|] && |rest| <= |u| - |v|
              && (forall i :: m <= i < |v| ==> u[i] != '\n' && !StartsWith(u[i..], ItemClose))
              && (u[|v|..] == ItemClose + rest || (u[|v|..] == rest && (rest == [] || rest == "\n")))
  {
    if StartsWith(u[m..], ItemClose) then
      assert u[m..] == ItemClose + u[m + |ItemClose|..];
      Some((u[..m], u[m + |ItemClose|..]))
    else if m == |u| || (m == |u| - 1 && u[m] == '\n') then Some((u[..m], u[m..]))
    else if u[m] == '\n' then None
    else ValueFrom(u, m + 1)
  }

  /**
   * The label group `(.*?)` of the item pattern on `t` (the text after
   * `<li><strong>`), label lengths from `k` up: the first length at which the
   * label, a colon, `\s*</strong>` and the value group all match.
   */
  function LabelFrom(t: string, k: nat): (r: Option<((string, string), string)>)
    requires k <= |t|
    decreases |t| - k
    ensures r.Some? ==> |r.value.1| < |t| - k
  {
    if k == |t| || t[k] == '\n' then None
    else match AfterLabel(t, k)
      case Some((v, rest)) => Some(((t[..k], v), rest))
      case None => LabelFrom(t, k + 1)
  }

  /** With the label `t[..k]`: the colon at `t[k]`, `\s*</strong>`, then the value group. */
  function AfterLabel(t: string, k: nat): (r: Option<(string, string)>)
    requires k < |t|
    ensures r.Some? ==> |r.value.1| < |t| - k
  {
    if t[k] != ':' then None
    else match AfterColon(t[k + 1..])
      case Some(after) => ValueFrom(after, 0)
      case None => None
  }

  /** A match of the item pattern at the start of `s`: its two groups and the text after it. */
  function ItemAt(s: string): (r: Option<((string, string), string)>)
    ensures r.Some? ==> |r.value.1| < |s|
  {
    if StartsWith(s, ItemOpen) then LabelFrom(s[|ItemOpen|..], 0) else None
  }

  /** `re.findall(item pattern, s)`: the (label, value) groups of every match, left to right. */
  function ItemMatches(s: string): seq<(string, string)>
    decreases |s|
  {
    if s == [] then []
    else match ItemAt(s)
      case Some((pair, rest)) => [pair] + ItemMatches(rest)
      case None => ItemMatches(s[1..])
  }

  // ---------------------------------------------------------------- strong pattern

  /**
   * The group `(.*?)` of the strong pattern on `t` (the text after `<strong>`),
   * lengths from `k` up: the shortest content without a newline that is followed
   * by `</strong>`, and the text after the closing tag.
   */
  function StrongFrom(t: string, k: nat): (r: Option<(string, string)>)
    requires k <= |t|
    decreases |t| - k
    ensures r.Some? ==> var (c, rest) := r.value;
              k <= |c| && t == c + StrongClose + rest
              && forall i :: k <= i < |c| ==> t[i] != '\n' && !StartsWith(t[i..], StrongClose)
  {
    if StartsWith(t[k..], StrongClose) then
      assert t == t[..k] + StrongClose + t[k + |StrongClose|..] by {
        assert t[k..] == StrongClose + t[k + |StrongClose|..];
      }
      Some((t[..k], t[k + |StrongClose|..]))
    else if k == |t| || t[k] == '\n' then None
    else StrongFrom(t, k + 1)
  }

  /** A match of the strong pattern at the start of `s`: its group and the text after it. */
  function StrongAt(s: string): (r: Option<(string, string)>)
    ensures r.Some? ==> |r.value.1| < |s|
  {
    if StartsWith(s, StrongOpen) then StrongFrom(s[|StrongOpen|..], 0) else None
  }

  /** `re.findall(strong pattern, s)`: the content of every `<strong>…</strong>`, left to right. */
  function StrongContents(s: string): seq<string>
    decreases |s|
  {
    if s == [] then []
    else match StrongAt(s)
      case Some((content, rest)) => [content] + StrongContents(rest)
      case None => StrongContents(s[1..])
  }

  // ---------------------------------------------------------------- the scanners find every match

  /** A match of the rest of the item pattern after a label: a colon, then a value without a newline. */
  lemma AfterLabelFound(t: string, k: nat, v: string, rest: string)
    requires k < |t| && AfterLabel(t, k) == Some((v, rest))
    ensures t[k] == ':' && NoNewline(v)
  {
    var after := AfterColon(t[k + 1..]).value;
    assert ValueFrom(after, 0) == Some((v, rest));
    assert v == after[..|v|];
  }

  /**
   * A label the label group reports is the shortest: the label is `t[..j]` with no
   * newline, no shorter length from `k` up is followed by the rest of the item
   * pattern, and at `j` the colon, `\s*</strong>` and the value group match.
   */
  lemma {:induction false} LabelFromFound(t: string, k: nat, key: string, v: string, rest: string)
    requires k <= |t| && LabelFrom(t, k) == Some(((key, v), rest))
    decreases |t| - k
    ensures k <= |key| < |t| && key == t[..|key|] && AfterLabel(t, |key|) == Some((v, rest))
    ensures forall i :: k <= i <= |key| ==> t[i] != '\n'
    ensures forall i :: k <= i < |key| ==> AfterLabel(t, i).None?
  {
    assert k < |t| && t[k] != '\n';
    if AfterLabel(t, k).None? {
      var next := k + 1;
      assert LabelFrom(t, next) == Some(((key, v), rest));
      LabelFromFound(t, next, key, v, rest);
    }
  }

  lemma PrefixThenColon(s: string, p: string, key: string)
    requires StartsWith(s, p) && |p| + |key| < |s|
    requires s[|p|..][..|key|] == key && s[|p| + |key|] == ':'
    ensures StartsWith(s, p + key + ":")
  {
    assert s[..|p| + |key| + 1] == s[..|p|] + s[|p|..][..|key|] + [s[|p| + |key|]];
  }

  /** A match of the item pattern starts with `<li><strong>`, its label and the colon; neither group has a newline. */
  lemma ItemAtFound(s: string, key: string, value: string, rest: string)
    requires ItemAt(s) == Some(((key, value), rest))
    ensures StartsWith(s, ItemOpen + key + ":") && NoNewline(key) && NoNewline(value)
  {
    var t := s[|ItemOpen|..];
    assert StartsWith(s, ItemOpen) && LabelFrom(t, 0) == Some(((key, value), rest));
    LabelFromFound(t, 0, key, value, rest);
    AfterLabelFound(t, |key|, value, rest);
    PrefixThenColon(s, ItemOpen, key);
  }

  /** Neither group of any pair has a newline. */
  predicate GroupsNoNewline(ps: seq<(string, string)>) {
    forall n :: 0 <= n < |ps| ==> NoNewline(ps[n].0) && NoNewline(ps[n].1)
  }

  /** No group `re.findall` returns for the item pattern has a newline. */
  lemma {:induction false} ItemMatchesNoNewline(s: string)
    decreases |s|
    ensures GroupsNoNewline(ItemMatches(s))
  {
    if s != [] {
      var m := ItemAt(s);
      if m.Some? {
        var pair := m.value.0;
        var rest := m.value.1;
        ItemAtFound(s, pair.0, pair.1, rest);
        ItemMatchesNoNewline(rest);
        var r := ItemMatches(s);
        var q := ItemMatches(rest);
        assert r == [pair] + q;
        assert NoNewline(pair.0) && NoNewline(pair.1);
        forall n | 0 <= n < |r|
          ensures NoNewline(r[n].0) && NoNewline(r[n].1)
        {
          if n == 0 {
            assert r[n] == pair;
          } else {
            assert r[n] == q[n - 1];
          }
        }
      } else {
        ItemMatchesNoNewline(s[1..]);
        assert ItemMatches(s) == ItemMatches(s[1..]);
      }
    }
  }

  /** Label length `j`, from `k` up, is one the label group `(.*?)` can reach: no newline up to `t[j]`. */
  predicate LabelReach(t: string, k: nat, j: nat) {
    k <= j < |t| && forall i :: k <= i <= j ==> t[i] != '\n'
  }

  /** The label group fails exactly when no reachable label length is followed by the rest of the item pattern. */
  lemma {:induction false} LabelFromComplete(t: string, k: nat)
    requires k <= |t|
    decreases |t| - k
    ensures LabelFrom(t, k).None? <==> forall j :: LabelReach(t, k, j) ==> AfterLabel(t, j).None?
  {
    if k == |t| || t[k] == '\n' {
    } else if AfterLabel(t, k).None? {
      LabelFromComplete(t, k + 1);
      var next := k + 1;
      assert forall j :: LabelReach(t, k, j) && j != k ==> LabelReach(t, next, j);
      assert forall j :: LabelReach(t, next, j) ==> LabelReach(t, k, j);
    } else {
      assert LabelReach(t, k, k);
    }
  }

  /** `t` starts with whitespace up to `n` and then `</strong>`: the pattern `\s*</strong>` matches there. */
  predicate ColonCloseAt(t: string, n: nat) {
    n <= |t| && (forall i :: 0 <= i < n ==> IsSpace(t[i])) && StartsWith(t[n..], StrongClose)
  }

  /** Only one split of `t` into whitespace and `</strong>` exists: after all the leading whitespace. */
  lemma ColonCloseAtStrip(t: string, n: nat)
    requires ColonCloseAt(t, n)
    ensures n == |t| - |TrimStart(t)|
  {
    var k := |t| - |TrimStart(t)|;
    TrimStartDrops(t);
    assert t[n] == t[n..][..|StrongClose|][0] == '<';
    assert !IsSpace(t[n]);
    assert k < |t| ==> t[k] == TrimStart(t)[0];
  }

  /** `\s*</strong>` matches at the start of `t` exactly when AfterColon finds it. */
  lemma AfterColonComplete(t: string)
    ensures AfterColon(t).Some? <==> exists n :: ColonCloseAt(t, n)
  {
    var u := TrimStart(t);
    var k := |t| - |u|;
    TrimStartDrops(t);
    assert u == t[k..];
    if exists n :: ColonCloseAt(t, n) {
      var n :| ColonCloseAt(t, n);
      ColonCloseAtStrip(t, n);
    }
    if AfterColon(t).Some? {
      assert ColonCloseAt(t, k);
    }
  }

  /** Position `i` of `u` holds a newline that is not the final one, with no `</li>` from `m` through `i`. */
  predicate NewlineBeforeClose(u: string, m: nat, i: nat) {
    m <= i < |u| - 1 && u[i] == '\n' && forall j :: m <= j <= i ==> !StartsWith(u[j..], ItemClose)
  }

  /**
   * The value group fails exactly when a newline other than a final one comes before
   * any `</li>`: `.` cannot cross it, and `$` does not match there.
   */
  lemma {:induction false} ValueFromComplete(u: string, m: nat)
    requires m <= |u|
    decreases |u| - m
    ensures ValueFrom(u, m).None? <==> exists i :: NewlineBeforeClose(u, m, i)
  {
    if StartsWith(u[m..], ItemClose) {
      assert forall i :: !NewlineBeforeClose(u, m, i);
    } else if m == |u| || (m == |u| - 1 && u[m] == '\n') {
      assert forall i :: !NewlineBeforeClose(u, m, i);
    } else if u[m] == '\n' {
      assert NewlineBeforeClose(u, m, m);
    } else {
      var next := m + 1;
      ValueFromComplete(u, next);
      if exists i :: NewlineBeforeClose(u, m, i) {
        var i :| NewlineBeforeClose(u, m, i);
        assert NewlineBeforeClose(u, next, i);
      }
      if exists i :: NewlineBeforeClose(u, next, i) {
        var i :| NewlineBeforeClose(u, next, i);
        assert NewlineBeforeClose(u, m, i);
      }
    }
  }

  /** Some position from `k` up to but excluding `j` holds a newline. */
  predicate NewlineBetween(t: string, k: nat, j: nat) {
    exists i :: k <= i < j && i < |t| && t[i] == '\n'
  }

  /** The strong group fails exactly when a newline comes before every `</strong>` from `k` on. */
  lemma {:induction false} StrongFromComplete(t: string, k: nat)
    requires k <= |t|
    decreases |t| - k
    ensures StrongFrom(t, k).None?
            <==> forall j :: k <= j <= |t| && StartsWith(t[j..], StrongClose) ==> NewlineBetween(t, k, j)
  {
    if StartsWith(t[k..], StrongClose) {
      assert !NewlineBetween(t, k, k);
    } else if k == |t| {
    } else if t[k] == '\n' {
      forall j | k < j <= |t|
        ensures NewlineBetween(t, k, j)
      {
        assert k < j && t[k] == '\n';
      }
    } else {
      StrongFromComplete(t, k + 1);
      forall j | k < j <= |t|
        ensures NewlineBetween(t, k, j) == NewlineBetween(t, k + 1, j)
      {
        if NewlineBetween(t, k, j) {
          var i :| k <= i < j && i < |t| && t[i] == '\n';
          assert k + 1 <= i;
        }
      }
    }
  }

  // ---------------------------------------------------------------- well-formed fragments

  /** One `<li><strong>label:</strong>value[</li>]` entry of a description fragment. */
  datatype Entry = Entry(key: string, value: string)

  /** A label the item pattern reads back whole: no colon, no tag, no newline. */
  predicate PlainLabel(l: string) {
    forall i :: 0 <= i < |l| ==> l[i] != ':' && l[i] != '<' && l[i] != '\n'
  }

  /** A value the item pattern reads back whole: no tag, no newline. */
  predicate PlainValue(v: string) {
    forall i :: 0 <= i < |v| ==> v[i] != '<' && v[i] != '\n'
  }

  predicate Plain(e: Entry) {
    PlainLabel(e.key) && PlainValue(e.value)
  }

  /** The markup of one entry, with or without its closing `</li>`. */
  function EntryText(e: Entry, closed: bool): string {
    ItemOpen + e.key + ":" + StrongClose + e.value + (if closed then ItemClose else "")
  }

  /** A fragment made of entries; only the last may lack its closing tag. */
  function Render(es: seq<Entry>, closeLast: bool): string {
    if es == [] then "" else EntryText(es[0], |es| > 1 || closeLast) + Render(es[1..], closeLast)
  }

  /** The (label, value) pairs of a sequence of entries. */
  function Pairs(es: seq<Entry>): seq<(string, string)> {
    seq(|es|, i requires 0 <= i < |es| => (es[i].key, es[i].value))
  }

  /** The strong contents of a sequence of entries: each key with its colon. */
  function Labels(es: seq<Entry>): seq<string> {
    seq(|es|, i requires 0 <= i < |es| => es[i].key + ":")
  }

  lemma {:induction false} LabelSkip(t: string, k: nat, j: nat)
    requires k <= j <= |t|
    requires forall i :: k <= i < j ==> t[i] != ':' && t[i] != '\n'
    decreases j - k
    ensures LabelFrom(t, k) == LabelFrom(t, j)
  {
    if k < j {
      assert t[k] != ':' && t[k] != '\n';
      assert AfterLabel(t, k) == None;
      assert LabelFrom(t, k) == LabelFrom(t, k + 1);
      LabelSkip(t, k + 1, j);
    }
  }

  lemma {:induction false} ValueSkip(u: string, m: nat, j: nat)
    requires m <= j <= |u|
    requires forall i :: m <= i < j ==> u[i] != '<' && u[i] != '\n'
    decreases j - m
    ensures ValueFrom(u, m) == ValueFrom(u, j)
  {
    if m < j {
      assert u[m..][0] == u[m];
      ValueSkip(u, m + 1, j);
    }
  }

  lemma {:induction false} StrongSkip(t: string, k: nat, j: nat)
    requires k <= j <= |t|
    requires forall i :: k <= i < j ==> t[i] != '<' && t[i] != '\n'
    decreases j - k
    ensures StrongFrom(t, k) == StrongFrom(t, j)
  {
    if k < j {
      assert t[k..][0] == t[k];
      StrongSkip(t, k + 1, j);
    }
  }

  lemma AfterColonClose(u: string)
    ensures AfterColon(StrongClose + u) == Some(u)
  {
    var x := StrongClose + u;
    assert TrimStart(x) == x by {
      assert x[0] == '<';
    }
    assert x[..|StrongClose|] == StrongClose;
    assert x[|StrongClose|..] == u;
  }

  /** The value group reads back a plain value, up to its closing tag or the end of the text. */
  lemma ValueOfPlain(v: string, closed: bool, rest: string)
    requires PlainValue(v)
    requires closed || rest == []
    ensures ValueFrom(v + (if closed then ItemClose else "") + rest, 0) == Some((v, rest))
  {
    var u := v + (if closed then ItemClose else "") + rest;
    assert forall i :: 0 <= i < |v| ==> u[i] == v[i];
    ValueSkip(u, 0, |v|);
    assert u[..|v|] == v;
    if closed {
      assert u[|v|..] == ItemClose + rest;
      assert u[|v|..][..|ItemClose|] == ItemClose;
      assert u[|v| + |ItemClose|..] == rest;
    } else {
      assert u == v;
    }
  }

  /** A colon at `k` followed by `</strong>` hands the rest to the value group. */
  lemma AfterLabelColon(t: string, k: nat, u: string)
    requires k < |t| && t[k] == ':' && t[k + 1..] == StrongClose + u
    ensures AfterLabel(t, k) == ValueFrom(u, 0)
  {
    AfterColonClose(u);
  }

  /** Splitting a concatenation at the end of its first part. */
  lemma SplitAt(a: string, x: string)
    ensures (a + x)[..|a|] == a && (a + x)[|a|..] == x
  {
  }

  /** The colon after a label, and what follows it. */
  lemma ColonAt(L: string, y: string)
    ensures (L + (":" + y))[|L|] == ':' && (L + (":" + y))[|L| + 1..] == y && (L + (":" + y))[..|L|] == L
  {
    var t := L + (":" + y);
    assert t[|L|..] == ":" + y;
    assert t[|L| + 1..] == (":" + y)[1..];
  }

  /** The label group skips a plain prefix: no shorter label can be followed by its colon. */
  lemma LabelSkipPlain(L: string, x: string)
    requires PlainLabel(L)
    ensures LabelFrom(L + x, 0) == LabelFrom(L + x, |L|)
  {
    assert forall i :: 0 <= i < |L| ==> (L + x)[i] == L[i];
    LabelSkip(L + x, 0, |L|);
  }

  /** The label group stops at the first length at which the rest of the item matches. */
  lemma LabelFromMatch(t: string, k: nat, v: string, rest: string)
    requires k < |t| && t[k] != '\n' && AfterLabel(t, k) == Some((v, rest))
    ensures LabelFrom(t, k) == Some(((t[..k], v), rest))
  {
  }

  /** The label group reads back a plain label followed by a colon and `</strong>`. */
  lemma LabelOfPlain(L: string, u: string, v: string, rest: string)
    requires PlainLabel(L)
    requires ValueFrom(u, 0) == Some((v, rest))
    ensures LabelFrom(L + (":" + (StrongClose + u)), 0) == Some(((L, v), rest))
  {
    var y := StrongClose + u;
    var t := L + (":" + y);
    LabelSkipPlain(L, ":" + y);
    ColonAt(L, y);
    AfterLabelColon(t, |L|, u);
    LabelFromMatch(t, |L|, v, rest);
  }

  /** The item pattern matches a plain entry at its start and reads back its key and value. */
  lemma ItemAtEntry(e: Entry, closed: bool, rest: string)
    requires Plain(e)
    requires closed || rest == []
    ensures ItemAt(EntryText(e, closed) + rest) == Some(((e.key, e.value), rest))
  {
    var close := if closed then ItemClose else "";
    var u := e.value + close + rest;
    var t := e.key + (":" + (StrongClose + u));
    var s := EntryText(e, closed) + rest;
    assert s == ItemOpen + t;
    assert s[..|ItemOpen|] == ItemOpen && s[|ItemOpen|..] == t;
    ValueOfPlain(e.value, closed, rest);
    LabelOfPlain(e.key, u, e.value, rest);
  }

  /** Round trip: the item matches of a rendered fragment are exactly its entries, in order. */
  lemma {:induction false} ItemMatchesRender(es: seq<Entry>, closeLast: bool)
    requires forall i :: 0 <= i < |es| ==> Plain(es[i])
    ensures ItemMatches(Render(es, closeLast)) == Pairs(es)
  {
    if es != [] {
      var closed := |es| > 1 || closeLast;
      var rest := Render(es[1..], closeLast);
      assert !closed ==> es[1..] == [];
      ItemAtEntry(es[0], closed, rest);
      ItemMatchesRender(es[1..], closeLast);
      assert Pairs(es) == [(es[0].key, es[0].value)] + Pairs(es[1..]);
    }
  }

  /** No `<strong>` can start inside `x`: every `<` in it is followed by something other than `s`. */
  predicate NoStrongOpen(x: string) {
    forall i {:trigger x[i]} :: 0 <= i < |x| ==> x[i] != '<' || (i + 1 < |x| && x[i + 1] != 's')
  }

  lemma {:induction false} StrongContentsSkip(x: string, y: string)
    requires NoStrongOpen(x)
    ensures StrongContents(x + y) == StrongContents(y)
  {
    if x == [] {
      assert x + y == y;
    } else {
      var s := x + y;
      assert !StartsWith(s, StrongOpen) by {
        if |s| >= |StrongOpen| {
          assert s[..|StrongOpen|][0] == s[0] == x[0];
          if x[0] == '<' {
            assert x[0] != '<' || (0 + 1 < |x| && x[0 + 1] != 's');
            assert s[..|StrongOpen|][1] == s[1] == x[1];
          }
        }
      }
      assert s[1..] == x[1..] + y;
      assert NoStrongOpen(x[1..]) by {
        forall i | 0 <= i < |x[1..]|
          ensures x[1..][i] != '<' || (i + 1 < |x[1..]| && x[1..][i + 1] != 's')
        {
          assert x[1..][i] == x[i + 1];
          assert x[i + 1] != '<' || (i + 2 < |x| && x[i + 2] != 's');
        }
      }
      StrongContentsSkip(x[1..], y);
    }
  }

  lemma StrongContentsAfterLi(w: string)
    ensures StrongContents(LiOpen + w) == StrongContents(w)
  {
    assert NoStrongOpen(LiOpen);
    StrongContentsSkip(LiOpen, w);
  }

  /** The strong group ends at the first `</strong>`. */
  lemma StrongFromClose(t: string, k: nat, tail: string)
    requires k <= |t| && t[k..] == StrongClose + tail
    ensures StrongFrom(t, k) == Some((t[..k], tail))
  {
    assert t[k..][..|StrongClose|] == StrongClose;
    assert t[k + |StrongClose|..] == tail;
  }

  /** The strong group skips a prefix with no tag and no newline. */
  lemma StrongSkipPlain(a: string, x: string)
    requires forall i :: 0 <= i < |a| ==> a[i] != '<' && a[i] != '\n'
    ensures StrongFrom(a + x, 0) == StrongFrom(a + x, |a|)
  {
    assert forall i :: 0 <= i < |a| ==> (a + x)[i] == a[i];
    StrongSkip(a + x, 0, |a|);
  }

  /** The strong group reads back a plain key with its colon. */
  lemma StrongOfPlain(L: string, tail: string)
    requires PlainLabel(L)
    ensures StrongAt(StrongOpen + ((L + ":") + (StrongClose + tail))) == Some((L + ":", tail))
  {
    var a := L + ":";
    var x := StrongClose + tail;
    assert forall i :: 0 <= i < |a| ==> a[i] != '<' && a[i] != '\n' by {
      assert forall i :: 0 <= i < |L| ==> a[i] == L[i];
    }
    StrongSkipPlain(a, x);
    SplitAt(a, x);
    StrongFromClose(a + x, |a|, tail);
    SplitAt(StrongOpen, a + x);
  }

  /** An entry's markup, regrouped around its strong element. */
  lemma EntryTextShape(e: Entry, closed: bool, rest: string)
    ensures var close := if closed then ItemClose else "";
            EntryText(e, closed) + rest
            == LiOpen + (StrongOpen + ((e.key + ":") + (StrongClose + ((e.value + close) + rest))))
  {
  }

  /** A strong match at the start of the text contributes its content first. */
  lemma StrongContentsAt(w: string, c: string, tail: string)
    requires StrongAt(w) == Some((c, tail))
    ensures StrongContents(w) == [c] + StrongContents(tail)
  {
  }

  /** A plain value, with or without `</li>`, holds no `<strong>`. */
  lemma PlainValueNoStrong(v: string, closed: bool)
    requires PlainValue(v)
    ensures NoStrongOpen(v + (if closed then ItemClose else ""))
  {
    var x := v + (if closed then ItemClose else "");
    assert forall i :: 0 <= i < |v| ==> x[i] == v[i];
  }

  /** The strong pattern finds exactly one content, the key with its colon, in a plain entry. */
  lemma StrongContentsEntry(e: Entry, closed: bool, rest: string)
    requires Plain(e)
    ensures StrongContents(EntryText(e, closed) + rest) == [e.key + ":"] + StrongContents(rest)
  {
    var close := if closed then ItemClose else "";
    var tail := (e.value + close) + rest;
    var w := StrongOpen + ((e.key + ":") + (StrongClose + tail));
    EntryTextShape(e, closed, rest);
    StrongContentsAfterLi(w);
    StrongOfPlain(e.key, tail);
    StrongContentsAt(w, e.key + ":", tail);
    PlainValueNoStrong(e.value, closed);
    StrongContentsSkip(e.value + close, rest);
  }

  /** The strong contents of a rendered fragment are its keys, each with its colon, in order. */
  lemma {:induction false} StrongContentsRender(es: seq<Entry>, closeLast: bool)
    requires forall i :: 0 <= i < |es| ==> Plain(es[i])
    ensures StrongContents(Render(es, closeLast)) == Labels(es)
  {
    if es != [] {
      var closed := |es| > 1 || closeLast;
      var rest := Render(es[1..], closeLast);
      assert Render(es, closeLast) == EntryText(es[0], closed) + rest;
      StrongContentsEntry(es[0], closed, rest);
      StrongContentsRender(es[1..], closeLast);
      assert Labels(es) == [es[0].key + ":"] + Labels(es[1..]);
    }
  }
}
