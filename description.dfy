/**
 * `ProductParser.description_info`: the fields read from a product's HTML
 * description. Each `<li><strong>Label:</strong> value` entry is stripped, its
 * label translated through the four-entry Turkish label table by first prefix
 * match, and written into a dictionary in order (later entries win); then the
 * content of the last `<strong>…</strong>`, when it is not the table's last
 * label, is written under `sample_size`. `html.unescape` is the parameter
 * `unescape`, applied after the emptiness test as in the source.
 */
module Description {
  import opened Wrappers
  import opened Text
  import opened Dicts
  import opened Patterns

  /** `key_map`, in its insertion order: label prefix, field name. */
  const KeyMap: seq<(string, string)> := [
    ("Ürün Bilgisi", "product_info"),
    ("Kumaş Bilgisi", "fabric"),
    ("Ürün Ölçüleri", "product_measurements"),
    ("Model Ölçüleri", "model_measurements")
  ]

  /** `list(key_map.keys())[-1]`, the label the sample-size rule compares against. */
  const SizeMarker := KeyMap[|KeyMap| - 1].0

  const SampleSize := "sample_size"

  /** A description dictionary: field name to string, or to None for a `sample_size` with no `<strong>`. */
  type Fields = map<string, Option<string>>

  // ---------------------------------------------------------------- label translation

  /** The `next(...)` over `key_map.items()` from entry `i` on. */
  function TranslateFrom(key: string, i: nat): string
    requires i <= |KeyMap|
    decreases |KeyMap| - i
  {
    if i == |KeyMap| then key
    else if StartsWith(key, KeyMap[i].0) then KeyMap[i].1
    else TranslateFrom(key, i + 1)
  }

  /** The field name a (stripped) label is stored under. */
  function Translate(key: string): string {
    TranslateFrom(key, 0)
  }

  lemma {:induction false} TranslateFromFirst(key: string, i: nat, j: nat)
    requires i <= j < |KeyMap|
    requires StartsWith(key, KeyMap[j].0)
    requires forall m :: i <= m < j ==> !StartsWith(key, KeyMap[m].0)
    decreases j - i
    ensures TranslateFrom(key, i) == KeyMap[j].1
  {
    if i < j {
      TranslateFromFirst(key, i + 1, j);
    }
  }

  lemma {:induction false} TranslateFromNone(key: string, i: nat)
    requires i <= |KeyMap|
    requires forall m :: i <= m < |KeyMap| ==> !StartsWith(key, KeyMap[m].0)
    decreases |KeyMap| - i
    ensures TranslateFrom(key, i) == key
  {
    if i < |KeyMap| {
      TranslateFromNone(key, i + 1);
    }
  }

  /** A label goes to the field of the first table entry that prefixes it. */
  lemma TranslateFirstMatch(key: string, j: nat)
    requires j < |KeyMap| && StartsWith(key, KeyMap[j].0)
    requires forall m :: 0 <= m < j ==> !StartsWith(key, KeyMap[m].0)
    ensures Translate(key) == KeyMap[j].1
  {
    TranslateFromFirst(key, 0, j);
  }

  /** A label prefixed by no table entry is kept as its own key. */
  lemma TranslatePassThrough(key: string)
    requires forall m :: 0 <= m < |KeyMap| ==> !StartsWith(key, KeyMap[m].0)
    ensures Translate(key) == key
  {
    TranslateFromNone(key, 0);
  }

  lemma NotBothPrefixes(key: string, a: string, b: string, d: nat)
    requires d < |a| && d < |b| && a[d] != b[d]
    ensures !(StartsWith(key, a) && StartsWith(key, b))
  {
    if StartsWith(key, a) {
      assert key[d] == key[..|a|][d];
    }
    if StartsWith(key, b) {
      assert key[d] == key[..|b|][d];
    }
  }

  /** No label starts with two table entries, so the table order never decides a translation. */
  lemma KeyMapPrefixFree(key: string, i: nat, j: nat)
    requires i < j < |KeyMap|
    ensures !(StartsWith(key, KeyMap[i].0) && StartsWith(key, KeyMap[j].0))
  {
    if i == 0 && j == 2 {
      NotBothPrefixes(key, KeyMap[0].0, KeyMap[2].0, 5);
    } else {
      NotBothPrefixes(key, KeyMap[i].0, KeyMap[j].0, 0);
    }
  }

  /** A label prefixed by a table entry goes to that entry's field. */
  lemma TranslateMatch(key: string, j: nat)
    requires j < |KeyMap| && StartsWith(key, KeyMap[j].0)
    ensures Translate(key) == KeyMap[j].1
  {
    forall m | 0 <= m < j ensures !StartsWith(key, KeyMap[m].0) {
      KeyMapPrefixFree(key, m, j);
    }
    TranslateFirstMatch(key, j);
  }

  // ---------------------------------------------------------------- the dictionary

  /** What the loop writes for the item matches `ms`: translated stripped label, stripped value. */
  function FieldPairs(ms: seq<(string, string)>): seq<(string, Option<string>)> {
    seq(|ms|, i requires 0 <= i < |ms| => (Translate(Trim(ms[i].0)), Some(Trim(ms[i].1))))
  }

  /** `get_strong[-1] if get_strong else None`. */
  function LastStrong(text: string): Option<string> {
    var ss := StrongContents(text);
    if ss == [] then None else Some(ss[|ss| - 1])
  }

  /** The sample-size rule: write `size` under `sample_size` unless it is the size marker. */
  function WithSampleSize(fields: Fields, size: Option<string>): Fields {
    if size != Some(SizeMarker) then fields[SampleSize := size] else fields
  }

  /** The dictionary the match loop and the sample-size rule build from an unescaped text. */
  function FieldsOf(text: string): Fields {
    WithSampleSize(LastWrite(FieldPairs(ItemMatches(text))), LastStrong(text))
  }

  /**
   * The dictionary `description_info` returns, or None for an empty or absent
   * description. The emptiness test comes before unescaping, as in the source.
   */
  function DescriptionFields(description: Option<string>, unescape: string -> string): Option<Fields> {
    if description.None? || description.value == [] then None
    else Some(FieldsOf(unescape(description.value)))
  }

  /** `description_info`, with its loop over the item matches and the sample-size write. */
  method DescriptionInfo(description: Option<string>, unescape: string -> string) returns (r: Option<Fields>)
    ensures r == DescriptionFields(description, unescape)
  {
    if description.None? || description.value == [] {
      return None;
    }
    var text := unescape(description.value);
    var matches := ItemMatches(text);
    ghost var pairs := FieldPairs(matches);
    var dict: Fields := map[];
    for i := 0 to |matches|
      invariant dict == LastWrite(pairs[..i])
    {
      var key := Trim(matches[i].0);
      var value := Trim(matches[i].1);
      var newKey := Translate(key);
      assert pairs[i] == (newKey, Some(value));
      LastWritePrefix(pairs, i);
      dict := dict[newKey := Some(value)];
    }
    assert dict == LastWrite(pairs) by {
      assert pairs[..|matches|] == pairs;
    }
    var strongs := StrongContents(text);
    var size := if strongs == [] then None else Some(strongs[|strongs| - 1]);
    assert size == LastStrong(text);
    if size != Some(SizeMarker) {
      dict := dict[SampleSize := size];
    }
    assert dict == WithSampleSize(LastWrite(pairs), size);
    return Some(dict);
  }

  // ---------------------------------------------------------------- properties

  /** An empty or absent description gives None; any other gives a dictionary. */
  lemma DescriptionNone(description: Option<string>, unescape: string -> string)
    ensures DescriptionFields(description, unescape).None? <==> (description.None? || description == Some(""))
  {
  }

  /**
   * A description that is not empty but unescapes to nothing (such as `&#1;`) still gives a
   * dictionary: no matches, and `sample_size` None.
   */
  lemma UnescapedEmpty(description: string, unescape: string -> string)
    requires description != [] && unescape(description) == []
    ensures DescriptionFields(Some(description), unescape) == Some(map[SampleSize := None])
  {
    assert ItemMatches([]) == [] && StrongContents([]) == [];
    assert FieldPairs([]) == [];
  }

  /** `sample_size` is written exactly when the last strong content is not the size marker, and then holds it. */
  lemma SampleSizeRule(text: string)
    ensures var d := FieldsOf(text);
            var ms := FieldPairs(ItemMatches(text));
            if LastStrong(text) != Some(SizeMarker) then SampleSize in d && d[SampleSize] == LastStrong(text)
            else d == LastWrite(ms)
  {
  }

  lemma SampleSizeKeys(fields: Fields, size: Option<string>)
    ensures WithSampleSize(fields, size).Keys
            == fields.Keys + (if size != Some(SizeMarker) then {SampleSize} else {})
  {
  }

  lemma SampleSizeKeeps(fields: Fields, size: Option<string>, k: string)
    requires k in fields && (k != SampleSize || size == Some(SizeMarker))
    ensures k in WithSampleSize(fields, size) && WithSampleSize(fields, size)[k] == fields[k]
  {
  }

  lemma FieldKeys(ms: seq<(string, string)>)
    ensures LastWrite(FieldPairs(ms)).Keys == set i | 0 <= i < |ms| :: Translate(Trim(ms[i].0))
  {
    var ps := FieldPairs(ms);
    assert forall i :: 0 <= i < |ms| ==> ps[i].0 == Translate(Trim(ms[i].0));
  }

  /**
   * The keys are exactly the translated labels of the matches, plus `sample_size`
   * when the sample-size rule writes it.
   */
  lemma DescriptionKeys(text: string)
    ensures var ms := ItemMatches(text);
            FieldsOf(text).Keys
            == (set i | 0 <= i < |ms| :: Translate(Trim(ms[i].0)))
               + (if LastStrong(text) != Some(SizeMarker) then {SampleSize} else {})
  {
    var ms := ItemMatches(text);
    SampleSizeKeys(LastWrite(FieldPairs(ms)), LastStrong(text));
    FieldKeys(ms);
  }

  lemma FieldLastWins(ms: seq<(string, string)>, i: nat)
    requires i < |ms|
    requires forall j :: i < j < |ms| ==> Translate(Trim(ms[j].0)) != Translate(Trim(ms[i].0))
    ensures var d := LastWrite(FieldPairs(ms));
            Translate(Trim(ms[i].0)) in d && d[Translate(Trim(ms[i].0))] == Some(Trim(ms[i].1))
  {
    LastWriteValue(FieldPairs(ms), i);
  }

  /**
   * Last write wins: a key other than a rewritten `sample_size` holds the stripped
   * value of the last match whose label translates to it.
   */
  lemma DescriptionLastWins(text: string, i: nat)
    requires i < |ItemMatches(text)|
    requires var ms := ItemMatches(text);
             forall j :: i < j < |ms| ==> Translate(Trim(ms[j].0)) != Translate(Trim(ms[i].0))
    requires Translate(Trim(ItemMatches(text)[i].0)) != SampleSize || LastStrong(text) == Some(SizeMarker)
    ensures var d := FieldsOf(text);
            var ms := ItemMatches(text);
            Translate(Trim(ms[i].0)) in d && d[Translate(Trim(ms[i].0))] == Some(Trim(ms[i].1))
  {
    var ms := ItemMatches(text);
    FieldLastWins(ms, i);
    SampleSizeKeeps(LastWrite(FieldPairs(ms)), LastStrong(text), Translate(Trim(ms[i].0)));
  }

  /** `<strong>Model Ölçüleri:</strong>` still sets `sample_size`: the captured content keeps its colon. */
  lemma ColonDefeatsSizeMarker(key: string)
    ensures key + ":" != SizeMarker
  {
    var s := key + ":";
    if |s| == |SizeMarker| {
      assert s[|s| - 1] == ':';
      assert SizeMarker[|SizeMarker| - 1] == 'i';
    }
  }

  /** The last strong content of a rendered fragment is the last key with its colon. */
  lemma LastStrongRender(es: seq<Entry>, closeLast: bool)
    requires |es| > 0
    requires forall i :: 0 <= i < |es| ==> Plain(es[i])
    ensures LastStrong(Render(es, closeLast)) == Some(es[|es| - 1].key + ":")
  {
    StrongContentsRender(es, closeLast);
  }

  /** A description whose matches and last strong content are known. */
  lemma DescriptionOfParts(text: string, ms: seq<(string, string)>, size: string)
    requires ItemMatches(text) == ms && LastStrong(text) == Some(size)
    requires size != SizeMarker
    ensures FieldsOf(text) == LastWrite(FieldPairs(ms))[SampleSize := Some(size)]
  {
  }

  /**
   * A fragment of plain entries (the last one possibly without `</li>`) yields its
   * translated stripped entries, last write winning, and `sample_size` set to the
   * last label with its colon.
   */
  lemma DescriptionOfRender(es: seq<Entry>, closeLast: bool)
    requires |es| > 0
    requires forall i :: 0 <= i < |es| ==> Plain(es[i])
    ensures FieldsOf(Render(es, closeLast))
            == LastWrite(FieldPairs(Pairs(es)))[SampleSize := Some(es[|es| - 1].key + ":")]
  {
    ItemMatchesRender(es, closeLast);
    LastStrongRender(es, closeLast);
    ColonDefeatsSizeMarker(es[|es| - 1].key);
    DescriptionOfParts(Render(es, closeLast), Pairs(es), es[|es| - 1].key + ":");
  }

  // ---------------------------------------------------------------- worked examples

  /** A label with an extra suffix still goes to `model_measurements` by prefix match. */
  lemma SuffixedLabel()
    ensures Translate("Model Ölçüleri - Beden S") == "model_measurements"
  {
    var key := "Model Ölçüleri - Beden S";
    assert key == KeyMap[3].0 + " - Beden S";
    assert StartsWith(key, KeyMap[3].0);
    TranslateMatch(key, 3);
  }

  /** A single entry, closed or not: its field, and its label with the colon as `sample_size`. */
  lemma OneEntry(k: string, v: string, closed: bool, text: string)
    requires Plain(Entry(k, v))
    requires text == ItemOpen + k + ":" + StrongClose + v + (if closed then ItemClose else "")
    ensures FieldsOf(text)
            == map[Translate(Trim(k)) := Some(Trim(v)), SampleSize := Some(k + ":")]
  {
    var es := [Entry(k, v)];
    assert es[1..] == [];
    assert Render(es, closed) == text;
    DescriptionOfRender(es, closed);
    var p := (Translate(Trim(k)), Some(Trim(v)));
    assert FieldPairs(Pairs(es)) == [p];
    assert [p][..0] == [];
  }

  /** Label `j` of the table is kept by the strip and goes to field `j`. */
  lemma TableLabel(j: nat, k: string)
    requires j < |KeyMap| && k == KeyMap[j].0
    ensures Translate(Trim(k)) == KeyMap[j].1
  {
    TrimUnchanged(k);
    TranslateMatch(k, j);
  }

  lemma RenderTwo(e0: Entry, e1: Entry)
    ensures Render([e0, e1], true) == EntryText(e0, true) + EntryText(e1, true)
  {
    var es := [e0, e1];
    assert es[1..] == [e1];
    assert es[1..][1..] == [];
    assert Render([e1], true) == EntryText(e1, true) + Render([], true);
  }

  lemma FieldPairsTwo(a: (string, string), b: (string, string))
    ensures FieldPairs([a, b])
            == [(Translate(Trim(a.0)), Some(Trim(a.1))), (Translate(Trim(b.0)), Some(Trim(b.1)))]
  {
  }

  lemma RenderedTwo(e0: Entry, e1: Entry, text: string)
    requires Plain(e0) && Plain(e1)
    requires text == Render([e0, e1], true)
    ensures FieldsOf(text)
            == map[Translate(Trim(e0.key)) := Some(Trim(e0.value)),
                        Translate(Trim(e1.key)) := Some(Trim(e1.value)),
                        SampleSize := Some(e1.key + ":")]
  {
    var es := [e0, e1];
    DescriptionOfRender(es, true);
    assert Pairs(es) == [(e0.key, e0.value), (e1.key, e1.value)];
    FieldPairsTwo((e0.key, e0.value), (e1.key, e1.value));
    LastWriteTwo((Translate(Trim(e0.key)), Some(Trim(e0.value))),
                 (Translate(Trim(e1.key)), Some(Trim(e1.value))));
  }

  /** Two closed entries: both fields (the second winning on a shared field), and the second label as `sample_size`. */
  lemma TwoEntries(k0: string, v0: string, k1: string, v1: string, text: string)
    requires Plain(Entry(k0, v0)) && Plain(Entry(k1, v1))
    requires text == ItemOpen + k0 + ":" + StrongClose + v0 + ItemClose
                     + ItemOpen + k1 + ":" + StrongClose + v1 + ItemClose
    ensures FieldsOf(text)
            == map[Translate(Trim(k0)) := Some(Trim(v0)), Translate(Trim(k1)) := Some(Trim(v1)),
                        SampleSize := Some(k1 + ":")]
  {
    var e0, e1 := Entry(k0, v0), Entry(k1, v1);
    assert text == EntryText(e0, true) + EntryText(e1, true);
    RenderTwo(e0, e1);
    RenderedTwo(e0, e1, text);
  }

  /**
   * The product-information and fabric entries in that order, as in
   * `<li><strong>Ürün Bilgisi:</strong> Cotton blend</li><li><strong>Kumaş Bilgisi:</strong> Viscose</li>`:
   * both fields, and the fabric label, colon included, as `sample_size`.
   */
  lemma InfoAndFabric(v0: string, v1: string, text: string)
    requires PlainValue(v0) && PlainValue(v1)
    requires text == ItemOpen + KeyMap[0].0 + ":" + StrongClose + v0 + ItemClose
                     + ItemOpen + KeyMap[1].0 + ":" + StrongClose + v1 + ItemClose
    ensures FieldsOf(text)
            == map["product_info" := Some(Trim(v0)), "fabric" := Some(Trim(v1)),
                        SampleSize := Some(KeyMap[1].0 + ":")]
  {
    var k0, k1 := KeyMap[0].0, KeyMap[1].0;
    assert PlainLabel(k0) && PlainLabel(k1);
    TwoEntries(k0, v0, k1, v1, text);
    TableLabel(0, k0);
    TableLabel(1, k1);
  }

  /**
   * A single model-measurements entry without its closing tag, as in
   * `<li><strong>Model Ölçüleri:</strong> S`: its field, and its label with the colon
   * as `sample_size`.
   */
  lemma UnclosedModelMeasurements(v: string, text: string)
    requires PlainValue(v)
    requires text == ItemOpen + SizeMarker + ":" + StrongClose + v
    ensures FieldsOf(text)
            == map["model_measurements" := Some(Trim(v)), SampleSize := Some(SizeMarker + ":")]
  {
    var k := SizeMarker;
    assert PlainLabel(k);
    OneEntry(k, v, false, text);
    TableLabel(3, k);
  }
}
