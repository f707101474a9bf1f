/** serializeNode: a live node becomes a plain record holding its id, type and size, every
    readable property its prototype declares (minus the exclusions), its component key, the
    fonts its text uses, and its children's records. */
module Serialize {
  import opened Host
  import opened Common

  // ---------------------------------------------------------------------------------------
  // First-seen de-duplication (the insertion order of a JavaScript Set)

  /** The elements of s in order of first occurrence, each once: what spreading a Set that
      was filled from s gives back. */
  function Dedup<T(==,!new)>(s: seq<T>): (r: seq<T>)
    ensures forall x :: x in r <==> x in s
    ensures forall i, j | 0 <= i < j < |r| :: r[i] != r[j]
  {
    if s == [] then []
    else
      var prefix := Dedup(s[..|s| - 1]);
      if s[|s| - 1] in prefix then prefix else prefix + [s[|s| - 1]]
  }

  /** Index of the first occurrence of x in s. */
  function FirstIndex<T(==,!new)>(s: seq<T>, x: T): (k: nat)
    requires x in s
    ensures k < |s| && s[k] == x && x !in s[..k]
  {
    if s[0] == x then 0 else 1 + FirstIndex(s[1..], x)
  }

  lemma {:induction false} FirstIndexOfExtension<T(!new)>(s: seq<T>, y: T, x: T)
    requires x in s
    ensures FirstIndex(s + [y], x) == FirstIndex(s, x)
  {
    if s[0] != x {
      assert (s + [y])[1..] == s[1..] + [y];
      FirstIndexOfExtension(s[1..], y, x);
    }
  }

  /** The first element of s comes out first. */
  lemma {:induction false} DedupKeepsFirst<T(!new)>(s: seq<T>)
    requires s != []
    ensures Dedup(s)[0] == s[0]
  {
    if |s| > 1 {
      var init := s[..|s| - 1];
      assert init[0] == s[0];
      DedupKeepsFirst(init);
    }
  }

  /** Elements come out in the order in which they are first seen. */
  lemma {:induction false} DedupFirstSeenOrder<T(!new)>(s: seq<T>)
    ensures forall i, j | 0 <= i < j < |Dedup(s)| ::
      FirstIndex(s, Dedup(s)[i]) < FirstIndex(s, Dedup(s)[j])
  {
    if s != [] {
      var init := s[..|s| - 1];
      var x := s[|s| - 1];
      assert s == init + [x];
      DedupFirstSeenOrder(init);
      var p := Dedup(init);
      forall y | y in p
        ensures FirstIndex(s, y) == FirstIndex(init, y)
      {
        FirstIndexOfExtension(init, x, y);
      }
      if x !in init {
        assert FirstIndex(s, x) == |init|;
      }
    }
  }

  // ---------------------------------------------------------------------------------------
  // The `_fonts` list

  /** The JSON texts the font loop adds to its Set: `fontName` first, then the font of each
      character in turn. */
  function FontTexts(t: TextInfo): (r: seq<JsonText>)
    ensures |r| == |t.charFonts| + 1 && r[0] == Encode(t.fontName)
    ensures forall i | 0 <= i < |t.charFonts| :: r[i + 1] == Encode(t.charFonts[i])
  {
    [Encode(t.fontName)] + seq(|t.charFonts|, i requires 0 <= i < |t.charFonts| => Encode(t.charFonts[i]))
  }

  /** `[...fonts].map(f => JSON.parse(f))` when every entry is a text. */
  function Parse(ts: seq<JsonText>): (r: seq<Value>)
    requires forall k | 0 <= k < |ts| :: ts[k].Text?
    ensures |r| == |ts| && forall k | 0 <= k < |ts| :: ts[k] == Text(r[k])
  {
    seq(|ts|, k requires 0 <= k < |ts| => ts[k].json)
  }

  /** The `_fonts` computation as written: when `fontName` is `figma.mixed` (a symbol, as on
      any text with more than one font), its JSON text is undefined and `JSON.parse` throws. */
  function FontsAsWritten(t: TextInfo): (r: Result<seq<Value>>)
    ensures r.Thrown? <==> NoText in FontTexts(t)
  {
    var ts := Dedup(FontTexts(t));
    if NoText in ts then Thrown(SyntaxError) else Ok(Parse(ts))
  }

  /** A text node with mixed fonts cannot be serialized as written. */
  lemma MixedFontsThrowAsWritten(fonts: seq<Value>)
    requires forall k | 0 <= k < |fonts| :: Encode(fonts[k]).Text?
    ensures FontsAsWritten(TextInfo(Symbol("figma.mixed"), fonts)) == Thrown(SyntaxError)
  {
    assert FontTexts(TextInfo(Symbol("figma.mixed"), fonts))[0] == NoText;
  }

  /** The JSON texts among ts, in order. */
  function Texts(ts: seq<JsonText>): (r: seq<JsonText>)
    ensures forall x :: x in r <==> x in ts && x.Text?
  {
    if ts == [] then []
    else Texts(ts[..|ts| - 1]) + (if ts[|ts| - 1].Text? then [ts[|ts| - 1]] else [])
  }

  /** The corrected `_fonts` list: the distinct fonts among `fontName` and the per-character
      fonts, first seen first, leaving out the non-serializable `figma.mixed`. */
  function Fonts(t: TextInfo): seq<Value>
  {
    Parse(Dedup(Texts(FontTexts(t))))
  }

  /** Each entry of `_fonts` is the parsed form of the matching entry of the de-duplicated
      texts. */
  lemma FontsAreParsedTexts(t: TextInfo)
    ensures |Fonts(t)| == |Dedup(Texts(FontTexts(t)))|
    ensures forall k | 0 <= k < |Fonts(t)| :: Dedup(Texts(FontTexts(t)))[k] == Encode(Fonts(t)[k])
    ensures forall k | 0 <= k < |Fonts(t)| :: Encode(Fonts(t)[k]) in FontTexts(t)
  {
    var d := Dedup(Texts(FontTexts(t)));
    assert forall k | 0 <= k < |d| :: d[k].Text?;
  }

  /** `_fonts` holds exactly the serializable fonts among `fontName` and the per-character
      fonts. */
  lemma FontsMembers(t: TextInfo)
    ensures forall v :: v in Fonts(t) <==> (v == t.fontName || v in t.charFonts) && Encode(v).Text?
  {
    forall v | v in Fonts(t)
      ensures (v == t.fontName || v in t.charFonts) && Encode(v).Text?
    {
      FontIsUsed(t, v);
    }
    forall v | (v == t.fontName || v in t.charFonts) && Encode(v).Text?
      ensures v in Fonts(t)
    {
      UsedFontIsListed(t, v);
    }
  }

  lemma FontIsUsed(t: TextInfo, v: Value)
    requires v in Fonts(t)
    ensures (v == t.fontName || v in t.charFonts) && Encode(v).Text?
  {
    var all := FontTexts(t);
    var r := Fonts(t);
    FontsAreParsedTexts(t);
    var k :| 0 <= k < |r| && r[k] == v;
    var i :| 0 <= i < |all| && all[i] == Encode(v);
    if i > 0 {
      assert all[i] == Encode(t.charFonts[i - 1]);
    }
  }

  lemma UsedFontIsListed(t: TextInfo, v: Value)
    requires (v == t.fontName || v in t.charFonts) && Encode(v).Text?
    ensures v in Fonts(t)
  {
    var all := FontTexts(t);
    var d := Dedup(Texts(all));
    var r := Fonts(t);
    FontsAreParsedTexts(t);
    if v == t.fontName {
      assert all[0] == Encode(v);
    } else {
      var i :| 0 <= i < |t.charFonts| && t.charFonts[i] == v;
      assert all[i + 1] == Encode(v);
    }
    assert Encode(v) in d;
    var k :| 0 <= k < |d| && d[k] == Encode(v);
    assert r[k] == v;
  }

  /** No font is listed twice. */
  lemma FontsDistinct(t: TextInfo)
    ensures forall i, j | 0 <= i < j < |Fonts(t)| :: Fonts(t)[i] != Fonts(t)[j]
  {
    FontsAreParsedTexts(t);
  }

  /** A single-font `fontName` comes first. */
  lemma FontsLeadWithFontName(t: TextInfo)
    requires Encode(t.fontName).Text?
    ensures Fonts(t) != [] && Fonts(t)[0] == t.fontName
  {
    var all := FontTexts(t);
    TextsKeepsLeadingText(all);
    DedupKeepsFirst(Texts(all));
    FontsAreParsedTexts(t);
  }

  /** Fonts are listed in the order in which `fontName` and then the characters first use
      them. */
  lemma FontsFirstSeenOrder(t: TextInfo)
    ensures forall k | 0 <= k < |Fonts(t)| :: Encode(Fonts(t)[k]) in FontTexts(t)
    ensures forall i, j | 0 <= i < j < |Fonts(t)| ::
      FirstIndex(FontTexts(t), Encode(Fonts(t)[i])) < FirstIndex(FontTexts(t), Encode(Fonts(t)[j]))
  {
    var all := FontTexts(t);
    var d := Dedup(Texts(all));
    var r := Fonts(t);
    FontsAreParsedTexts(t);
    DedupFirstSeenOrder(Texts(all));
    forall i, j | 0 <= i < j < |r|
      ensures FirstIndex(all, Encode(r[i])) < FirstIndex(all, Encode(r[j]))
    {
      TextsFirstIndex(all, d[i], d[j]);
    }
  }

  /** A leading text survives the filter in front. */
  lemma {:induction false} TextsKeepsLeadingText(ts: seq<JsonText>)
    requires ts != [] && ts[0].Text?
    ensures Texts(ts) != [] && Texts(ts)[0] == ts[0]
  {
    if |ts| > 1 {
      var init := ts[..|ts| - 1];
      assert init[0] == ts[0];
      TextsKeepsLeadingText(init);
    }
  }

  /** Filtering keeps the relative order of first occurrences. */
  lemma {:induction false} TextsFirstIndex(ts: seq<JsonText>, x: JsonText, y: JsonText)
    requires x in Texts(ts) && y in Texts(ts)
    requires FirstIndex(Texts(ts), x) < FirstIndex(Texts(ts), y)
    ensures FirstIndex(ts, x) < FirstIndex(ts, y)
  {
    var init := ts[..|ts| - 1];
    var last := ts[|ts| - 1];
    assert ts == init + [last];
    var f := Texts(init);
    var g := Texts(ts);
    assert g == f + (if last.Text? then [last] else []);
    if y in f {
      var kx := FirstIndex(g, x);
      if last.Text? {
        assert g == f + [last];
        FirstIndexOfExtension(f, last, y);
        assert kx < |f| && g[kx] == f[kx];
        FirstIndexOfExtension(f, last, x);
      } else {
        assert g == f;
      }
      assert FirstIndex(f, x) < FirstIndex(f, y);
      TextsFirstIndex(init, x, y);
      FirstIndexOfExtension(init, last, x);
      FirstIndexOfExtension(init, last, y);
    } else {
      assert y == last && y !in init;
      assert FirstIndex(ts, y) == |init|;
      assert x != y && x in f;
      FirstIndexOfExtension(init, last, x);
    }
  }

  /** Adding one more text to the Set: a new serializable text goes to the end. */
  lemma DedupTextsStep(s: seq<JsonText>, x: JsonText)
    ensures Dedup(Texts(s + [x])) ==
      if x.Text? && x !in Dedup(Texts(s)) then Dedup(Texts(s)) + [x] else Dedup(Texts(s))
  {
    var ts := Texts(s + [x]);
    assert (s + [x])[..|s + [x]| - 1] == s;
    if x.Text? {
      assert ts == Texts(s) + [x];
      assert ts[..|ts| - 1] == Texts(s);
    } else {
      assert ts == Texts(s);
    }
  }

  lemma DedupTextsOfOne(s: seq<JsonText>)
    requires |s| == 1
    ensures Dedup(Texts(s)) == if s[0].Text? then [s[0]] else []
  {
    assert s == [] + [s[0]];
    assert Dedup(Texts([])) == [];
    DedupTextsStep([], s[0]);
  }

  lemma PrefixStep<T>(s: seq<T>, n: nat)
    requires n < |s|
    ensures s[..n + 1] == s[..n] + [s[n]]
  {
  }

  /** The counting loop of serializeNode, corrected: collects the JSON texts of `fontName`
      and of every character's font into an insertion-ordered set, then parses them back. */
  method CollectFonts(t: TextInfo) returns (fonts: seq<Value>)
    ensures fonts == Fonts(t)
  {
    var first := Encode(t.fontName);
    var set_: seq<JsonText> := if first.Text? then [first] else [];
    CollectFontsStart(t);
    for i := 0 to |t.charFonts|
      invariant set_ == Dedup(Texts(FontTexts(t)[..i + 1]))
    {
      var f := Encode(t.charFonts[i]);
      CollectFontsStep(t, i);
      if f.Text? && f !in set_ {
        set_ := set_ + [f];
      }
    }
    CollectFontsEnd(t);
    fonts := Parse(set_);
  }

  lemma CollectFontsStart(t: TextInfo)
    ensures Dedup(Texts(FontTexts(t)[..1])) == if Encode(t.fontName).Text? then [Encode(t.fontName)] else []
  {
    DedupTextsOfOne(FontTexts(t)[..1]);
  }

  lemma CollectFontsStep(t: TextInfo, i: nat)
    requires i < |t.charFonts|
    ensures var f := Encode(t.charFonts[i]);
      var d := Dedup(Texts(FontTexts(t)[..i + 1]));
      Dedup(Texts(FontTexts(t)[..i + 2])) == if f.Text? && f !in d then d + [f] else d
  {
    var all := FontTexts(t);
    PrefixStep(all, i + 1);
    DedupTextsStep(all[..i + 1], all[i + 1]);
  }

  lemma CollectFontsEnd(t: TextInfo)
    ensures Dedup(Texts(FontTexts(t)[..|t.charFonts| + 1])) == Dedup(Texts(FontTexts(t)))
    ensures forall k | 0 <= k < |Dedup(Texts(FontTexts(t)))| :: Dedup(Texts(FontTexts(t)))[k].Text?
  {
    assert FontTexts(t)[..|t.charFonts| + 1] == FontTexts(t);
    DedupTextsAreTexts(FontTexts(t));
  }

  lemma DedupTextsAreTexts(s: seq<JsonText>)
    ensures forall k | 0 <= k < |Dedup(Texts(s))| :: Dedup(Texts(s))[k].Text?
  {
    var d := Dedup(Texts(s));
    forall k | 0 <= k < |d|
      ensures d[k].Text?
    {
      assert d[k] in Texts(s);
    }
  }

  // ---------------------------------------------------------------------------------------
  // The record

  /** The names the reflective loop reads among ds: those with a getter. */
  function ReadableNames(ds: seq<Desc>): set<string>
  {
    set d | d in ds && d.getter :: d.name
  }

  /** The descriptors the reflective loops iterate over. */
  function AutoProps(node: LiveNode): seq<Desc>
  {
    Without(node.proto.descs, SkipAutoProps)
  }

  /** The names of `node` whose values the reflective loop copies. */
  function Readable(node: LiveNode): set<string>
  {
    ReadableNames(AutoProps(node))
  }

  /** The record before reflection: `id` as a main node id, `type`, `width` and `height`. */
  function BaseFields(node: LiveNode): map<string, Value>
  {
    map["id" := Str(MainNodeId(node.id)), "type" := Str(node.nodeType),
        "width" := Get(node.values, "width"), "height" := Get(node.values, "height")]
  }

  /** One descriptor visited by the reflective loop: a name with a getter is set to the
      getter's value, and deleted again when that value is a symbol. */
  function Visit(obj: map<string, Value>, node: LiveNode, d: Desc): map<string, Value>
  {
    if !d.getter then obj
    else
      var set_ := obj[d.name := Get(node.values, d.name)];
      if set_[d.name].Symbol? then set_ - {d.name} else set_
  }

  /** The object after the reflective loop has visited ds, starting from the fixed fields. */
  function Reflect(node: LiveNode, ds: seq<Desc>): map<string, Value>
  {
    if ds == [] then BaseFields(node)
    else Visit(Reflect(node, ds[..|ds| - 1]), node, ds[|ds| - 1])
  }

  /** `node.mainComponent?.key`. */
  function ComponentKeyValue(main: Option<string>): Value
  {
    if main.Some? then Str(main.value) else Undefined
  }

  function WithComponentKey(fields: map<string, Value>, node: LiveNode): map<string, Value>
  {
    if node.mainComponent.Some? then fields["_componentKey" := ComponentKeyValue(node.mainComponent.value)]
    else fields
  }

  /** The names the concise pass deletes from `fields`: readable names among ds other than
      `id` and `type` whose JSON text equals that of the default node's getter. */
  function ConciseDrops(fields: map<string, Value>, ds: seq<Desc>, defaults: map<string, Value>): set<string>
  {
    set n | n in ReadableNames(ds) && n != "id" && n != "type"
      && Encode(Get(fields, n)) == Encode(Get(defaults, n))
  }

  /** The object before the concise pass. */
  function FullFields(node: LiveNode): map<string, Value>
  {
    WithComponentKey(Reflect(node, AutoProps(node)), node)
  }

  /** The record serializeNode returns for `node`.  `figma.created[t]` is the throwaway
      default node the concise pass compares with. */
  function Serialize(node: LiveNode, concise: bool, figma: Figma): Record
    requires FactoryTypes <= figma.created.Keys
    decreases node, 1
  {
    Record(RecordFields(node, concise, figma),
           if node.text.Some? then Some(Fonts(node.text.value)) else None,
           RecordChildren(node, concise, figma))
  }

  /** `children`: one record per child node, in order, when the node has children. */
  function RecordChildren(node: LiveNode, concise: bool, figma: Figma): ChildRecords
    requires FactoryTypes <= figma.created.Keys
    decreases node, 0
  {
    match node.children
    case ChildNodes(kids) => ChildRecords(seq(|kids|, i requires 0 <= i < |kids| => Serialize(kids[i], concise, figma)))
    case NoChildren => NoChildRecords
  }

  /** The keys of the record: the full object, less the defaults when the concise pass runs
      on a node type that has a factory. */
  function RecordFields(node: LiveNode, concise: bool, figma: Figma): map<string, Value>
    requires FactoryTypes <= figma.created.Keys
  {
    var full := FullFields(node);
    if concise && node.nodeType in FactoryTypes
    then full - ConciseDrops(full, AutoProps(node), figma.created[node.nodeType].values)
    else full
  }

  lemma ReadableNamesExtension(ds: seq<Desc>, d: Desc)
    ensures ReadableNames(ds + [d]) == ReadableNames(ds) + (if d.getter then {d.name} else {})
  {
    assert forall e :: e in ds + [d] <==> e in ds || e == d;
  }

  /** The reflective loop of serializeNode: copies every readable property of `props` onto
      `obj`, leaving out those whose value is a symbol. */
  method ReflectProps(node: LiveNode, props: seq<Desc>) returns (obj: map<string, Value>)
    ensures obj == Reflect(node, props)
  {
    obj := BaseFields(node);
    for i := 0 to |props|
      invariant obj == Reflect(node, props[..i])
    {
      var d := props[i];
      assert props[..i + 1][..i] == props[..i];
      if !d.getter {
        continue;
      }
      obj := obj[d.name := Get(node.values, d.name)];
      if obj[d.name].Symbol? {
        obj := obj - {d.name};
      }
    }
    assert props[..|props|] == props;
  }

  lemma ConciseDropsExtension(fields: map<string, Value>, ds: seq<Desc>, d: Desc, defaults: map<string, Value>)
    ensures ConciseDrops(fields, ds + [d], defaults) ==
      ConciseDrops(fields, ds, defaults) +
      (if d.getter && d.name != "id" && d.name != "type"
          && Encode(Get(fields, d.name)) == Encode(Get(defaults, d.name))
       then {d.name} else {})
  {
    ReadableNamesExtension(ds, d);
  }

  /** The concise pass of serializeNode: deletes from `full` every readable property of
      `props` (other than `id` and `type`) whose JSON text equals the default node's. */
  method DropDefaults(full: map<string, Value>, props: seq<Desc>, defaults: map<string, Value>)
    returns (obj: map<string, Value>)
    ensures obj == full - ConciseDrops(full, props, defaults)
  {
    obj := full;
    assert props[..0] == [];
    for i := 0 to |props|
      invariant obj == full - ConciseDrops(full, props[..i], defaults)
    {
      var d := props[i];
      assert props[..i + 1] == props[..i] + [d];
      ConciseDropsExtension(full, props[..i], d, defaults);
      if d.name == "id" || d.name == "type" {
        continue;
      }
      if d.getter && Encode(Get(obj, d.name)) == Encode(Get(defaults, d.name)) {
        obj := obj - {d.name};
      }
    }
    assert props[..|props|] == props;
  }

  /** serializeNode, step by step as the source builds its object. */
  method SerializeNode(node: LiveNode, concise: bool, figma: Figma) returns (r: Record)
    requires FactoryTypes <= figma.created.Keys
    ensures r == Serialize(node, concise, figma)
    decreases node, 1
  {
    var props := AutoProps(node);
    var obj := ReflectProps(node, props);

    if node.mainComponent.Some? {
      obj := obj["_componentKey" := ComponentKeyValue(node.mainComponent.value)];
    }

    var fonts: Option<seq<Value>> := None;
    if node.text.Some? {
      var f := CollectFonts(node.text.value);
      fonts := Some(f);
    }

    if concise && node.nodeType in FactoryTypes {
      var empty := figma.created[node.nodeType];
      obj := DropDefaults(obj, props, empty.values);
    }

    var children := SerializeChildList(node, concise, figma);
    r := Record(obj, fonts, children);
  }

  /** `node.children.map(n => serializeNode(n, tryConcise))`, when the node has children. */
  method SerializeChildList(node: LiveNode, concise: bool, figma: Figma) returns (children: ChildRecords)
    requires FactoryTypes <= figma.created.Keys
    ensures children == RecordChildren(node, concise, figma)
    decreases node, 0
  {
    children := NoChildRecords;
    match node.children {
      case ChildNodes(kids) =>
        var out: seq<Record> := [];
        for i := 0 to |kids|
          invariant |out| == i
          invariant forall j | 0 <= j < i :: out[j] == Serialize(kids[j], concise, figma)
        {
          var c := SerializeNode(kids[i], concise, figma);
          out := out + [c];
        }
        assert out == seq(|kids|, i requires 0 <= i < |kids| => Serialize(kids[i], concise, figma));
        children := ChildRecords(out);
      case NoChildren =>
    }
  }

  // ---------------------------------------------------------------------------------------
  // What the record holds

  /** The keys the reflective loop leaves on the object, and their values. */
  lemma {:induction false} ReflectContents(node: LiveNode, ds: seq<Desc>, n: string)
    ensures n in Reflect(node, ds) <==>
      if n in ReadableNames(ds) then !Get(node.values, n).Symbol?
      else n in {"id", "type", "width", "height"}
    ensures n in Reflect(node, ds) ==>
      Reflect(node, ds)[n] == if n in ReadableNames(ds) then Get(node.values, n) else BaseFields(node)[n]
  {
    if ds == [] {
      assert ReadableNames(ds) == {};
    } else {
      var init, d := ds[..|ds| - 1], ds[|ds| - 1];
      ReflectContents(node, init, n);
      assert ds == init + [d];
      ReadableNamesExtension(init, d);
      assert n in ReadableNames(ds) <==> n in ReadableNames(init) || (d.getter && n == d.name);
      VisitAt(Reflect(node, init), node, d, n);
    }
  }

  /** What one visited descriptor does to a single key. */
  lemma VisitAt(obj: map<string, Value>, node: LiveNode, d: Desc, n: string)
    ensures var after := Visit(obj, node, d);
      if d.getter && n == d.name then
        (n in after <==> !Get(node.values, n).Symbol?) && (n in after ==> after[n] == Get(node.values, n))
      else
        (n in after <==> n in obj) && (n in after ==> after[n] == obj[n])
  {
  }

  /** A name of the prototype that the reflective loop visits and can read. */
  lemma ReadableMeansVisited(node: LiveNode, n: string)
    ensures n in Readable(node) <==>
      exists d :: d in node.proto.descs && d.name == n && d.getter && n !in SkipAutoProps
  {
    if n in Readable(node) {
      var d :| d in AutoProps(node) && d.getter && d.name == n;
    }
  }

  /** `type`, `width` and `height` always hold the node's own values, and `id` holds the
      main-node id unless the prototype itself declares a readable `id`. */
  lemma SerializeFixedFields(node: LiveNode, concise: bool, figma: Figma)
    requires FactoryTypes <= figma.created.Keys
    ensures var f := Serialize(node, concise, figma).fields;
      && "type" in f && "width" in f && "height" in f
      && f["type"] == Str(node.nodeType)
      && f["width"] == Get(node.values, "width")
      && f["height"] == Get(node.values, "height")
      && ("id" !in Readable(node) ==> "id" in f && f["id"] == Str(MainNodeId(node.id)))
  {
    HandledFieldsAreSkipped();
    SkippedNotReadable(node, "type");
    SkippedNotReadable(node, "width");
    SkippedNotReadable(node, "height");
    FixedFieldKept(node, "type");
    FixedFieldKept(node, "width");
    FixedFieldKept(node, "height");
    if "id" !in Readable(node) {
      FixedFieldKept(node, "id");
    }
  }

  /** A fixed field that reflection does not overwrite keeps its initial value. */
  lemma FixedFieldKept(node: LiveNode, n: string)
    requires n in BaseFields(node) && n !in Readable(node)
    ensures n in FullFields(node) && FullFields(node)[n] == BaseFields(node)[n]
  {
    ReflectContents(node, AutoProps(node), n);
  }

  /** An excluded name is never read. */
  lemma SkippedNotReadable(node: LiveNode, n: string)
    requires n in SkipAutoProps
    ensures n !in Readable(node)
  {
    ReadableMeansVisited(node, n);
  }

  /** Without the concise pass, a key of the record is a fixed field, `_componentKey`, or a
      readable property whose value is not a symbol, which it then holds. */
  lemma SerializeReflectedFields(node: LiveNode, figma: Figma, n: string)
    requires FactoryTypes <= figma.created.Keys
    requires n != "_componentKey"
    ensures var f := Serialize(node, false, figma).fields;
      && (n in f <==>
            if n in Readable(node) then !Get(node.values, n).Symbol?
            else n in {"id", "type", "width", "height"})
      && (n in Readable(node) && n in f ==> f[n] == Get(node.values, n))
  {
    ReflectContents(node, AutoProps(node), n);
  }

  /** Excluded names other than the fixed `type`, `width` and `height` never appear. */
  lemma SerializeSkipsExcluded(node: LiveNode, concise: bool, figma: Figma, n: string)
    requires FactoryTypes <= figma.created.Keys
    requires n in SkipAutoProps && n !in {"type", "width", "height"}
    ensures n !in Serialize(node, concise, figma).fields
  {
    assert n != "_componentKey" && n != "id";
    assert n !in Readable(node) by {
      ReadableMeansVisited(node, n);
    }
    ReflectContents(node, AutoProps(node), n);
  }

  /** `_componentKey` is present exactly when the node has `mainComponent`, holding its key
      or `undefined`. */
  lemma SerializeComponentKey(node: LiveNode, concise: bool, figma: Figma)
    requires FactoryTypes <= figma.created.Keys
    requires "_componentKey" !in Readable(node)
    ensures var f := Serialize(node, concise, figma).fields;
      && ("_componentKey" in f <==> node.mainComponent.Some?)
      && (node.mainComponent.Some? ==>
            f["_componentKey"] == if node.mainComponent.value.Some?
              then Str(node.mainComponent.value.value) else Undefined)
  {
    ReflectContents(node, AutoProps(node), "_componentKey");
  }

  /** The concise pass deletes exactly the readable properties other than `id` and `type`
      whose JSON text equals the default node's, and changes nothing else; types without a
      factory are left as they are. */
  lemma SerializeConcise(node: LiveNode, figma: Figma, n: string)
    requires FactoryTypes <= figma.created.Keys
    ensures var plain := Serialize(node, false, figma).fields;
      var f := Serialize(node, true, figma).fields;
      && (node.nodeType !in FactoryTypes ==> f == plain)
      && (node.nodeType in FactoryTypes ==>
            (n in f <==>
               (n in plain &&
                !(n in Readable(node) && n != "id" && n != "type"
                  && Encode(plain[n]) == Encode(Get(figma.created[node.nodeType].values, n))))))
      && (n in f ==> f[n] == plain[n])
  {
  }

  /** `_fonts` is present exactly on text-capable nodes. */
  lemma SerializeFonts(node: LiveNode, concise: bool, figma: Figma)
    requires FactoryTypes <= figma.created.Keys
    ensures var r := Serialize(node, concise, figma);
      && (r.fonts.Some? <==> node.text.Some?)
      && (node.text.Some? ==> r.fonts.value == Fonts(node.text.value))
  {
  }

  /** `children` is present exactly when the node has children, one record per child in
      the same order, each serialized with the same concise flag. */
  lemma SerializeChildren(node: LiveNode, concise: bool, figma: Figma)
    requires FactoryTypes <= figma.created.Keys
    ensures var r := Serialize(node, concise, figma);
      && (r.children.ChildRecords? <==> node.children.ChildNodes?)
      && (node.children.ChildNodes? ==>
            |r.children.records| == |node.children.nodes|
            && forall i | 0 <= i < |node.children.nodes| ::
                 r.children.records[i] == Serialize(node.children.nodes[i], concise, figma))
  {
  }
}
