/** deserializeNode: the fonts and components a record tree refers to are requested first;
    then a node is rebuilt per record, by a factory, as a group or boolean operation, or as an
    instance of an imported component whose nodes receive the record's values as overrides.
    Nodes are values here: what the deserializer does to a node is the log of calls it makes
    on it. */
module Deserialize {
  import opened Host
  import opened Common
  import Serialize

  // ---------------------------------------------------------------------------------------
  // The order in which properties are set

  /** Properties set before every other one. */
  const PrioritizeProperties: set<string> := {"fontName"}

  /** `a.localeCompare(b)`, with code-point order standing in for the locale's collation. */
  function LocaleCompare(a: string, b: string): (c: int)
    ensures -1 <= c <= 1
    ensures c == 0 <==> a == b
  {
    if a == [] && b == [] then 0
    else if a == [] then -1
    else if b == [] then 1
    else if a[0] < b[0] then -1
    else if a[0] > b[0] then 1
    else
      assert a == [a[0]] + a[1..] && b == [b[0]] + b[1..];
      LocaleCompare(a[1..], b[1..])
  }

  lemma {:induction false} LocaleCompareAntisymmetric(a: string, b: string)
    ensures LocaleCompare(a, b) == -LocaleCompare(b, a)
  {
    if a != [] && b != [] && a[0] == b[0] {
      LocaleCompareAntisymmetric(a[1..], b[1..]);
    }
  }

  lemma {:induction false} LocaleCompareTransitive(a: string, b: string, c: string)
    requires LocaleCompare(a, b) <= 0 && LocaleCompare(b, c) <= 0
    ensures LocaleCompare(a, c) <= 0
  {
    if a != [] && b != [] && c != [] && a[0] == b[0] && b[0] == c[0] {
      LocaleCompareTransitive(a[1..], b[1..], c[1..]);
    }
  }

  /** sortPropsForSet: a prioritized property sorts first, otherwise names compare. */
  function SortPropsForSet(a: Desc, b: Desc): int
  {
    if a.name in PrioritizeProperties then -1
    else if b.name in PrioritizeProperties then 1
    else LocaleCompare(a.name, b.name)
  }

  /** a may stay in front of b. */
  predicate SetsBefore(a: Desc, b: Desc)
  {
    SortPropsForSet(a, b) <= 0
  }

  /** The order SetsBefore induces on property names. */
  predicate NameBefore(a: string, b: string)
  {
    a in PrioritizeProperties || (b !in PrioritizeProperties && LocaleCompare(a, b) <= 0)
  }

  lemma SetsBeforeTotal(a: Desc, b: Desc)
    ensures SetsBefore(a, b) || SetsBefore(b, a)
  {
    LocaleCompareAntisymmetric(a.name, b.name);
  }

  lemma SetsBeforeTransitive(a: Desc, b: Desc, c: Desc)
    requires SetsBefore(a, b) && SetsBefore(b, c)
    ensures SetsBefore(a, c)
  {
    if a.name !in PrioritizeProperties {
      LocaleCompareTransitive(a.name, b.name, c.name);
    }
  }

  predicate Sorted(ps: seq<Desc>)
  {
    forall i, j | 0 <= i < j < |ps| :: SetsBefore(ps[i], ps[j])
  }

  /** Inserting d in front of the first element it may precede. */
  function Insert(d: Desc, ps: seq<Desc>): (r: seq<Desc>)
    ensures multiset(r) == multiset(ps) + multiset{d}
  {
    if ps == [] then [d]
    else if SetsBefore(d, ps[0]) then [d] + ps
    else
      assert ps == [ps[0]] + ps[1..];
      [ps[0]] + Insert(d, ps[1..])
  }

  lemma {:induction false} InsertSorted(d: Desc, ps: seq<Desc>)
    requires Sorted(ps)
    ensures Sorted(Insert(d, ps))
  {
    if ps != [] && SetsBefore(d, ps[0]) {
      var r := Insert(d, ps);
      forall i, j | 0 <= i < j < |r|
        ensures SetsBefore(r[i], r[j])
      {
        if i == 0 && j > 1 {
          SetsBeforeTransitive(d, ps[0], ps[j - 1]);
        }
      }
    } else if ps != [] {
      InsertSorted(d, ps[1..]);
      SetsBeforeTotal(d, ps[0]);
      var r := Insert(d, ps);
      var tail := Insert(d, ps[1..]);
      forall i, j | 0 <= i < j < |r|
        ensures SetsBefore(r[i], r[j])
      {
        if i == 0 {
          assert r[j] in multiset(tail);
          assert r[j] == d || r[j] in ps[1..];
        }
      }
    }
  }

  /** `props.sort(sortPropsForSet)`: a stable sort by the comparator. */
  function SortForSet(ps: seq<Desc>): (r: seq<Desc>)
    ensures multiset(r) == multiset(ps)
  {
    if ps == [] then []
    else
      assert ps == [ps[0]] + ps[1..];
      Insert(ps[0], SortForSet(ps[1..]))
  }

  lemma {:induction false} SortForSetSorted(ps: seq<Desc>)
    ensures Sorted(SortForSet(ps))
  {
    if ps != [] {
      SortForSetSorted(ps[1..]);
      InsertSorted(ps[0], SortForSet(ps[1..]));
    }
  }

  /** Filtering keeps the sorted order. */
  lemma {:induction false} WithoutSorted(ps: seq<Desc>, names: set<string>)
    requires Sorted(ps)
    ensures Sorted(Without(ps, names))
  {
    if ps != [] {
      WithoutSorted(ps[1..], names);
    }
  }

  // ---------------------------------------------------------------------------------------
  // setProperties

  /** `obj.type` is a group or a boolean operation. */
  predicate IsGroupRecord(rec: Record)
  {
    Field(rec, "type") == Str("GROUP") || Field(rec, "type") == Str("BOOLEAN_OPERATION")
  }

  /** The descriptors setProperties walks over, in order. */
  function PropsForSet(proto: Proto, rec: Record, inInstance: bool): seq<Desc>
  {
    var sorted := SortForSet(Without(proto.descs, SkipAutoProps));
    var inInst := if inInstance then Without(sorted, SkipInInstanceProps) else sorted;
    if IsGroupRecord(rec) then Without(inInst, SkipGroupProps) else inInst
  }

  /** The loop body sets d exactly when the record holds its name, d has a setter, and it is
      not the deprecated `layoutAlign: 'CENTER'`. */
  predicate Writes(d: Desc, rec: Record)
  {
    d.name in rec.fields && d.setter
    && !(d.name == "layoutAlign" && rec.fields[d.name] == Str("CENTER"))
  }

  /** The setter calls of the loop over ps, in order. */
  function WritesOf(ps: seq<Desc>, rec: Record): (r: seq<Event>)
    ensures forall k | 0 <= k < |r| :: r[k].Write?
  {
    if ps == [] then []
    else
      var d := ps[|ps| - 1];
      WritesOf(ps[..|ps| - 1], rec) + (if Writes(d, rec) then [Write(d.name, rec.fields[d.name])] else [])
  }

  /** `resizeWithoutConstraints(obj.width, obj.height)` is called. */
  predicate Resizes(proto: Proto, rec: Record)
  {
    proto.resizable && Truthy(Field(rec, "width")) && Truthy(Field(rec, "height"))
  }

  /** The calls setProperties makes on a node whose prototype is `proto`. */
  function Plan(proto: Proto, rec: Record, inInstance: bool): seq<Event>
  {
    WritesOf(PropsForSet(proto, rec, inInstance), rec)
      + (if Resizes(proto, rec) then [Resize(Field(rec, "width"), Field(rec, "height"))] else [])
  }

  /** setProperties, loop by loop. */
  method SetProperties(proto: Proto, rec: Record, inInstance: bool) returns (log: seq<Event>)
    ensures log == Plan(proto, rec, inInstance)
  {
    var props := SortForSet(Without(proto.descs, SkipAutoProps));
    if inInstance {
      props := Without(props, SkipInInstanceProps);
    }
    if IsGroupRecord(rec) {
      props := Without(props, SkipGroupProps);
    }
    log := [];
    assert props[..0] == [];
    for i := 0 to |props|
      invariant log == WritesOf(props[..i], rec)
    {
      var d := props[i];
      assert props[..i + 1][..i] == props[..i];
      if d.name in rec.fields && d.setter {
        if d.name == "layoutAlign" && rec.fields[d.name] == Str("CENTER") {
          continue;
        }
        log := log + [Write(d.name, rec.fields[d.name])];
      }
    }
    assert props[..|props|] == props;
    if proto.resizable && Truthy(Field(rec, "width")) && Truthy(Field(rec, "height")) {
      log := log + [Resize(Field(rec, "width"), Field(rec, "height"))];
    }
  }

  lemma {:induction false} WritesOfMembers(ps: seq<Desc>, rec: Record, n: string, v: Value)
    ensures Write(n, v) in WritesOf(ps, rec) <==>
      exists d :: d in ps && d.name == n && Writes(d, rec) && v == rec.fields[n]
  {
    if ps != [] {
      var init := ps[..|ps| - 1];
      var d := ps[|ps| - 1];
      assert ps == init + [d];
      WritesOfMembers(init, rec, n, v);
    }
  }

  /** A property is set only when every condition of setProperties holds, and then it is
      set to the record's value; every such property is set. */
  lemma PlanWrites(proto: Proto, rec: Record, inInstance: bool, n: string, v: Value)
    ensures Write(n, v) in Plan(proto, rec, inInstance) <==>
      && n in rec.fields && v == rec.fields[n]
      && (exists d :: d in proto.descs && d.name == n && d.setter)
      && n !in SkipAutoProps
      && (inInstance ==> n !in SkipInInstanceProps)
      && (IsGroupRecord(rec) ==> n !in SkipGroupProps)
      && !(n == "layoutAlign" && v == Str("CENTER"))
  {
    var ps := PropsForSet(proto, rec, inInstance);
    var sorted := SortForSet(Without(proto.descs, SkipAutoProps));
    WritesOfMembers(ps, rec, n, v);
    forall d
      ensures d in ps <==>
        d in proto.descs && d.name !in SkipAutoProps
        && (inInstance ==> d.name !in SkipInInstanceProps)
        && (IsGroupRecord(rec) ==> d.name !in SkipGroupProps)
    {
      assert d in sorted <==> d in multiset(sorted);
      assert d in Without(proto.descs, SkipAutoProps) <==> d in multiset(Without(proto.descs, SkipAutoProps));
    }
    var plan := Plan(proto, rec, inInstance);
    assert Write(n, v) in plan <==> Write(n, v) in WritesOf(ps, rec);
  }

  lemma {:induction false} WritesOfOrdered(ps: seq<Desc>, rec: Record)
    requires Sorted(ps)
    ensures forall i, j | 0 <= i < j < |WritesOf(ps, rec)| ::
      NameBefore(WritesOf(ps, rec)[i].name, WritesOf(ps, rec)[j].name)
  {
    if ps != [] {
      var init := ps[..|ps| - 1];
      var d := ps[|ps| - 1];
      WritesOfOrdered(init, rec);
      var w := WritesOf(ps, rec);
      var w0 := WritesOf(init, rec);
      forall i, j | 0 <= i < j < |w|
        ensures NameBefore(w[i].name, w[j].name)
      {
        if j < |w0| {
          assert w[i] == w0[i] && w[j] == w0[j];
        } else {
          assert j == |w0| && w[j] == Write(d.name, rec.fields[d.name]);
          assert w[i] == w0[i] && w[i] in w0;
          WritesOfMembers(init, rec, w[i].name, w[i].value);
          var e :| e in init && e.name == w[i].name && Writes(e, rec) && w[i].value == rec.fields[e.name];
          var k :| 0 <= k < |init| && init[k] == e;
          assert SetsBefore(ps[k], ps[|ps| - 1]) && ps[k] == e;
        }
      }
    }
  }

  lemma PropsForSetSorted(proto: Proto, rec: Record, inInstance: bool)
    ensures Sorted(PropsForSet(proto, rec, inInstance))
  {
    var sorted := SortForSet(Without(proto.descs, SkipAutoProps));
    SortForSetSorted(Without(proto.descs, SkipAutoProps));
    var inInst := if inInstance then Without(sorted, SkipInInstanceProps) else sorted;
    if inInstance {
      WithoutSorted(sorted, SkipInInstanceProps);
    }
    if IsGroupRecord(rec) {
      WithoutSorted(inInst, SkipGroupProps);
    }
  }

  /** The setter calls come in the order of sortPropsForSet: `fontName` before every other
      property, and the rest in ascending name order; `resizeWithoutConstraints`, when it is
      called, comes last. */
  lemma PlanOrder(proto: Proto, rec: Record, inInstance: bool)
    ensures var p := Plan(proto, rec, inInstance);
      && (forall i, j | 0 <= i < j < |p| && p[i].Write? && p[j].Write? ::
            && (p[j].name in PrioritizeProperties ==> p[i].name in PrioritizeProperties)
            && (p[i].name !in PrioritizeProperties && p[j].name !in PrioritizeProperties ==>
                  LocaleCompare(p[i].name, p[j].name) <= 0))
      && (forall k | 0 <= k < |p| :: p[k].Resize? <==> k == |p| - 1 && Resizes(proto, rec))
      && (Resizes(proto, rec) ==> p[|p| - 1] == Resize(Field(rec, "width"), Field(rec, "height")))
  {
    PropsForSetSorted(proto, rec, inInstance);
    var w := WritesOf(PropsForSet(proto, rec, inInstance), rec);
    WritesOfOrdered(PropsForSet(proto, rec, inInstance), rec);
    var p := Plan(proto, rec, inInstance);
    assert p[..|w|] == w;
    forall i, j | 0 <= i < j < |p| && p[i].Write? && p[j].Write?
      ensures p[j].name in PrioritizeProperties ==> p[i].name in PrioritizeProperties
      ensures p[i].name !in PrioritizeProperties && p[j].name !in PrioritizeProperties ==>
        LocaleCompare(p[i].name, p[j].name) <= 0
    {
      assert j < |w| && p[i] == w[i] && p[j] == w[j];
      assert NameBefore(w[i].name, w[j].name);
    }
  }

  // ---------------------------------------------------------------------------------------
  // gatherFonts and gatherComponentKeys

  /** The records of the tree, in pre-order. */
  function Nodes(rec: Record): (r: seq<Record>)
    ensures r != [] && r[0] == rec
    decreases rec, 1
  {
    [rec] + match rec.children
      case ChildRecords(kids) => NodesFrom(rec, kids, 0)
      case NoChildRecords => []
  }

  /** The records below kids[i..], in pre-order. */
  function NodesFrom(rec: Record, kids: seq<Record>, i: nat): seq<Record>
    requires rec.children == ChildRecords(kids) && i <= |kids|
    decreases rec, 0, |kids| - i
  {
    if i == |kids| then [] else Nodes(kids[i]) + NodesFrom(rec, kids, i + 1)
  }

  /** The children of a record, `obj.children || []`. */
  function Kids(rec: Record): seq<Record>
  {
    match rec.children
    case ChildRecords(kids) => kids
    case NoChildRecords => []
  }

  /** The JSON texts of the record's own `_fonts` entries. */
  function OwnFonts(rec: Record): set<JsonText>
  {
    if rec.fonts.Some? then set f | f in rec.fonts.value :: Encode(f) else {}
  }

  /** The record's own `_componentKey`, when it has one. */
  function OwnKeys(rec: Record): set<Value>
  {
    if "_componentKey" in rec.fields then {rec.fields["_componentKey"]} else {}
  }

  /** What gatherFonts collects: the record's own font texts and those of its subtrees. */
  function FontsIn(rec: Record): set<JsonText>
    decreases rec, 1
  {
    OwnFonts(rec) + match rec.children
      case ChildRecords(kids) => FontsInKids(rec, kids, |kids|)
      case NoChildRecords => {}
  }

  /** The font texts of the trees of kids[..n]. */
  function FontsInKids(rec: Record, kids: seq<Record>, n: nat): set<JsonText>
    requires rec.children == ChildRecords(kids) && n <= |kids|
    decreases rec, 0, n
  {
    if n == 0 then {} else FontsInKids(rec, kids, n - 1) + FontsIn(kids[n - 1])
  }

  /** What gatherComponentKeys collects. */
  function KeysIn(rec: Record): set<Value>
    decreases rec, 1
  {
    OwnKeys(rec) + match rec.children
      case ChildRecords(kids) => KeysInKids(rec, kids, |kids|)
      case NoChildRecords => {}
  }

  /** The component keys of the trees of kids[..n]. */
  function KeysInKids(rec: Record, kids: seq<Record>, n: nat): set<Value>
    requires rec.children == ChildRecords(kids) && n <= |kids|
    decreases rec, 0, n
  {
    if n == 0 then {} else KeysInKids(rec, kids, n - 1) + KeysIn(kids[n - 1])
  }

  lemma {:induction false} FontsInKidsMembers(rec: Record, kids: seq<Record>, n: nat, t: JsonText)
    requires rec.children == ChildRecords(kids) && n <= |kids|
    ensures t in FontsInKids(rec, kids, n) <==> exists k | 0 <= k < n :: t in FontsIn(kids[k])
  {
    if n > 0 {
      FontsInKidsMembers(rec, kids, n - 1, t);
    }
  }

  lemma {:induction false} KeysInKidsMembers(rec: Record, kids: seq<Record>, n: nat, key: Value)
    requires rec.children == ChildRecords(kids) && n <= |kids|
    ensures key in KeysInKids(rec, kids, n) <==> exists k | 0 <= k < n :: key in KeysIn(kids[k])
  {
    if n > 0 {
      KeysInKidsMembers(rec, kids, n - 1, key);
    }
  }

  lemma {:induction false} NodesFromMembers(rec: Record, kids: seq<Record>, i: nat, n: Record)
    requires rec.children == ChildRecords(kids) && i <= |kids|
    ensures n in NodesFrom(rec, kids, i) <==> exists k | i <= k < |kids| :: n in Nodes(kids[k])
    decreases |kids| - i
  {
    if i < |kids| {
      var first, rest := Nodes(kids[i]), NodesFrom(rec, kids, i + 1);
      assert NodesFrom(rec, kids, i) == first + rest;
      NodesFromMembers(rec, kids, i + 1, n);
    }
  }

  /** A record is in the tree when it is the root or in the tree of one of its children. */
  lemma NodesMembers(rec: Record, n: Record)
    ensures n in Nodes(rec) <==> n == rec || exists k | 0 <= k < |Kids(rec)| :: n in Nodes(Kids(rec)[k])
  {
    if rec.children.ChildRecords? {
      NodesFromMembers(rec, rec.children.records, 0, n);
      assert Kids(rec) == rec.children.records;
      assert Nodes(rec) == [rec] + NodesFrom(rec, rec.children.records, 0);
    } else {
      assert Nodes(rec) == [rec];
    }
  }

  /** gatherFonts collects exactly the font texts of every record of the tree. */
  lemma {:induction false} FontsInTree(rec: Record, t: JsonText)
    ensures t in FontsIn(rec) <==> exists n | n in Nodes(rec) :: t in OwnFonts(n)
    decreases rec
  {
    var kids := Kids(rec);
    forall n
      ensures n in Nodes(rec) <==> n == rec || exists k | 0 <= k < |kids| :: n in Nodes(kids[k])
    {
      NodesMembers(rec, n);
    }
    forall k | 0 <= k < |kids|
      ensures t in FontsIn(kids[k]) <==> exists n | n in Nodes(kids[k]) :: t in OwnFonts(n)
    {
      FontsInTree(kids[k], t);
    }
    if rec.children.ChildRecords? {
      FontsInKidsMembers(rec, kids, |kids|, t);
    }
    if exists n | n in Nodes(rec) :: t in OwnFonts(n) {
      var n :| n in Nodes(rec) && t in OwnFonts(n);
      if n != rec {
        var k :| 0 <= k < |kids| && n in Nodes(kids[k]);
        assert t in FontsIn(kids[k]);
      }
    }
  }

  /** gatherComponentKeys collects exactly the `_componentKey` values of every record of
      the tree. */
  lemma {:induction false} KeysInTree(rec: Record, key: Value)
    ensures key in KeysIn(rec) <==> exists n | n in Nodes(rec) :: key in OwnKeys(n)
    decreases rec
  {
    var kids := Kids(rec);
    forall n
      ensures n in Nodes(rec) <==> n == rec || exists k | 0 <= k < |kids| :: n in Nodes(kids[k])
    {
      NodesMembers(rec, n);
    }
    forall k | 0 <= k < |kids|
      ensures key in KeysIn(kids[k]) <==> exists n | n in Nodes(kids[k]) :: key in OwnKeys(n)
    {
      KeysInTree(kids[k], key);
    }
    if rec.children.ChildRecords? {
      KeysInKidsMembers(rec, kids, |kids|, key);
    }
    if exists n | n in Nodes(rec) :: key in OwnKeys(n) {
      var n :| n in Nodes(rec) && key in OwnKeys(n);
      if n != rec {
        var k :| 0 <= k < |kids| && n in Nodes(kids[k]);
        assert key in KeysIn(kids[k]);
      }
    }
  }

  /** gatherFonts: adds the texts of the record's own fonts, then those of every subtree. */
  method GatherFonts(rec: Record) returns (fonts: set<JsonText>)
    ensures fonts == FontsIn(rec)
    decreases rec
  {
    fonts := {};
    if rec.fonts.Some? {
      var own := rec.fonts.value;
      for i := 0 to |own|
        invariant fonts == set f | f in own[..i] :: Encode(f)
      {
        assert own[..i + 1] == own[..i] + [own[i]];
        fonts := fonts + {Encode(own[i])};
      }
      assert own[..|own|] == own;
    }
    assert fonts == OwnFonts(rec);
    match rec.children {
      case ChildRecords(kids) =>
        for i := 0 to |kids|
          invariant fonts == OwnFonts(rec) + FontsInKids(rec, kids, i)
        {
          var sub := GatherFonts(kids[i]);
          fonts := fonts + sub;
        }
      case NoChildRecords =>
    }
  }

  /** gatherComponentKeys: adds the record's own key, then those of every subtree. */
  method GatherComponentKeys(rec: Record) returns (keys: set<Value>)
    ensures keys == KeysIn(rec)
    decreases rec
  {
    keys := {};
    if "_componentKey" in rec.fields {
      keys := keys + {rec.fields["_componentKey"]};
    }
    match rec.children {
      case ChildRecords(kids) =>
        for i := 0 to |kids|
          invariant keys == OwnKeys(rec) + KeysInKids(rec, kids, i)
        {
          var sub := GatherComponentKeys(kids[i]);
          keys := keys + sub;
        }
      case NoChildRecords =>
    }
  }

  // ---------------------------------------------------------------------------------------
  // deserializeChildren

  /** `(await Promise.all(results)).filter(n => !!n)`: the first failure in order, or the
      non-null nodes in order. */
  function Collect(results: seq<Result<Option<Built>>>): Result<seq<Built>>
  {
    if results == [] then Ok([])
    else
      match Collect(results[..|results| - 1])
      case Thrown(e) => Thrown(e)
      case Ok(built) =>
        match results[|results| - 1]
        case Thrown(e) => Thrown(e)
        case Ok(n) => Ok(built + if n.Some? then [n.value] else [])
  }

  /** The positions of the results that are nodes, in order. */
  function Kept(results: seq<Result<Option<Built>>>): (ks: seq<nat>)
    ensures forall p | 0 <= p < |ks| :: ks[p] < |results| && results[ks[p]].Ok? && results[ks[p]].value.Some?
    ensures forall p, q | 0 <= p < q < |ks| :: ks[p] < ks[q]
    ensures forall i | 0 <= i < |results| && results[i].Ok? && results[i].value.Some? :: i in ks
  {
    if results == [] then []
    else
      var last := |results| - 1;
      Kept(results[..last]) + if results[last].Ok? && results[last].value.Some? then [last] else []
  }

  /** Children fail exactly when one of them fails, with the first failure. */
  lemma {:induction false} CollectFailure(results: seq<Result<Option<Built>>>)
    ensures Collect(results).Thrown? <==> exists i | 0 <= i < |results| :: results[i].Thrown?
    ensures Collect(results).Thrown? ==>
      exists i | 0 <= i < |results| ::
        results[i] == Thrown(Collect(results).error)
        && forall j | 0 <= j < i :: results[j].Ok?
  {
    if results != [] {
      var init := results[..|results| - 1];
      CollectFailure(init);
      assert forall i | 0 <= i < |init| :: init[i] == results[i];
    }
  }

  /** When no child fails, the result holds exactly the non-null nodes, in their original
      relative order. */
  lemma {:induction false} CollectNodes(results: seq<Result<Option<Built>>>)
    ensures Collect(results).Ok? ==>
      var ks := Kept(results);
      |Collect(results).value| == |ks|
      && forall p | 0 <= p < |ks| :: Collect(results).value[p] == results[ks[p]].value.value
  {
    if results != [] {
      var init := results[..|results| - 1];
      var last := results[|results| - 1];
      CollectNodes(init);
      if Collect(init).Ok? && last.Ok? {
        var ks, ks0 := Kept(results), Kept(init);
        assert ks[..|ks0|] == ks0;
        forall p | 0 <= p < |ks0|
          ensures results[ks[p]] == init[ks0[p]]
        {
          assert ks[p] == ks0[p];
        }
      }
    }
  }

  // ---------------------------------------------------------------------------------------
  // deserializeInstanceOverrides

  /** The main node id of each child node. */
  function MainIds(kids: seq<LiveNode>): (ids: seq<Value>)
    ensures |ids| == |kids|
  {
    seq(|kids|, j requires 0 <= j < |kids| => Str(MainNodeId(kids[j].id)))
  }

  /** `findChild(n => mainNodeId(n.id) === child.id)`: the index of the first child node
      whose main node id is the record's `id`. */
  function FindChild(kids: seq<LiveNode>, child: Record): (r: Option<nat>)
    ensures r.Some? ==>
      r.value < |kids| && MainIds(kids)[r.value] == Field(child, "id")
      && forall j | 0 <= j < r.value :: MainIds(kids)[j] != Field(child, "id")
    ensures r.None? ==> forall j | 0 <= j < |kids| :: MainIds(kids)[j] != Field(child, "id")
  {
    FirstMatch(MainIds(kids), Field(child, "id"), 0)
  }

  /** The first index at or after i where `ids` holds v. */
  function FirstMatch(ids: seq<Value>, v: Value, i: nat): (r: Option<nat>)
    requires i <= |ids|
    ensures r.Some? ==> i <= r.value < |ids| && ids[r.value] == v && forall j | i <= j < r.value :: ids[j] != v
    ensures r.None? ==> forall j | i <= j < |ids| :: ids[j] != v
    decreases |ids| - i
  {
    if i == |ids| then None
    else if ids[i] == v then Some(i)
    else FirstMatch(ids, v, i + 1)
  }

  /** The child records among cs that findChild matches with kids[j]. */
  function RoutedFrom(cs: seq<Record>, kids: seq<LiveNode>, j: nat): (r: seq<Record>)
    ensures forall c :: c in r <==> c in cs && FindChild(kids, c) == Some(j)
  {
    if cs == [] then []
    else
      var c := cs[|cs| - 1];
      RoutedFrom(cs[..|cs| - 1], kids, j) + if FindChild(kids, c) == Some(j) then [c] else []
  }

  /** The records applied to kids[j] when the records `recs` are applied to its parent, in
      the order in which they are applied. */
  function Routed(recs: seq<Record>, kids: seq<LiveNode>, j: nat): seq<Record>
  {
    if recs == [] then []
    else
      var last := |recs| - 1;
      Routed(recs[..last], kids, j) + RoutedFrom(Kids(recs[last]), kids, j)
  }

  /** Some record of `recs` lists `c` among its children. */
  predicate InSomeKids(recs: seq<Record>, c: Record)
  {
    exists k | 0 <= k < |recs| :: c in Kids(recs[k])
  }

  /** A child record reaches kids[j] exactly when it belongs to one of the records applied to
      the parent and findChild picks kids[j] for it. */
  lemma {:induction false} RoutedMembers(recs: seq<Record>, kids: seq<LiveNode>, j: nat, c: Record)
    ensures c in Routed(recs, kids, j) <==> InSomeKids(recs, c) && FindChild(kids, c) == Some(j)
  {
    if recs != [] {
      RoutedMembers(recs[..|recs| - 1], kids, j, c);
      RoutedLast(recs, kids, j, c);
      InSomeKidsLast(recs, c);
    }
  }

  lemma InSomeKidsLast(recs: seq<Record>, c: Record)
    requires recs != []
    ensures InSomeKids(recs, c) <==>
      InSomeKids(recs[..|recs| - 1], c) || c in Kids(recs[|recs| - 1])
  {
    var init := recs[..|recs| - 1];
    if InSomeKids(recs, c) {
      var k :| 0 <= k < |recs| && c in Kids(recs[k]);
      if k < |init| {
        assert init[k] == recs[k];
      }
    }
    if InSomeKids(init, c) {
      var k :| 0 <= k < |init| && c in Kids(init[k]);
      assert init[k] == recs[k];
    }
  }

  lemma RoutedLast(recs: seq<Record>, kids: seq<LiveNode>, j: nat, c: Record)
    requires recs != []
    ensures c in Routed(recs, kids, j) <==>
      c in Routed(recs[..|recs| - 1], kids, j) || (c in Kids(recs[|recs| - 1]) && FindChild(kids, c) == Some(j))
  {
    var lastKids := Kids(recs[|recs| - 1]);
    assert Routed(recs, kids, j) == Routed(recs[..|recs| - 1], kids, j) + RoutedFrom(lastKids, kids, j);
  }

  /** The setter calls of setProperties for each record of recs in turn. */
  function PlansOf(proto: Proto, recs: seq<Record>, inInstance: bool): seq<Event>
  {
    if recs == [] then []
    else PlansOf(proto, recs[..|recs| - 1], inInstance) + Plan(proto, recs[|recs| - 1], inInstance)
  }

  /** The instance tree `live` after deserializeInstanceOverrides has applied every record of
      recs to it; `inInstance` is false only at the root of the instance. */
  function Overrides(recs: seq<Record>, live: LiveNode, inInstance: bool): Built
    decreases live
  {
    Built(live.nodeType, PlansOf(live.proto, recs, inInstance),
      match live.children
      case ChildNodes(kids) =>
        BuiltChildren(seq(|kids|, j requires 0 <= j < |kids| => Overrides(Routed(recs, kids, j), kids[j], true)))
      case NoChildren => NoBuiltChildren)
  }

  /** setProperties only sets properties and resizes. */
  lemma {:induction false} PlansOfEvents(proto: Proto, recs: seq<Record>, inInstance: bool)
    ensures forall e | e in PlansOf(proto, recs, inInstance) :: e.Write? || e.Resize?
  {
    if recs != [] {
      PlansOfEvents(proto, recs[..|recs| - 1], inInstance);
      PlanResizes(proto, recs[|recs| - 1], inInstance);
    }
  }

  /** Overrides change no structure: the instance keeps the imported node's type and its
      number of children, and the node only receives setter calls and resizes, never an
      appended child. */
  lemma OverridesShape(recs: seq<Record>, live: LiveNode, inInstance: bool)
    ensures var b := Overrides(recs, live, inInstance);
      && b.nodeType == live.nodeType
      && (forall e | e in b.log :: e.Write? || e.Resize?)
      && (b.children.BuiltChildren? <==> live.children.ChildNodes?)
      && (live.children.ChildNodes? ==> |b.children.nodes| == |live.children.nodes|)
  {
    PlansOfEvents(live.proto, recs, inInstance);
  }

  /** No call on the built tree sets one of `names`. */
  predicate NoWrites(b: Built, names: set<string>)
  {
    && (forall e | e in b.log && e.Write? :: e.name !in names)
    && match b.children
       case BuiltChildren(kids) => forall j | 0 <= j < |kids| :: NoWrites(kids[j], names)
       case NoBuiltChildren => true
  }

  /** No call below the root of a built tree sets one of `names`. */
  predicate NoWritesBelow(b: Built, names: set<string>)
  {
    match b.children
    case BuiltChildren(kids) => forall j | 0 <= j < |kids| :: NoWrites(kids[j], names)
    case NoBuiltChildren => true
  }

  /** Inside an instance, setProperties never sets an excluded property. */
  lemma PlanInInstanceAvoids(proto: Proto, rec: Record)
    ensures forall e | e in Plan(proto, rec, true) && e.Write? :: e.name !in SkipInInstanceProps + SkipAutoProps
  {
    forall e | e in Plan(proto, rec, true) && e.Write?
      ensures e.name !in SkipInInstanceProps + SkipAutoProps
    {
      PlanWrites(proto, rec, true, e.name, e.value);
    }
  }

  lemma {:induction false} PlansOfInInstanceAvoid(proto: Proto, recs: seq<Record>)
    ensures forall e | e in PlansOf(proto, recs, true) && e.Write? :: e.name !in SkipInInstanceProps + SkipAutoProps
  {
    if recs != [] {
      PlansOfInInstanceAvoid(proto, recs[..|recs| - 1]);
      PlanInInstanceAvoids(proto, recs[|recs| - 1]);
    }
  }

  /** Below the root of an instance, no property excluded inside instances, and no property
      excluded from reflection, is ever set. */
  lemma {:induction false} OverridesSkipInstanceProps(recs: seq<Record>, live: LiveNode)
    ensures NoWrites(Overrides(recs, live, true), SkipInInstanceProps + SkipAutoProps)
    decreases live
  {
    PlansOfInInstanceAvoid(live.proto, recs);
    match live.children {
      case ChildNodes(kids) =>
        var b := Overrides(recs, live, true);
        forall j | 0 <= j < |kids|
          ensures NoWrites(b.children.nodes[j], SkipInInstanceProps + SkipAutoProps)
        {
          OverridesSkipInstanceProps(Routed(recs, kids, j), kids[j]);
        }
      case NoChildren =>
    }
  }

  /** A group or boolean operation never receives a property excluded on groups. */
  lemma GroupSkipsGroupProps(rec: Record, figma: Figma)
    requires HostCreates(figma)
    requires Field(rec, "type") == Str("GROUP") || Field(rec, "type") == Str("BOOLEAN_OPERATION")
    ensures var r := Inner(rec, figma);
      r.Ok? ==> forall e | e in r.value.value.log && e.Write? :: e.name !in SkipGroupProps
  {
    InnerGroup(rec, figma);
    var r := Inner(rec, figma);
    if r.Ok? {
      var proto := if Field(rec, "type") == Str("GROUP") then figma.created["GROUP"].proto
        else figma.created[Field(rec, "booleanOperation").s].proto;
      assert r.value.value.log == Plan(proto, rec, false);
      forall e | e in r.value.value.log && e.Write?
        ensures e.name !in SkipGroupProps
      {
        PlanWrites(proto, rec, false, e.name, e.value);
      }
    }
  }

  /** The root of an instance receives its record with `isInInstance` false, and nothing
      below it receives an excluded property. */
  lemma InstanceRoot(rec: Record, live: LiveNode)
    ensures Overrides([rec], live, false).log == Plan(live.proto, rec, false)
    ensures NoWritesBelow(Overrides([rec], live, false), SkipInInstanceProps + SkipAutoProps)
  {
    assert [rec][..0] == [];
    assert PlansOf(live.proto, [rec], false) == PlansOf(live.proto, [], false) + Plan(live.proto, rec, false);
    match live.children {
      case ChildNodes(kids) =>
        var b := Overrides([rec], live, false);
        forall j | 0 <= j < |kids|
          ensures NoWrites(b.children.nodes[j], SkipInInstanceProps + SkipAutoProps)
        {
          OverridesSkipInstanceProps(Routed([rec], kids, j), kids[j]);
        }
      case NoChildren =>
    }
  }

  /** A child record of the instance's record is applied to the first child of the instance
      whose main-node id is its `id`, and to no other; a child record that no child matches is
      dropped. */
  lemma InstanceChildRouting(rec: Record, kids: seq<LiveNode>, j: nat, c: Record)
    requires j < |kids|
    ensures c in Routed([rec], kids, j) <==>
      c in Kids(rec) && Field(c, "id") == Str(MainNodeId(kids[j].id))
      && forall i | 0 <= i < j :: Field(c, "id") != Str(MainNodeId(kids[i].id))
  {
    RoutedMembers([rec], kids, j, c);
    assert [rec][0] == rec;
    assert forall i | 0 <= i < |kids| :: MainIds(kids)[i] == Str(MainNodeId(kids[i].id));
    var r := FindChild(kids, c);
    if r.Some? && r.value != j {
      if r.value < j {
        assert Field(c, "id") == Str(MainNodeId(kids[r.value].id));
      } else {
        assert Field(c, "id") != Str(MainNodeId(kids[j].id));
      }
    }
  }

  // ---------------------------------------------------------------------------------------
  // deserializeInner

  /** The host can create every type the deserializer asks for. */
  predicate HostCreates(figma: Figma)
  {
    FactoryTypes + BooleanOpTypes + {"GROUP"} <= figma.created.Keys
  }

  /** One `appendChild` per child. */
  function Appends(n: nat): (r: seq<Event>)
    ensures |r| == n && forall k | 0 <= k < n :: r[k] == Append
  {
    seq(n, k requires 0 <= k < n => Append)
  }

  /** `BOOLEAN_OP_FACTORIES[obj.booleanOperation]` exists. */
  predicate KnownBooleanOp(rec: Record)
  {
    Field(rec, "booleanOperation").Str? && Field(rec, "booleanOperation").s in BooleanOpTypes
  }

  /** `figma.importComponentByKeyAsync(obj._componentKey)` resolves. */
  predicate Importable(rec: Record, figma: Figma)
  {
    Field(rec, "_componentKey").Str? && Field(rec, "_componentKey").s in figma.components
  }

  /** The node deserializeInner builds from rec, null, or the exception it throws. */
  function Inner(rec: Record, figma: Figma): Result<Option<Built>>
    requires HostCreates(figma)
    decreases rec, 2
  {
    var t := Field(rec, "type");
    if t.Str? && t.s in FactoryTypes then
      var node := figma.created[t.s];
      var log := Plan(node.proto, rec, false);
      if node.children.ChildNodes? then
        match ChildrenOf(rec, figma)
        case Thrown(e) => Thrown(e)
        case Ok(kids) => Ok(Some(Built(node.nodeType, log + Appends(|kids|), BuiltChildren(kids))))
      else Ok(Some(Built(node.nodeType, log, NoBuiltChildren)))
    else if t == Str("GROUP") || t == Str("BOOLEAN_OPERATION") then
      match ChildrenOf(rec, figma)
      case Thrown(e) => Thrown(e)
      case Ok(kids) =>
        if t == Str("BOOLEAN_OPERATION") && !KnownBooleanOp(rec) then Thrown(NotAFunction)
        else
          var node := figma.created[if t == Str("GROUP") then "GROUP" else Field(rec, "booleanOperation").s];
          Ok(Some(Built(node.nodeType, Plan(node.proto, rec, false), BuiltChildren(kids))))
    else if t == Str("INSTANCE") then
      if Importable(rec, figma) then
        Ok(Some(Overrides([rec], figma.components[Field(rec, "_componentKey").s], false)))
      else Ok(None)
    else Ok(None)
  }

  /** deserializeChildren: every child record deserialized, then the nulls filtered out. */
  function ChildrenOf(rec: Record, figma: Figma): Result<seq<Built>>
    requires HostCreates(figma)
    decreases rec, 1
  {
    Collect(ChildResults(rec, figma))
  }

  /** The result of deserializing each child record, in order. */
  function ChildResults(rec: Record, figma: Figma): seq<Result<Option<Built>>>
    requires HostCreates(figma)
    decreases rec, 0
  {
    match rec.children
    case ChildRecords(kids) => seq(|kids|, i requires 0 <= i < |kids| => Inner(kids[i], figma))
    case NoChildRecords => []
  }

  /** A type with a factory is created by it, receives its properties with `isInInstance`
      false, and then, if it can hold children, one `appendChild` per non-null child; only
      a failing child makes it fail. */
  lemma InnerFactory(rec: Record, figma: Figma)
    requires HostCreates(figma)
    requires Field(rec, "type").Str? && Field(rec, "type").s in FactoryTypes
    ensures var node := figma.created[Field(rec, "type").s];
      var r := Inner(rec, figma);
      && (r.Thrown? <==> node.children.ChildNodes? && ChildrenOf(rec, figma).Thrown?)
      && (r.Ok? ==>
            r.value.Some? && r.value.value.nodeType == node.nodeType
            && r.value.value.log[..|Plan(node.proto, rec, false)|] == Plan(node.proto, rec, false)
            && (node.children.ChildNodes? ==>
                  r.value.value.children == BuiltChildren(ChildrenOf(rec, figma).value)
                  && r.value.value.log[|Plan(node.proto, rec, false)|..] == Appends(|ChildrenOf(rec, figma).value|)))
      && (node.children.NoChildren? ==> r == Ok(Some(Built(node.nodeType, Plan(node.proto, rec, false), NoBuiltChildren))))
  {
    var node := figma.created[Field(rec, "type").s];
    var log := Plan(node.proto, rec, false);
    if node.children.ChildNodes? && ChildrenOf(rec, figma).Ok? {
      var kids := ChildrenOf(rec, figma).value;
      assert (log + Appends(|kids|))[..|log|] == log;
      assert (log + Appends(|kids|))[|log|..] == Appends(|kids|);
    }
  }

  /** A group or boolean operation is created around its non-null children; it fails when a
      child fails or when no factory exists for its boolean operation. */
  lemma InnerGroup(rec: Record, figma: Figma)
    requires HostCreates(figma)
    requires Field(rec, "type") == Str("GROUP") || Field(rec, "type") == Str("BOOLEAN_OPERATION")
    ensures var r := Inner(rec, figma);
      && (r.Thrown? <==>
            ChildrenOf(rec, figma).Thrown?
            || (Field(rec, "type") == Str("BOOLEAN_OPERATION") && !KnownBooleanOp(rec)))
      && (r.Ok? ==> r.value.Some? && r.value.value.children == BuiltChildren(ChildrenOf(rec, figma).value))
    ensures var r := Inner(rec, figma);
      Field(rec, "type") == Str("GROUP") && r.Ok? ==>
        var node := figma.created["GROUP"];
        r.value.value.nodeType == node.nodeType && r.value.value.log == Plan(node.proto, rec, false)
    ensures var r := Inner(rec, figma);
      Field(rec, "type") == Str("BOOLEAN_OPERATION") && r.Ok? ==>
        KnownBooleanOp(rec)
        && var node := figma.created[Field(rec, "booleanOperation").s];
        r.value.value.nodeType == node.nodeType && r.value.value.log == Plan(node.proto, rec, false)
  {
    FactoryTypesExcludeSpecialTypes();
  }

  /** An instance is null, for its own subtree only, when its key cannot be imported;
      otherwise it is the imported component's instance with the record's overrides. */
  lemma InnerInstance(rec: Record, figma: Figma)
    requires HostCreates(figma)
    requires Field(rec, "type") == Str("INSTANCE")
    ensures var r := Inner(rec, figma);
      && r.Ok? && (r.value.None? <==> !Importable(rec, figma))
      && (Importable(rec, figma) ==>
            r.value.value == Overrides([rec], figma.components[Field(rec, "_componentKey").s], false))
  {
    FactoryTypesExcludeSpecialTypes();
  }

  /** Any other type yields null. */
  lemma InnerUnknown(rec: Record, figma: Figma)
    requires HostCreates(figma)
    requires !(Field(rec, "type").Str? && Field(rec, "type").s in FactoryTypes)
    requires Field(rec, "type") !in {Str("GROUP"), Str("BOOLEAN_OPERATION"), Str("INSTANCE")}
    ensures Inner(rec, figma) == Ok(None)
  {
  }

  /** deserializeInner, as the source runs it: the node is created and its properties set,
      then its children are deserialized and appended one by one. */
  method DeserializeInner(rec: Record, figma: Figma) returns (r: Result<Option<Built>>)
    requires HostCreates(figma)
    ensures r == Inner(rec, figma)
    decreases rec, 1
  {
    var t := Field(rec, "type");
    if t.Str? && t.s in FactoryTypes {
      var node := figma.created[t.s];
      var log := SetProperties(node.proto, rec, false);
      if node.children.ChildNodes? {
        var kids := DeserializeChildren(rec, figma);
        if kids.Thrown? {
          return Thrown(kids.error);
        }
        for i := 0 to |kids.value|
          invariant log == Plan(node.proto, rec, false) + Appends(i)
        {
          log := log + [Append];
        }
        return Ok(Some(Built(node.nodeType, log, BuiltChildren(kids.value))));
      }
      return Ok(Some(Built(node.nodeType, log, NoBuiltChildren)));
    } else if t == Str("GROUP") || t == Str("BOOLEAN_OPERATION") {
      var kids := DeserializeChildren(rec, figma);
      if kids.Thrown? {
        return Thrown(kids.error);
      }
      if t == Str("BOOLEAN_OPERATION") && !KnownBooleanOp(rec) {
        return Thrown(NotAFunction);
      }
      var node := figma.created[if t == Str("GROUP") then "GROUP" else Field(rec, "booleanOperation").s];
      var log := SetProperties(node.proto, rec, false);
      return Ok(Some(Built(node.nodeType, log, BuiltChildren(kids.value))));
    } else if t == Str("INSTANCE") {
      if !Importable(rec, figma) {
        return Ok(None);
      }
      return Ok(Some(Overrides([rec], figma.components[Field(rec, "_componentKey").s], false)));
    }
    return Ok(None);
  }

  /** deserializeChildren: deserializes every child record, then keeps the non-null nodes;
      the first failure is the one that propagates. */
  method DeserializeChildren(rec: Record, figma: Figma) returns (r: Result<seq<Built>>)
    requires HostCreates(figma)
    ensures r == ChildrenOf(rec, figma)
    decreases rec, 0
  {
    var kids := Kids(rec);
    var results: seq<Result<Option<Built>>> := [];
    for i := 0 to |kids|
      invariant |results| == i
      invariant forall k | 0 <= k < i :: results[k] == Inner(kids[k], figma)
    {
      var n := DeserializeInner(kids[i], figma);
      results := results + [n];
    }
    assert results == ChildResults(rec, figma);
    r := KeepNodes(results);
  }

  /** The awaited results with the null ones filtered out, or the first failure. */
  method KeepNodes(results: seq<Result<Option<Built>>>) returns (r: Result<seq<Built>>)
    ensures r == Collect(results)
  {
    r := Ok([]);
    assert results[..0] == [];
    for i := 0 to |results|
      invariant r == Collect(results[..i])
    {
      CollectStep(results[..i + 1]);
      assert results[..i + 1][..i] == results[..i] && results[..i + 1][i] == results[i];
      if r.Ok? {
        match results[i] {
          case Thrown(e) => r := Thrown(e);
          case Ok(n) =>
            if n.Some? {
              r := Ok(r.value + [n.value]);
            }
        }
      }
    }
    assert results[..|results|] == results;
  }

  /** One more result: a failure so far stays, otherwise the new result is folded in. */
  lemma CollectStep(results: seq<Result<Option<Built>>>)
    requires results != []
    ensures var init := Collect(results[..|results| - 1]);
      var last := results[|results| - 1];
      Collect(results) ==
        if init.Thrown? then init
        else if last.Thrown? then Thrown(last.error)
        else if last.value.Some? then Ok(init.value + [last.value.value])
        else init
  {
    var init := Collect(results[..|results| - 1]);
    if init.Ok? {
      assert init.value + [] == init.value;
    }
  }

  // ---------------------------------------------------------------------------------------
  // deserializeNode

  /** The fonts whose JSON texts are among ts, when every one of them parses. */
  function Parsed(ts: set<JsonText>): set<Value>
  {
    set t | t in ts && t.Text? :: t.json
  }

  /** What deserializeNode returns: `JSON.parse` throws when a gathered font text is
      `undefined`; loading fails when the host cannot load one of the fonts; component
      imports never fail here. */
  function Deserialize(rec: Record, figma: Figma): Result<Option<Built>>
    requires HostCreates(figma)
  {
    var fonts := FontsIn(rec);
    if NoText in fonts then Thrown(SyntaxError)
    else if !(Parsed(fonts) <= figma.loadable) then Thrown(FontUnavailable)
    else Inner(rec, figma)
  }

  /** The requests deserializeNode sends to the host before deserializing. */
  datatype Requests = Requests(fontLoads: set<Value>, imports: set<Value>)

  /** deserializeNode: gathers the fonts and component keys, requests them all, then
      deserializes; nothing is requested when a font text does not parse. */
  method DeserializeNode(rec: Record, figma: Figma) returns (sent: Requests, r: Result<Option<Built>>)
    requires HostCreates(figma)
    ensures r == Deserialize(rec, figma)
    ensures sent == if NoText in FontsIn(rec) then Requests({}, {}) else Requests(Parsed(FontsIn(rec)), KeysIn(rec))
  {
    var fonts := GatherFonts(rec);
    if NoText in fonts {
      return Requests({}, {}), Thrown(SyntaxError);
    }
    var keys := GatherComponentKeys(rec);
    sent := Requests(Parsed(fonts), keys);
    if !(sent.fontLoads <= figma.loadable) {
      return sent, Thrown(FontUnavailable);
    }
    r := DeserializeInner(rec, figma);
  }

  /** The `_fonts` lists the serializer writes always parse again: the records it produces
      never make deserializeNode throw a SyntaxError. */
  lemma {:induction false} SerializedFontsParse(node: LiveNode, concise: bool, figma: Figma)
    requires FactoryTypes <= figma.created.Keys
    ensures NoText !in FontsIn(Serialize.Serialize(node, concise, figma))
    decreases node
  {
    var rec := Serialize.Serialize(node, concise, figma);
    if node.text.Some? {
      Serialize.FontsMembers(node.text.value);
      assert NoText !in OwnFonts(rec);
    }
    match node.children {
      case ChildNodes(live) =>
        assert rec.children == Serialize.RecordChildren(node, concise, figma);
        var kids := rec.children.records;
        forall k | 0 <= k < |kids|
          ensures NoText !in FontsIn(kids[k])
        {
          assert kids[k] == Serialize.Serialize(live[k], concise, figma);
          SerializedFontsParse(live[k], concise, figma);
        }
        FontsInKidsMembers(rec, kids, |kids|, NoText);
      case NoChildren =>
    }
  }

  // ---------------------------------------------------------------------------------------
  // The round trip

  /** A tree the deserializer can rebuild node for node: every node has a type with a
      factory, that factory makes a node of the same type, and the made node can hold
      children exactly when the original has them. */
  predicate Rebuildable(node: LiveNode, figma: Figma)
    decreases node
  {
    && node.nodeType in FactoryTypes && node.nodeType in figma.created
    && figma.created[node.nodeType].nodeType == node.nodeType
    && figma.created[node.nodeType].children.ChildNodes? == node.children.ChildNodes?
    && match node.children
       case ChildNodes(kids) => forall i | 0 <= i < |kids| :: Rebuildable(kids[i], figma)
       case NoChildren => true
  }

  /** b rebuilds node: it has the same type; it was resized to the node's own width and
      height, and to nothing else, exactly when the made node can be resized and both are
      truthy; and it has one rebuilt child per child, in the same order. */
  predicate Rebuilds(b: Built, node: LiveNode, figma: Figma)
    decreases node
  {
    var w, h := Get(node.values, "width"), Get(node.values, "height");
    && b.nodeType == node.nodeType
    && (forall e | e in b.log && e.Resize? :: e == Resize(w, h))
    && (Resize(w, h) in b.log <==>
          node.nodeType in figma.created && figma.created[node.nodeType].proto.resizable
          && Truthy(w) && Truthy(h))
    && match node.children
       case NoChildren => b.children == NoBuiltChildren
       case ChildNodes(kids) =>
         && b.children.BuiltChildren? && |b.children.nodes| == |kids|
         && forall i | 0 <= i < |kids| :: Rebuilds(b.children.nodes[i], kids[i], figma)
  }

  /** The only resize setProperties makes is to the record's width and height, and it makes
      it exactly when the node can be resized and both are truthy. */
  lemma PlanResizes(proto: Proto, rec: Record, inInstance: bool)
    ensures var p := Plan(proto, rec, inInstance);
      && (forall e | e in p && e.Resize? :: e == Resize(Field(rec, "width"), Field(rec, "height")))
      && (Resize(Field(rec, "width"), Field(rec, "height")) in p <==> Resizes(proto, rec))
  {
    var w := WritesOf(PropsForSet(proto, rec, inInstance), rec);
    assert Resize(Field(rec, "width"), Field(rec, "height")) !in w;
  }

  /** When every child yields a node, the children are exactly those nodes, in order. */
  lemma {:induction false} CollectAllNodes(results: seq<Result<Option<Built>>>)
    requires forall i | 0 <= i < |results| :: results[i].Ok? && results[i].value.Some?
    ensures Collect(results).Ok?
    ensures |Collect(results).value| == |results|
    ensures forall i | 0 <= i < |results| :: Collect(results).value[i] == results[i].value.value
  {
    if results != [] {
      var init := results[..|results| - 1];
      CollectAllNodes(init);
    }
  }

  /** A record with a node's type, width and height, whose child records rebuild the node's
      children one for one, rebuilds the node. */
  lemma RecordRebuilds(rec: Record, node: LiveNode, figma: Figma)
    requires FactoryTypes <= figma.created.Keys && HostCreates(figma) && Rebuildable(node, figma)
    requires Field(rec, "type") == Str(node.nodeType)
    requires Field(rec, "width") == Get(node.values, "width")
    requires Field(rec, "height") == Get(node.values, "height")
    requires rec.children.ChildRecords? <==> node.children.ChildNodes?
    requires node.children.ChildNodes? ==>
      && |rec.children.records| == |node.children.nodes|
      && forall i | 0 <= i < |node.children.nodes| ::
           var r := Inner(rec.children.records[i], figma);
           r.Ok? && r.value.Some? && Rebuilds(r.value.value, node.children.nodes[i], figma)
    ensures var r := Inner(rec, figma);
      r.Ok? && r.value.Some? && Rebuilds(r.value.value, node, figma)
  {
    var made := figma.created[node.nodeType];
    PlanResizes(made.proto, rec, false);
    var log := Plan(made.proto, rec, false);
    if node.children.ChildNodes? {
      var results := ChildResults(rec, figma);
      CollectAllNodes(results);
      var built := Collect(results).value;
      assert forall e | e in log + Appends(|built|) :: e in log || e == Append;
    }
  }

  /** Serializing a tree of directly created nodes and deserializing the record gives back
      a tree of the same shape: the same type tags, the same dimensions whenever the
      deserializer resizes, and the same number and order of children at every level. */
  lemma {:induction false} RoundTripShape(node: LiveNode, concise: bool, figma: Figma)
    requires FactoryTypes <= figma.created.Keys && HostCreates(figma) && Rebuildable(node, figma)
    ensures var r := Inner(Serialize.Serialize(node, concise, figma), figma);
      r.Ok? && r.value.Some? && Rebuilds(r.value.value, node, figma)
    decreases node
  {
    var rec := Serialize.Serialize(node, concise, figma);
    Serialize.SerializeFixedFields(node, concise, figma);
    Serialize.SerializeChildren(node, concise, figma);
    if node.children.ChildNodes? {
      var kids := node.children.nodes;
      forall i | 0 <= i < |kids|
        ensures var r := Inner(rec.children.records[i], figma);
          r.Ok? && r.value.Some? && Rebuilds(r.value.value, kids[i], figma)
      {
        RoundTripShape(kids[i], concise, figma);
      }
    }
    RecordRebuilds(rec, node, figma);
  }

  /** A node whose width or height is zero is never resized, so it keeps the size its
      factory gave it: a line, whose height is always zero, does not get its width back. */
  lemma ZeroDimensionNotRestored(node: LiveNode, concise: bool, figma: Figma)
    requires FactoryTypes <= figma.created.Keys && HostCreates(figma) && Rebuildable(node, figma)
    requires Get(node.values, "width") == Num(0) || Get(node.values, "height") == Num(0)
    ensures var r := Inner(Serialize.Serialize(node, concise, figma), figma);
      r.Ok? && r.value.Some? && forall e | e in r.value.value.log :: !e.Resize?
  {
    RoundTripShape(node, concise, figma);
  }

  /** With host factories, setters and other host calls that never throw, deserializing a
      record tree can only fail on a boolean operation with an unknown operation name. */
  lemma {:induction false} InnerFailsOnlyOnUnknownOp(rec: Record, figma: Figma)
    requires HostCreates(figma)
    ensures Inner(rec, figma).Thrown? ==> Inner(rec, figma).error == NotAFunction
    decreases rec, 1
  {
    ChildrenFailOnlyOnUnknownOp(rec, figma);
  }

  lemma {:induction false} ChildrenFailOnlyOnUnknownOp(rec: Record, figma: Figma)
    requires HostCreates(figma)
    ensures ChildrenOf(rec, figma).Thrown? ==> ChildrenOf(rec, figma).error == NotAFunction
    decreases rec, 0
  {
    match rec.children {
      case ChildRecords(kids) =>
        var results := seq(|kids|, i requires 0 <= i < |kids| => Inner(kids[i], figma));
        CollectFailure(results);
        if Collect(results).Thrown? {
          var i :| 0 <= i < |results| && results[i] == Thrown(Collect(results).error)
            && forall j | 0 <= j < i :: results[j].Ok?;
          InnerFailsOnlyOnUnknownOp(kids[i], figma);
        }
      case NoChildRecords =>
    }
  }

  /** deserializeNode throws a SyntaxError exactly when some node of the tree lists a font
      whose JSON text is `undefined`; otherwise it fails to load fonts exactly when one of
      the listed fonts cannot be loaded; otherwise it returns what deserializeInner does. */
  lemma DeserializeOutcome(rec: Record, figma: Figma)
    requires HostCreates(figma)
    ensures Deserialize(rec, figma) == Thrown(SyntaxError) <==>
      exists n | n in Nodes(rec) :: NoText in OwnFonts(n)
    ensures Deserialize(rec, figma) == Thrown(FontUnavailable) <==>
      && (forall n | n in Nodes(rec) :: NoText !in OwnFonts(n))
      && exists n, t | n in Nodes(rec) && t in OwnFonts(n) :: t.json !in figma.loadable
    ensures Deserialize(rec, figma).Ok? ==> Deserialize(rec, figma) == Inner(rec, figma)
  {
    InnerFailsOnlyOnUnknownOp(rec, figma);
    FontsInTree(rec, NoText);
    if NoText !in FontsIn(rec) {
      if exists n, t | n in Nodes(rec) && t in OwnFonts(n) :: t.json !in figma.loadable {
        var n, t :| n in Nodes(rec) && t in OwnFonts(n) && t.json !in figma.loadable;
        FontsInTree(rec, t);
        assert t.Text?;
        assert t.json in Parsed(FontsIn(rec));
      } else if !(Parsed(FontsIn(rec)) <= figma.loadable) {
        var v :| v in Parsed(FontsIn(rec)) && v !in figma.loadable;
        var t :| t in FontsIn(rec) && t.Text? && t.json == v;
        FontsInTree(rec, t);
      }
    }
  }
}
