/** The exclusion tables, the factory tables and the main-node-id parser shared by the
    serializer and the deserializer. */
module Common {
  import opened Host

  /** Properties never read or written by the reflective loops. */
  const SkipAutoProps: set<string> := {
    "type", "parent", "children", "removed", "_fonts",
    "autoRename", "overflowDirection", "width", "height",
    "absoluteTransform",
    "vectorPaths",
    "x", "y", "rotation", "scaleFactor",
    "mainComponent", "masterComponent",
    "backgrounds", "backgroundStyleId",
    "horizontalPadding", "verticalPadding",
    "fillGeometry", "strokeGeometry"
  }

  /** Properties not written on groups and boolean operations. */
  const SkipGroupProps: set<string> := {"relativeTransform", "x", "y", "rotation", "scaleFactor"}

  /** Properties not written on nodes below the root of a component instance. */
  const SkipInInstanceProps: set<string> := {
    "relativeTransform", "x", "y", "rotation", "scaleFactor",
    "constraints", "vectorNetwork",
    "constrainProportions", "isMask", "numberOfFixedChildren",
    "booleanOperation"
  }

  /** The keys of FACTORIES: the types the host can create directly. */
  const FactoryTypes: set<string> := {
    "RECTANGLE", "LINE", "ELLIPSE", "POLYGON", "STAR",
    "VECTOR", "TEXT", "FRAME", "COMPONENT", "SLICE"
  }

  /** The keys of BOOLEAN_OP_FACTORIES. */
  const BooleanOpTypes: set<string> := {"UNION", "EXCLUDE", "INTERSECT", "SUBTRACT"}

  /** `descs.filter(([name]) => !names.has(name))`: the descriptors whose name is not in
      `names`, in their original order. */
  function Without(descs: seq<Desc>, names: set<string>): (r: seq<Desc>)
    ensures forall d :: d in r <==> d in descs && d.name !in names
  {
    if descs == [] then []
    else if descs[0].name in names then Without(descs[1..], names)
    else [descs[0]] + Without(descs[1..], names)
  }

  /** The characters a regular expression's `.` does not match. */
  predicate IsLineTerminator(c: char)
  {
    c == '\n' || c == '\r' || c == '\U{2028}' || c == '\U{2029}'
  }

  /** The index of the first line terminator in s, or |s| when there is none. */
  function LineEnd(s: string): (n: nat)
    ensures n <= |s|
    ensures forall i | 0 <= i < n :: !IsLineTerminator(s[i])
    ensures n < |s| ==> IsLineTerminator(s[n])
  {
    if s == [] then 0
    else if IsLineTerminator(s[0]) then 0
    else 1 + LineEnd(s[1..])
  }

  /** The length of the match of `/^.*;/` within the first n characters: one past the last
      separator among s[..n], or 0 when there is none. */
  function MatchLength(s: string, n: nat): (m: nat)
    requires n <= |s|
    ensures m <= n
    ensures m == 0 || s[m - 1] == ';'
    ensures forall i | m <= i < n :: s[i] != ';'
  {
    if n == 0 then 0
    else if s[n - 1] == ';' then n
    else MatchLength(s, n - 1)
  }

  /** mainNodeId: `id.replace(/^.*;/, '')`.  The regular expression has no flags, so `.`
      stops at a line terminator and only the first line can be part of the match; the
      greedy `.*` makes the match end at the last separator of that line. */
  function MainNodeId(id: string): (r: string)
    ensures |r| <= |id| && r == id[|id| - |r|..]
    ensures var m := |id| - |r|;
      && (m == 0 || (m <= LineEnd(id) && id[m - 1] == ';'))
      && forall i | m <= i < LineEnd(id) :: id[i] != ';'
  {
    id[MatchLength(id, LineEnd(id))..]
  }

  /** The composite id from the documentation comment keeps only its main-component part. */
  lemma MainNodeIdExample(id: string)
    requires id == "I4:1229;0:5435"
    ensures MainNodeId(id) == "0:5435"
  {
    assert forall i | 0 <= i < |id| :: !IsLineTerminator(id[i]) && (id[i] == ';' <==> i == 7);
    LineEndOfSingleLine(id);
    var m := |id| - |MainNodeId(id)|;
    assert id[7] == ';';
    assert m > 7;
    assert id[m - 1] == ';';
  }

  /** An id without a separator is returned unchanged. */
  lemma MainNodeIdWithoutSeparator(id: string)
    requires ';' !in id
    ensures MainNodeId(id) == id
  {
  }

  /** When the id is a single line, the result holds no separator at all. */
  lemma MainNodeIdHasNoSeparator(id: string)
    requires forall i | 0 <= i < |id| :: !IsLineTerminator(id[i])
    ensures ';' !in MainNodeId(id)
  {
    var r := MainNodeId(id);
    var m := |id| - |r|;
    LineEndOfSingleLine(id);
    assert forall i | m <= i < |id| :: id[i] != ';';
    forall k | 0 <= k < |r|
      ensures r[k] != ';'
    {
      assert r[k] == id[m + k];
    }
  }

  /** A string without line terminators is one line. */
  lemma {:induction false} LineEndOfSingleLine(s: string)
    requires forall i | 0 <= i < |s| :: !IsLineTerminator(s[i])
    ensures LineEnd(s) == |s|
  {
    if s != [] {
      assert !IsLineTerminator(s[0]);
      assert forall i | 0 <= i < |s[1..]| :: s[1..][i] == s[i + 1];
      LineEndOfSingleLine(s[1..]);
    }
  }

  /** Parsing an already-parsed id changes nothing. */
  lemma MainNodeIdIdempotent(id: string)
    ensures MainNodeId(MainNodeId(id)) == MainNodeId(id)
  {
    var r := MainNodeId(id);
    var m := |id| - |r|;
    LineEndOfSuffix(id, m);
    assert forall i | 0 <= i < LineEnd(r) :: r[i] == id[m + i];
    assert MatchLength(r, LineEnd(r)) == 0;
  }

  /** Dropping a prefix of the first line shortens the first line by as much. */
  lemma LineEndOfSuffix(s: string, m: nat)
    requires m <= LineEnd(s)
    ensures LineEnd(s[m..]) == LineEnd(s) - m
  {
    var t := s[m..];
    var n := LineEnd(s) - m;
    assert forall i | 0 <= i < n :: t[i] == s[m + i];
    assert n < |t| ==> t[n] == s[LineEnd(s)];
  }

  /** Every property skipped for groups is also skipped inside instances. */
  lemma GroupSkipsWithinInstanceSkips()
    ensures SkipGroupProps <= SkipInInstanceProps
  {
  }

  /** The factory, group/boolean and instance branches of the deserializer never overlap. */
  lemma FactoryTypesExcludeSpecialTypes()
    ensures FactoryTypes !! {"GROUP", "BOOLEAN_OPERATION", "INSTANCE"}
  {
  }

  /** The fields the serializer fills in by hand are excluded from reflection. */
  lemma HandledFieldsAreSkipped()
    ensures {"type", "children", "width", "height", "_fonts"} <= SkipAutoProps
  {
  }
}
