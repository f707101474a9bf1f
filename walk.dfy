/** walk and asyncWalk: a pre-order traversal of a node tree that calls a callback on every
    node, passes the value the callback returns on to the node's children as their context,
    and does not descend below a node whose callback returned `skipChildren`.  A run is
    described by the calls it makes, in order. */
module Walk {
  import opened Host

  /** What the callback returns: the `skipChildren` sentinel, or the context for the
      node's children. */
  datatype Step<C> = SkipChildren | Continue(context: C)

  /** One call of the callback: on the node at `path` (child indexes from the root), with
      the context it was given. */
  datatype Call<C> = Call(path: seq<nat>, node: LiveNode, context: C)

  /** The children of a node, `[]` when it has none. */
  function Children(node: LiveNode): seq<LiveNode>
  {
    match node.children
    case ChildNodes(kids) => kids
    case NoChildren => []
  }

  /** p is a path from `node` to one of its descendants (or to itself). */
  predicate ValidPath(node: LiveNode, p: seq<nat>)
    decreases |p|
  {
    p == [] || (p[0] < |Children(node)| && ValidPath(Children(node)[p[0]], p[1..]))
  }

  /** The node at the end of a valid path. */
  function NodeAt(node: LiveNode, p: seq<nat>): LiveNode
    requires ValidPath(node, p)
    decreases |p|
  {
    if p == [] then node else NodeAt(Children(node)[p[0]], p[1..])
  }

  predicate ProperPrefix(p: seq<nat>, q: seq<nat>)
  {
    |p| < |q| && q[..|p|] == p
  }

  /** The calls `walk(node, fn, context)` makes, when `node` is at `path`. */
  function Trace<C>(node: LiveNode, path: seq<nat>, fn: (LiveNode, C) -> Step<C>, context: C): (r: seq<Call<C>>)
    ensures r != [] && r[0] == Call(path, node, context)
    decreases node, 1
  {
    [Call(path, node, context)] +
      match fn(node, context)
      case SkipChildren => []
      case Continue(next) =>
        match node.children
        case ChildNodes(kids) => TraceFrom(node, kids, 0, path, fn, next)
        case NoChildren => []
  }

  /** The calls of the walks over kids[i..], each given `context`. */
  function TraceFrom<C>(node: LiveNode, kids: seq<LiveNode>, i: nat, path: seq<nat>,
                        fn: (LiveNode, C) -> Step<C>, context: C): seq<Call<C>>
    requires node.children == ChildNodes(kids) && i <= |kids|
    decreases node, 0, |kids| - i
  {
    if i == |kids| then []
    else Trace(kids[i], path + [i], fn, context) + TraceFrom(node, kids, i + 1, path, fn, context)
  }

  /** walk: calls fn on the node, stops at `skipChildren`, and otherwise walks each child in
      turn with the context fn returned. */
  method Walk<C>(node: LiveNode, path: seq<nat>, fn: (LiveNode, C) -> Step<C>, context: C)
    returns (calls: seq<Call<C>>)
    ensures calls == Trace(node, path, fn, context)
    decreases node
  {
    calls := [Call(path, node, context)];
    var step := fn(node, context);
    if step.SkipChildren? {
      return;
    }
    match node.children {
      case ChildNodes(kids) =>
        ghost var below := TraceFrom(node, kids, 0, path, fn, step.context);
        assert Trace(node, path, fn, context) == calls + below;
        for i := 0 to |kids|
          invariant calls + TraceFrom(node, kids, i, path, fn, step.context) == [Call(path, node, context)] + below
        {
          var sub := Walk(kids[i], path + [i], fn, step.context);
          ghost var rest := TraceFrom(node, kids, i + 1, path, fn, step.context);
          assert TraceFrom(node, kids, i, path, fn, step.context) == sub + rest;
          assert calls + (sub + rest) == (calls + sub) + rest;
          calls := calls + sub;
        }
      case NoChildren =>
    }
  }

  // ---------------------------------------------------------------------------------------
  // Where the calls go

  /** The call for a node below `path` is at a path that extends `path` and leads to it. */
  predicate Below<C>(node: LiveNode, path: seq<nat>, e: Call<C>)
  {
    |path| <= |e.path| && e.path[..|path|] == path
    && ValidPath(node, e.path[|path|..]) && NodeAt(node, e.path[|path|..]) == e.node
  }

  /** The call for a node below kids[k], k >= i, of the node at `path`. */
  predicate BelowKid<C>(kids: seq<LiveNode>, i: nat, path: seq<nat>, e: Call<C>)
  {
    |path| < |e.path| && e.path[..|path|] == path && i <= e.path[|path|] < |kids|
    && Below(kids[e.path[|path|]], path + [e.path[|path|]], e)
  }

  lemma {:induction false} TraceBelow<C>(node: LiveNode, path: seq<nat>, fn: (LiveNode, C) -> Step<C>, context: C)
    ensures forall e | e in Trace(node, path, fn, context) :: Below(node, path, e)
    decreases node, 1
  {
    var t := Trace(node, path, fn, context);
    assert path[|path|..] == [];
    match fn(node, context) {
      case SkipChildren =>
      case Continue(next) =>
        match node.children {
          case ChildNodes(kids) =>
            TraceFromBelow(node, kids, 0, path, fn, next);
            forall e | e in TraceFrom(node, kids, 0, path, fn, next)
              ensures Below(node, path, e)
            {
              var k := e.path[|path|];
              var rel := e.path[|path|..];
              assert e.path[..|path| + 1] == path + [k];
              assert rel[0] == k && rel[1..] == e.path[|path| + 1..];
              assert (path + [k])[..] == e.path[..|path| + 1];
              assert e.path[|path + [k]|..] == rel[1..];
            }
          case NoChildren =>
        }
    }
  }

  lemma {:induction false} TraceFromBelow<C>(node: LiveNode, kids: seq<LiveNode>, i: nat, path: seq<nat>,
                                             fn: (LiveNode, C) -> Step<C>, context: C)
    requires node.children == ChildNodes(kids) && i <= |kids|
    ensures forall e | e in TraceFrom(node, kids, i, path, fn, context) :: BelowKid(kids, i, path, e)
    decreases node, 0, |kids| - i
  {
    if i < |kids| {
      TraceBelow(kids[i], path + [i], fn, context);
      TraceFromBelow(node, kids, i + 1, path, fn, context);
      forall e | e in Trace(kids[i], path + [i], fn, context)
        ensures BelowKid(kids, i, path, e)
      {
        assert e.path[..|path| + 1] == path + [i];
        assert e.path[..|path|] == (path + [i])[..|path|];
        assert e.path[|path|] == (path + [i])[|path|];
      }
    }
  }

  /** A call belongs to the walk of kids[k] exactly when its path continues with k. */
  lemma TraceFromBlocks<C>(node: LiveNode, kids: seq<LiveNode>, i: nat, path: seq<nat>,
                           fn: (LiveNode, C) -> Step<C>, context: C, e: Call<C>)
    requires node.children == ChildNodes(kids) && i <= |kids|
    ensures e in TraceFrom(node, kids, i, path, fn, context) <==>
      exists k | i <= k < |kids| :: e in Trace(kids[k], path + [k], fn, context)
    ensures e in TraceFrom(node, kids, i, path, fn, context) ==>
      BelowKid(kids, i, path, e) && e in Trace(kids[e.path[|path|]], path + [e.path[|path|]], fn, context)
  {
    TraceFromMembers(node, kids, i, path, fn, context, e);
    if e in TraceFrom(node, kids, i, path, fn, context) {
      TraceFromBelow(node, kids, i, path, fn, context);
      var k :| i <= k < |kids| && e in Trace(kids[k], path + [k], fn, context);
      TraceBelow(kids[k], path + [k], fn, context);
      assert e.path[..|path| + 1] == path + [k];
      assert e.path[|path|] == (path + [k])[|path|];
    }
  }

  /** The calls of the walks over kids[i..] are those of the walks of each kids[k]. */
  lemma {:induction false} TraceFromMembers<C>(node: LiveNode, kids: seq<LiveNode>, i: nat, path: seq<nat>,
                                               fn: (LiveNode, C) -> Step<C>, context: C, e: Call<C>)
    requires node.children == ChildNodes(kids) && i <= |kids|
    ensures e in TraceFrom(node, kids, i, path, fn, context) <==>
      exists k | i <= k < |kids| :: e in Trace(kids[k], path + [k], fn, context)
    decreases |kids| - i
  {
    if i < |kids| {
      var first := Trace(kids[i], path + [i], fn, context);
      var rest := TraceFrom(node, kids, i + 1, path, fn, context);
      assert TraceFrom(node, kids, i, path, fn, context) == first + rest;
      TraceFromMembers(node, kids, i + 1, path, fn, context, e);
    }
  }

  // ---------------------------------------------------------------------------------------
  // Pre-order

  /** p comes before q in a pre-order traversal: q is below p, or they part ways at an index
      where p takes the earlier child. */
  predicate PathBefore(p: seq<nat>, q: seq<nat>)
  {
    ProperPrefix(p, q) || exists k | 0 <= k < |p| && k < |q| :: p[..k] == q[..k] && p[k] < q[k]
  }

  predicate InPreOrder<C>(calls: seq<Call<C>>)
  {
    forall a, b | 0 <= a < b < |calls| :: PathBefore(calls[a].path, calls[b].path)
  }

  lemma PathBeforeAsymmetric(p: seq<nat>, q: seq<nat>)
    requires PathBefore(p, q)
    ensures p != q && !PathBefore(q, p)
  {

  }

  lemma ConcatInPreOrder<C>(xs: seq<Call<C>>, ys: seq<Call<C>>)
    requires InPreOrder(xs) && InPreOrder(ys)
    requires forall x, y | x in xs && y in ys :: PathBefore(x.path, y.path)
    ensures InPreOrder(xs + ys)
  {
    var s := xs + ys;
    forall a, b | 0 <= a < b < |s|
      ensures PathBefore(s[a].path, s[b].path)
    {
      if b < |xs| {
        assert s[a] == xs[a] && s[b] == xs[b];
      } else if a >= |xs| {
        assert s[a] == ys[a - |xs|] && s[b] == ys[b - |xs|];
      } else {
        assert s[a] in xs && s[b] in ys;
      }
    }
  }

  lemma {:induction false} TraceInPreOrder<C>(node: LiveNode, path: seq<nat>, fn: (LiveNode, C) -> Step<C>, context: C)
    ensures InPreOrder(Trace(node, path, fn, context))
    decreases node, 1
  {
    match fn(node, context) {
      case SkipChildren =>
      case Continue(next) =>
        match node.children {
          case ChildNodes(kids) =>
            var rest := TraceFrom(node, kids, 0, path, fn, next);
            TraceFromInPreOrder(node, kids, 0, path, fn, next);
            TraceFromBelow(node, kids, 0, path, fn, next);
            forall y | y in rest
              ensures PathBefore(path, y.path)
            {
              assert ProperPrefix(path, y.path);
            }
            ConcatInPreOrder([Call(path, node, context)], rest);
          case NoChildren =>
        }
    }
  }

  lemma {:induction false} TraceFromInPreOrder<C>(node: LiveNode, kids: seq<LiveNode>, i: nat, path: seq<nat>,
                                                  fn: (LiveNode, C) -> Step<C>, context: C)
    requires node.children == ChildNodes(kids) && i <= |kids|
    ensures InPreOrder(TraceFrom(node, kids, i, path, fn, context))
    decreases node, 0, |kids| - i
  {
    if i < |kids| {
      var first := Trace(kids[i], path + [i], fn, context);
      var rest := TraceFrom(node, kids, i + 1, path, fn, context);
      TraceInPreOrder(kids[i], path + [i], fn, context);
      TraceFromInPreOrder(node, kids, i + 1, path, fn, context);
      TraceFromBelow(node, kids, i, path, fn, context);
      TraceFromBelow(node, kids, i + 1, path, fn, context);
      forall x, y | x in first && y in rest
        ensures PathBefore(x.path, y.path)
      {
        TraceBelow(kids[i], path + [i], fn, context);
        assert x.path[..|path| + 1] == path + [i];
        assert x.path[|path|] == (path + [i])[|path|];
        assert x.path[..|path|] == path == y.path[..|path|];
      }
      ConcatInPreOrder(first, rest);
    }
  }

  /** A subtree visited earlier is one that is reached through an earlier child. */
  lemma SiblingSubtreesBefore(p: seq<nat>, x: nat, y: nat, q: seq<nat>, q': seq<nat>)
    requires x < y
    ensures PathBefore(p + [x] + q, p + [y] + q')
  {
    var u, v := p + [x] + q, p + [y] + q';
    assert u[..|p|] == p == v[..|p|];
    assert u[|p|] == x && v[|p|] == y;
  }

  // ---------------------------------------------------------------------------------------
  // Contexts, skipping and coverage

  /** Only the first call of a walk is made at its starting path. */
  lemma TraceRootUnique<C>(node: LiveNode, path: seq<nat>, fn: (LiveNode, C) -> Step<C>, context: C, e: Call<C>)
    requires e in Trace(node, path, fn, context)
    ensures |path| <= |e.path|
    ensures e.path == path ==> e == Call(path, node, context)
  {
    TraceBelow(node, path, fn, context);
    if e != Call(path, node, context) {
      match fn(node, context) {
        case SkipChildren =>
        case Continue(next) =>
          match node.children {
            case ChildNodes(kids) =>
              TraceFromBelow(node, kids, 0, path, fn, next);
            case NoChildren =>
          }
      }
    }
  }

  /** Every call below the starting node got as its context what the callback returned on
      the node's parent. */
  lemma {:induction false} TraceThreadsContext<C>(node: LiveNode, path: seq<nat>, fn: (LiveNode, C) -> Step<C>, context: C)
    ensures forall e | e in Trace(node, path, fn, context) && |path| < |e.path| ::
      exists e' | e' in Trace(node, path, fn, context) ::
        e'.path == e.path[..|e.path| - 1] && fn(e'.node, e'.context) == Continue(e.context)
    decreases node
  {
    var t := Trace(node, path, fn, context);
    forall e | e in t && |path| < |e.path|
      ensures exists e' | e' in t ::
        e'.path == e.path[..|e.path| - 1] && fn(e'.node, e'.context) == Continue(e.context)
    {
      match fn(node, context) {
        case SkipChildren =>
        case Continue(next) =>
          match node.children {
            case ChildNodes(kids) =>
              TraceFromBlocks(node, kids, 0, path, fn, next, e);
              var k := e.path[|path|];
              var sub := Trace(kids[k], path + [k], fn, next);
              TraceFromBlocks(node, kids, 0, path, fn, next, e);
              TraceRootUnique(kids[k], path + [k], fn, next, e);
              if |path + [k]| < |e.path| {
                TraceThreadsContext(kids[k], path + [k], fn, next);
                var e' :| e' in sub && e'.path == e.path[..|e.path| - 1]
                  && fn(e'.node, e'.context) == Continue(e.context);
                TraceFromBlocks(node, kids, 0, path, fn, next, e');
                assert e' in t;
              } else {
                assert e.path == path + [k] by {
                  assert e.path[..|path| + 1] == path + [k];
                }
                assert e.path[..|e.path| - 1] == path;
                assert Call(path, node, context) in t;
              }
            case NoChildren =>
          }
      }
    }
  }

  lemma {:induction false} TraceSkipPrunes<C>(node: LiveNode, path: seq<nat>, fn: (LiveNode, C) -> Step<C>, context: C)
    ensures forall e, e' | e in Trace(node, path, fn, context) && e' in Trace(node, path, fn, context)
      && fn(e.node, e.context).SkipChildren? :: !ProperPrefix(e.path, e'.path)
    decreases node
  {
    var t := Trace(node, path, fn, context);
    forall e, e' | e in t && e' in t && fn(e.node, e.context).SkipChildren?
      ensures !ProperPrefix(e.path, e'.path)
    {
      TraceRootUnique(node, path, fn, context, e);
      TraceRootUnique(node, path, fn, context, e');
      match fn(node, context) {
        case SkipChildren =>
        case Continue(next) =>
          match node.children {
            case ChildNodes(kids) =>
              if e.path != path && e'.path != path && ProperPrefix(e.path, e'.path) {
                TraceFromBlocks(node, kids, 0, path, fn, next, e);
                TraceFromBlocks(node, kids, 0, path, fn, next, e');
                var k := e.path[|path|];
                assert e'.path[|path|] == k by {
                  assert e'.path[..|e.path|][|path|] == e'.path[|path|];
                }
                TraceSkipPrunes(kids[k], path + [k], fn, next);
              }
            case NoChildren =>
          }
      }
    }
  }

  /** When no call returns `skipChildren`, every node below the start is visited. */
  lemma {:induction false} TraceComplete<C>(node: LiveNode, path: seq<nat>, fn: (LiveNode, C) -> Step<C>, context: C,
                                            q: seq<nat>)
    requires forall e | e in Trace(node, path, fn, context) :: fn(e.node, e.context).Continue?
    requires ValidPath(node, q)
    ensures exists e | e in Trace(node, path, fn, context) :: e.path == path + q
    decreases |q|
  {
    var t := Trace(node, path, fn, context);
    if q == [] {
      assert t[0].path == path + q;
    } else {
      assert t[0] in t;
      var k := q[0];
      var next := fn(node, context).context;
      TraceChildWithin(node, path, fn, context, k);
      var sub := Trace(Children(node)[k], path + [k], fn, next);
      TraceComplete(Children(node)[k], path + [k], fn, next, q[1..]);
      var e :| e in sub && e.path == path + [k] + q[1..];
      assert path + [k] + q[1..] == path + q;
    }
  }

  /** When the callback continues at a node, the walk of each child is part of its walk. */
  lemma TraceChildWithin<C>(node: LiveNode, path: seq<nat>, fn: (LiveNode, C) -> Step<C>, context: C, k: nat)
    requires fn(node, context).Continue? && k < |Children(node)|
    ensures forall e | e in Trace(Children(node)[k], path + [k], fn, fn(node, context).context) ::
      e in Trace(node, path, fn, context)
  {
    var kids := node.children.nodes;
    var next := fn(node, context).context;
    forall e | e in Trace(kids[k], path + [k], fn, next)
      ensures e in Trace(node, path, fn, context)
    {
      TraceFromMembers(node, kids, 0, path, fn, next, e);
    }
  }

  // ---------------------------------------------------------------------------------------
  // A walk from the root

  /** The calls are made in pre-order of their paths: a node before its descendants, and the
      subtree of an earlier child before that of a later one.  In particular no node is
      called twice. */
  lemma WalkOrder<C>(root: LiveNode, fn: (LiveNode, C) -> Step<C>, context: C, calls: seq<Call<C>>)
    requires calls == Trace(root, [], fn, context)
    ensures forall a, b | 0 <= a < |calls| && 0 <= b < |calls| ::
      a < b <==> PathBefore(calls[a].path, calls[b].path)
    ensures forall a, b | 0 <= a < b < |calls| :: calls[a].path != calls[b].path
  {
    TraceInPreOrder(root, [], fn, context);
    forall a, b | 0 <= a < |calls| && 0 <= b < |calls|
      ensures (a < b <==> PathBefore(calls[a].path, calls[b].path))
      ensures a < b ==> calls[a].path != calls[b].path
    {
      if a < b {
        PathBeforeAsymmetric(calls[a].path, calls[b].path);
      } else if b < a {
        PathBeforeAsymmetric(calls[b].path, calls[a].path);
      }
    }
  }

  /** In a walk, every call reached through an earlier child of some node is made before
      every call reached through a later child of the same node. */
  lemma WalkSiblingSubtrees<C>(root: LiveNode, fn: (LiveNode, C) -> Step<C>, context: C,
                               a: nat, b: nat, p: seq<nat>, x: nat, y: nat, q: seq<nat>, q': seq<nat>)
    requires a < |Trace(root, [], fn, context)| && b < |Trace(root, [], fn, context)|
    requires Trace(root, [], fn, context)[a].path == p + [x] + q
    requires Trace(root, [], fn, context)[b].path == p + [y] + q'
    requires x < y
    ensures a < b
  {
    SiblingSubtreesBefore(p, x, y, q, q');
    WalkOrder(root, fn, context, Trace(root, [], fn, context));
  }

  /** Each call is on the node its path leads to; when no call returns `skipChildren`, every
      node of the tree is called (exactly once, by WalkOrder). */
  lemma WalkVisits<C>(root: LiveNode, fn: (LiveNode, C) -> Step<C>, context: C, calls: seq<Call<C>>)
    requires calls == Trace(root, [], fn, context)
    ensures forall a | 0 <= a < |calls| :: ValidPath(root, calls[a].path) && NodeAt(root, calls[a].path) == calls[a].node
    ensures (forall a | 0 <= a < |calls| :: fn(calls[a].node, calls[a].context).Continue?) ==>
      forall q | ValidPath(root, q) :: exists a | 0 <= a < |calls| :: calls[a].path == q
  {
    TraceBelow(root, [], fn, context);
    forall a | 0 <= a < |calls|
      ensures ValidPath(root, calls[a].path) && NodeAt(root, calls[a].path) == calls[a].node
    {
      assert calls[a] in calls;
      assert calls[a].path[0..] == calls[a].path;
    }
    if forall a | 0 <= a < |calls| :: fn(calls[a].node, calls[a].context).Continue? {
      forall q | ValidPath(root, q)
        ensures exists a | 0 <= a < |calls| :: calls[a].path == q
      {
        TraceComplete(root, [], fn, context, q);
        var e :| e in calls && e.path == [] + q;
        assert [] + q == q;
      }
    }
  }

  /** The first call is on the root with the initial context, and every other call is on a
      child of an earlier call's node, with the context the callback returned there. */
  lemma WalkContexts<C>(root: LiveNode, fn: (LiveNode, C) -> Step<C>, context: C, calls: seq<Call<C>>)
    requires calls == Trace(root, [], fn, context)
    ensures calls[0] == Call([], root, context)
    ensures forall b | 0 < b < |calls| :: calls[b].path != [] && exists a | 0 <= a < b ::
      calls[a].path == calls[b].path[..|calls[b].path| - 1]
      && fn(calls[a].node, calls[a].context) == Continue(calls[b].context)
  {
    forall b | 0 < b < |calls|
      ensures calls[b].path != [] && exists a | 0 <= a < b ::
        calls[a].path == calls[b].path[..|calls[b].path| - 1]
        && fn(calls[a].node, calls[a].context) == Continue(calls[b].context)
    {
      WalkParent(root, fn, context, calls, b);
    }
  }

  lemma WalkParent<C>(root: LiveNode, fn: (LiveNode, C) -> Step<C>, context: C, calls: seq<Call<C>>, b: nat)
    requires calls == Trace(root, [], fn, context) && 0 < b < |calls|
    ensures calls[b].path != [] && exists a | 0 <= a < b ::
      calls[a].path == calls[b].path[..|calls[b].path| - 1]
      && fn(calls[a].node, calls[a].context) == Continue(calls[b].context)
  {
    var e := calls[b];
    assert e in calls;
    assert e.path != [] by {
      TraceRootUnique(root, [], fn, context, e);
      WalkOrder(root, fn, context, calls);
      assert calls[0].path == [];
    }
    TraceThreadsContext(root, [], fn, context);
    var e' :| e' in calls && e'.path == e.path[..|e.path| - 1]
      && fn(e'.node, e'.context) == Continue(e.context);
    var a :| 0 <= a < |calls| && calls[a] == e';
    assert a < b by {
      assert ProperPrefix(calls[a].path, calls[b].path);
      assert PathBefore(calls[a].path, calls[b].path);
      WalkOrder(root, fn, context, calls);
    }
  }

  /** Nothing below a node whose callback returned `skipChildren` is called. */
  lemma WalkSkips<C>(root: LiveNode, fn: (LiveNode, C) -> Step<C>, context: C, calls: seq<Call<C>>)
    requires calls == Trace(root, [], fn, context)
    ensures forall a, b | 0 <= a < |calls| && 0 <= b < |calls| && fn(calls[a].node, calls[a].context).SkipChildren? ::
      !ProperPrefix(calls[a].path, calls[b].path)
  {
    TraceSkipPrunes(root, [], fn, context);
    forall a, b | 0 <= a < |calls| && 0 <= b < |calls| && fn(calls[a].node, calls[a].context).SkipChildren?
      ensures !ProperPrefix(calls[a].path, calls[b].path)
    {
      assert calls[a] in calls && calls[b] in calls;
    }
  }

  // ---------------------------------------------------------------------------------------
  // asyncWalk

  /** How the promise an async callback returns settles: rejected, or resolved with the
      `skipChildren` sentinel or a context. */
  datatype AsyncStep<C> = Rejects | Resolves(step: Step<C>)

  /** What asyncWalk does, in order: call the callback on a node, or settle the promise of
      the walk below the node at `path`. */
  datatype Progress<C> = Started(call: Call<C>) | Finished(path: seq<nat>)

  /** The events of a walk, and whether its promise resolved (false: it rejected). */
  datatype AsyncRun<C> = AsyncRun(events: seq<Progress<C>>, completed: bool)

  function PathOf<C>(ev: Progress<C>): seq<nat>
  {
    match ev
    case Started(c) => c.path
    case Finished(p) => p
  }

  /** p is q or one of its ancestors. */
  predicate Extends(p: seq<nat>, q: seq<nat>)
  {
    |p| <= |q| && q[..|p|] == p
  }

  /** asyncWalk(node, fn, context) for the node at `path`: each await either rejects, which
      rejects the whole walk at once, or resolves before anything else happens. */
  function AsyncTrace<C>(node: LiveNode, path: seq<nat>, fn: (LiveNode, C) -> AsyncStep<C>, context: C): (r: AsyncRun<C>)
    ensures r.events != [] && r.events[0] == Started(Call(path, node, context))
    decreases node, 1
  {
    var start := Started(Call(path, node, context));
    match fn(node, context)
    case Rejects => AsyncRun([start], false)
    case Resolves(SkipChildren) => AsyncRun([start, Finished(path)], true)
    case Resolves(Continue(next)) =>
      match node.children
      case NoChildren => AsyncRun([start, Finished(path)], true)
      case ChildNodes(kids) =>
        var inner := AsyncTraceFrom(node, kids, 0, path, fn, next);
        if inner.completed then AsyncRun([start] + inner.events + [Finished(path)], true)
        else AsyncRun([start] + inner.events, false)
  }

  /** The awaited walks over kids[i..], stopping at the first that rejects. */
  function AsyncTraceFrom<C>(node: LiveNode, kids: seq<LiveNode>, i: nat, path: seq<nat>,
                             fn: (LiveNode, C) -> AsyncStep<C>, context: C): AsyncRun<C>
    requires node.children == ChildNodes(kids) && i <= |kids|
    decreases node, 0, |kids| - i
  {
    if i == |kids| then AsyncRun([], true)
    else
      var first := AsyncTrace(kids[i], path + [i], fn, context);
      if !first.completed then first
      else
        var rest := AsyncTraceFrom(node, kids, i + 1, path, fn, context);
        AsyncRun(first.events + rest.events, rest.completed)
  }

  /** asyncWalk: awaits the callback, stops at `skipChildren`, and otherwise awaits the walk
      of each child in turn; a rejection ends the walk with that rejection. */
  method AsyncWalk<C>(node: LiveNode, path: seq<nat>, fn: (LiveNode, C) -> AsyncStep<C>, context: C)
    returns (events: seq<Progress<C>>, completed: bool)
    ensures AsyncRun(events, completed) == AsyncTrace(node, path, fn, context)
    decreases node
  {
    events := [Started(Call(path, node, context))];
    var step := fn(node, context);
    if step.Rejects? {
      completed := false;
      return;
    }
    if step.step.SkipChildren? {
      events := events + [Finished(path)];
      completed := true;
      return;
    }
    var next := step.step.context;
    match node.children {
      case ChildNodes(kids) =>
        var inner: seq<Progress<C>> := [];
        var i := 0;
        while i < |kids|
          invariant i <= |kids|
          invariant AsyncTraceFrom(node, kids, 0, path, fn, next)
            == AsyncRun(inner + AsyncTraceFrom(node, kids, i, path, fn, next).events,
                        AsyncTraceFrom(node, kids, i, path, fn, next).completed)
        {
          var sub, ok := AsyncWalk(kids[i], path + [i], fn, next);
          if !ok {
            inner := inner + sub;
            events := events + inner;
            completed := false;
            return;
          }
          ghost var rest := AsyncTraceFrom(node, kids, i + 1, path, fn, next);
          assert AsyncTraceFrom(node, kids, i, path, fn, next) == AsyncRun(sub + rest.events, rest.completed);
          assert inner + (sub + rest.events) == (inner + sub) + rest.events;
          inner := inner + sub;
          i := i + 1;
        }
        events := events + inner + [Finished(path)];
        completed := true;
      case NoChildren =>
        events := events + [Finished(path)];
        completed := true;
    }
  }

  // ---------------------------------------------------------------------------------------
  // asyncWalk calls the callback as walk does

  /** The callback calls among the events, in order. */
  function Starts<C>(events: seq<Progress<C>>): seq<Call<C>>
  {
    if events == [] then []
    else (if events[0].Started? then [events[0].call] else []) + Starts(events[1..])
  }

  lemma {:induction false} StartsAppend<C>(xs: seq<Progress<C>>, ys: seq<Progress<C>>)
    ensures Starts(xs + ys) == Starts(xs) + Starts(ys)
    decreases |xs|
  {
    if xs == [] {
      assert xs + ys == ys;
    } else {
      assert (xs + ys)[0] == xs[0];
      assert (xs + ys)[1..] == xs[1..] + ys;
      StartsAppend(xs[1..], ys);
    }
  }

  ghost predicate IsPrefix<T>(p: seq<T>, q: seq<T>)
  {
    |p| <= |q| && q[..|p|] == p
  }

  /** The synchronous callback a settled promise amounts to: a rejection ends the walk, so
      nothing below the node is visited. */
  function Settle<C>(a: AsyncStep<C>): Step<C>
  {
    match a
    case Rejects => SkipChildren
    case Resolves(s) => s
  }

  function Settled<C>(fn: (LiveNode, C) -> AsyncStep<C>): (LiveNode, C) -> Step<C>
  {
    (n: LiveNode, c: C) => Settle(fn(n, c))
  }

  /** asyncWalk makes the calls walk makes, in the same order, up to and including the first
      call whose promise rejects, and all of them when none rejects. */
  ghost predicate StartsLikeWalk<C>(r: AsyncRun<C>, node: LiveNode, path: seq<nat>, fn: (LiveNode, C) -> AsyncStep<C>, context: C)
  {
    var calls := Starts(r.events);
    IsPrefix(calls, Trace(node, path, Settled(fn), context))
    && (r.completed ==> calls == Trace(node, path, Settled(fn), context))
    && forall k | 0 <= k < |calls| :: fn(calls[k].node, calls[k].context).Rejects? <==> (!r.completed && k == |calls| - 1)
  }

  /** The same for the walks over kids[i..]. */
  ghost predicate StartsLikeWalkFrom<C>(r: AsyncRun<C>, node: LiveNode, kids: seq<LiveNode>, i: nat, path: seq<nat>,
                                  fn: (LiveNode, C) -> AsyncStep<C>, context: C)
    requires node.children == ChildNodes(kids) && i <= |kids|
  {
    var calls := Starts(r.events);
    IsPrefix(calls, TraceFrom(node, kids, i, path, Settled(fn), context))
    && (r.completed ==> calls == TraceFrom(node, kids, i, path, Settled(fn), context))
    && (!r.completed ==> calls != [])
    && forall k | 0 <= k < |calls| :: fn(calls[k].node, calls[k].context).Rejects? <==> (!r.completed && k == |calls| - 1)
  }

  lemma {:induction false} AsyncTraceStarts<C>(node: LiveNode, path: seq<nat>, fn: (LiveNode, C) -> AsyncStep<C>, context: C)
    ensures StartsLikeWalk(AsyncTrace(node, path, fn, context), node, path, fn, context)
    decreases node, 1
  {
    var r := AsyncTrace(node, path, fn, context);
    var call := Call(path, node, context);
    var t := Trace(node, path, Settled(fn), context);
    assert Settled(fn)(node, context) == Settle(fn(node, context));
    match fn(node, context) {
      case Rejects =>
        assert Starts(r.events) == [call];
      case Resolves(SkipChildren) =>
        assert Starts(r.events) == [call] by {
          StartsAppend([Started(call)], [Finished(path)]);
        }
      case Resolves(Continue(next)) =>
        match node.children {
          case NoChildren =>
            assert Starts(r.events) == [call] by {
              StartsAppend([Started(call)], [Finished(path)]);
            }
          case ChildNodes(kids) =>
            var inner := AsyncTraceFrom(node, kids, 0, path, fn, next);
            AsyncTraceFromStarts(node, kids, 0, path, fn, next);
            var rest := TraceFrom(node, kids, 0, path, Settled(fn), next);
            assert t == [call] + rest;
            StartsAppend([Started(call)], inner.events);
            if inner.completed {
              StartsAppend([Started(call)] + inner.events, [Finished(path)]);
            }
            assert Starts(r.events) == [call] + Starts(inner.events);
            StartsConcat(fn, [call], Starts(inner.events), rest, inner.completed);
        }
    }
  }

  /** The calls of a walk that resolved, followed by those of later walks. */
  lemma StartsConcat<C>(fn: (LiveNode, C) -> AsyncStep<C>, xs: seq<Call<C>>, ys: seq<Call<C>>,
                        tys: seq<Call<C>>, completed: bool)
    requires forall k | 0 <= k < |xs| :: !fn(xs[k].node, xs[k].context).Rejects?
    requires forall k | 0 <= k < |ys| :: fn(ys[k].node, ys[k].context).Rejects? <==> (!completed && k == |ys| - 1)
    requires !completed ==> ys != []
    requires IsPrefix(ys, tys)
    ensures IsPrefix(xs + ys, xs + tys)
    ensures forall k | 0 <= k < |xs + ys| ::
      fn((xs + ys)[k].node, (xs + ys)[k].context).Rejects? <==> (!completed && k == |xs + ys| - 1)
  {
    var calls := xs + ys;
    forall k | 0 <= k < |calls|
      ensures fn(calls[k].node, calls[k].context).Rejects? <==> (!completed && k == |calls| - 1)
    {
      if k < |xs| {
        assert calls[k] == xs[k];
      } else {
        assert calls[k] == ys[k - |xs|];
      }
    }
    assert (xs + tys)[..|calls|] == xs + tys[..|ys|];
  }

  lemma {:induction false} AsyncTraceFromStarts<C>(node: LiveNode, kids: seq<LiveNode>, i: nat, path: seq<nat>,
                                                   fn: (LiveNode, C) -> AsyncStep<C>, context: C)
    requires node.children == ChildNodes(kids) && i <= |kids|
    ensures StartsLikeWalkFrom(AsyncTraceFrom(node, kids, i, path, fn, context), node, kids, i, path, fn, context)
    decreases node, 0, |kids| - i
  {
    if i < |kids| {
      var first := AsyncTrace(kids[i], path + [i], fn, context);
      var t := Trace(kids[i], path + [i], Settled(fn), context);
      var rest := TraceFrom(node, kids, i + 1, path, Settled(fn), context);
      assert TraceFrom(node, kids, i, path, Settled(fn), context) == t + rest;
      AsyncTraceStarts(kids[i], path + [i], fn, context);
      assert Starts(first.events) != [] by {
        assert first.events == [first.events[0]] + first.events[1..];
        StartsAppend([first.events[0]], first.events[1..]);
      }
      if first.completed {
        var r := AsyncTraceFrom(node, kids, i + 1, path, fn, context);
        AsyncTraceFromStarts(node, kids, i + 1, path, fn, context);
        StartsAppend(first.events, r.events);
        StartsConcat(fn, Starts(first.events), Starts(r.events), rest, r.completed);
      }
    }
  }

  // ---------------------------------------------------------------------------------------
  // asyncWalk finishes each subtree before it starts the next

  /** Before a call on a node that is not below an earlier called node, the walk of that
      earlier node has finished. */
  ghost predicate FinishesBeforeNext<C>(s: seq<Progress<C>>)
  {
    forall a, b | 0 <= a < b < |s| && s[a].Started? && s[b].Started? && !ProperPrefix(s[a].call.path, s[b].call.path) ::
      exists f | a < f < b :: s[f] == Finished(s[a].call.path)
  }

  /** Once the walk of a node has finished, nothing at or below it is called. */
  ghost predicate NothingBelowAfterFinish<C>(s: seq<Progress<C>>)
  {
    forall f, b | 0 <= f < b < |s| && s[f].Finished? && s[b].Started? :: !Extends(s[f].path, s[b].call.path)
  }

  /** Every walk that started has finished. */
  ghost predicate FinishesAll<C>(s: seq<Progress<C>>)
  {
    forall a | 0 <= a < |s| && s[a].Started? :: exists f | a < f < |s| :: s[f] == Finished(s[a].call.path)
  }

  ghost predicate Nested<C>(r: AsyncRun<C>)
  {
    FinishesBeforeNext(r.events) && NothingBelowAfterFinish(r.events) && (r.completed ==> FinishesAll(r.events))
  }

  lemma ConcatFinishesBeforeNext<C>(xs: seq<Progress<C>>, ys: seq<Progress<C>>)
    requires FinishesBeforeNext(xs) && FinishesAll(xs) && FinishesBeforeNext(ys)
    ensures FinishesBeforeNext(xs + ys)
  {
    var s := xs + ys;
    forall a, b | 0 <= a < b < |s| && s[a].Started? && s[b].Started? && !ProperPrefix(s[a].call.path, s[b].call.path)
      ensures exists f | a < f < b :: s[f] == Finished(s[a].call.path)
    {
      if b < |xs| {
        assert s[a] == xs[a] && s[b] == xs[b];
        var f :| a < f < b && xs[f] == Finished(xs[a].call.path);
        assert s[f] == xs[f];
      } else if a < |xs| {
        assert s[a] == xs[a];
        var f :| a < f < |xs| && xs[f] == Finished(xs[a].call.path);
        assert s[f] == xs[f];
      } else {
        var a', b' := a - |xs|, b - |xs|;
        assert s[a] == ys[a'] && s[b] == ys[b'];
        var f :| a' < f < b' && ys[f] == Finished(ys[a'].call.path);
        assert s[f + |xs|] == ys[f];
      }
    }
  }

  lemma ConcatNothingBelowAfterFinish<C>(xs: seq<Progress<C>>, ys: seq<Progress<C>>)
    requires NothingBelowAfterFinish(xs) && NothingBelowAfterFinish(ys)
    requires forall x, y | x in xs && y in ys && x.Finished? && y.Started? :: !Extends(x.path, y.call.path)
    ensures NothingBelowAfterFinish(xs + ys)
  {
    var s := xs + ys;
    forall f, b | 0 <= f < b < |s| && s[f].Finished? && s[b].Started?
      ensures !Extends(s[f].path, s[b].call.path)
    {
      if b < |xs| {
        assert s[f] == xs[f] && s[b] == xs[b];
      } else if f < |xs| {
        assert s[f] in xs && s[b] in ys;
      } else {
        assert s[f] == ys[f - |xs|] && s[b] == ys[b - |xs|];
      }
    }
  }

  lemma ConcatFinishesAll<C>(xs: seq<Progress<C>>, ys: seq<Progress<C>>)
    requires FinishesAll(xs) && FinishesAll(ys)
    ensures FinishesAll(xs + ys)
  {
    var s := xs + ys;
    forall a | 0 <= a < |s| && s[a].Started?
      ensures exists f | a < f < |s| :: s[f] == Finished(s[a].call.path)
    {
      if a < |xs| {
        assert s[a] == xs[a];
        var f :| a < f < |xs| && xs[f] == Finished(xs[a].call.path);
        assert s[f] == xs[f];
      } else {
        assert s[a] == ys[a - |xs|];
        var f :| a - |xs| < f < |ys| && ys[f] == Finished(ys[a - |xs|].call.path);
        assert s[f + |xs|] == ys[f];
      }
    }
  }

  /** Wrapping the events of the children's walks in the node's own start and finish. */
  lemma WrapNested<C>(c: Call<C>, inner: seq<Progress<C>>, completed: bool)
    requires FinishesBeforeNext(inner) && NothingBelowAfterFinish(inner)
    requires completed ==> FinishesAll(inner)
    requires forall ev | ev in inner :: ProperPrefix(c.path, PathOf(ev))
    ensures Nested(AsyncRun(if completed then [Started(c)] + inner + [Finished(c.path)] else [Started(c)] + inner, completed))
  {
    var tail := if completed then [Finished(c.path)] else [];
    var s := [Started(c)] + inner + tail;
    assert s == if completed then [Started(c)] + inner + [Finished(c.path)] else [Started(c)] + inner;
    WrapFinishesBeforeNext(c, inner, tail);
    WrapNothingBelowAfterFinish(c, inner, tail);
    if completed {
      WrapFinishesAll(c, inner);
    }
  }

  lemma WrapFinishesBeforeNext<C>(c: Call<C>, inner: seq<Progress<C>>, tail: seq<Progress<C>>)
    requires FinishesBeforeNext(inner)
    requires forall ev | ev in inner :: ProperPrefix(c.path, PathOf(ev))
    requires tail == [] || tail == [Finished(c.path)]
    ensures FinishesBeforeNext([Started(c)] + inner + tail)
  {
    var s := [Started(c)] + inner + tail;
    assert s[0] == Started(c);
    assert forall k | 1 <= k <= |inner| :: s[k] == inner[k - 1];
    assert tail != [] ==> s[|s| - 1].Finished?;
    forall a, b | 0 <= a < b < |s| && s[a].Started? && s[b].Started? && !ProperPrefix(s[a].call.path, s[b].call.path)
      ensures exists f | a < f < b :: s[f] == Finished(s[a].call.path)
    {
      assert inner[b - 1] in inner;
      if a != 0 {
        var f :| a - 1 < f < b - 1 && inner[f] == Finished(inner[a - 1].call.path);
        assert s[f + 1] == inner[f];
      }
    }
  }

  lemma WrapNothingBelowAfterFinish<C>(c: Call<C>, inner: seq<Progress<C>>, tail: seq<Progress<C>>)
    requires NothingBelowAfterFinish(inner)
    requires tail == [] || tail == [Finished(c.path)]
    ensures NothingBelowAfterFinish([Started(c)] + inner + tail)
  {
    var s := [Started(c)] + inner + tail;
    forall f, b | 0 <= f < b < |s| && s[f].Finished? && s[b].Started?
      ensures !Extends(s[f].path, s[b].call.path)
    {
      assert 0 < f && b - 1 < |inner|;
      assert s[f] == inner[f - 1] && s[b] == inner[b - 1];
    }
  }

  lemma WrapFinishesAll<C>(c: Call<C>, inner: seq<Progress<C>>)
    requires FinishesAll(inner)
    ensures FinishesAll([Started(c)] + inner + [Finished(c.path)])
  {
    var s := [Started(c)] + inner + [Finished(c.path)];
    forall a | 0 <= a < |s| && s[a].Started?
      ensures exists f | a < f < |s| :: s[f] == Finished(s[a].call.path)
    {
      if a == 0 {
        assert s[|s| - 1] == Finished(c.path);
      } else {
        assert s[a] == inner[a - 1];
        var f :| a - 1 < f < |inner| && inner[f] == Finished(inner[a - 1].call.path);
        assert s[f + 1] == inner[f];
      }
    }
  }

  lemma ExtendsChild(path: seq<nat>, i: nat, q: seq<nat>)
    requires Extends(path + [i], q)
    ensures ProperPrefix(path, q) && q[|path|] == i
  {
    assert q[..|path|] == q[..|path| + 1][..|path|];
    assert q[|path|] == q[..|path| + 1][|path|];
  }

  lemma DivergedNotExtends(p: seq<nat>, q: seq<nat>, k: nat)
    requires k < |p| && k < |q| && p[k] != q[k]
    ensures !Extends(p, q)
  {
  }

  lemma {:induction false} AsyncTraceNested<C>(node: LiveNode, path: seq<nat>, fn: (LiveNode, C) -> AsyncStep<C>, context: C)
    ensures Nested(AsyncTrace(node, path, fn, context))
    ensures forall ev | ev in AsyncTrace(node, path, fn, context).events :: Extends(path, PathOf(ev))
    decreases node, 1
  {
    var r := AsyncTrace(node, path, fn, context);
    var call := Call(path, node, context);
    match fn(node, context) {
      case Rejects =>
      case Resolves(SkipChildren) =>
        WrapNested(call, [], true);
        assert r.events == [Started(call)] + [] + [Finished(path)];
      case Resolves(Continue(next)) =>
        match node.children {
          case NoChildren =>
            WrapNested(call, [], true);
            assert r.events == [Started(call)] + [] + [Finished(path)];
          case ChildNodes(kids) =>
            var inner := AsyncTraceFrom(node, kids, 0, path, fn, next);
            AsyncTraceFromNested(node, kids, 0, path, fn, next);
            WrapNested(call, inner.events, inner.completed);
        }
    }
  }

  lemma {:induction false} AsyncTraceFromNested<C>(node: LiveNode, kids: seq<LiveNode>, i: nat, path: seq<nat>,
                                                   fn: (LiveNode, C) -> AsyncStep<C>, context: C)
    requires node.children == ChildNodes(kids) && i <= |kids|
    ensures Nested(AsyncTraceFrom(node, kids, i, path, fn, context))
    ensures forall ev | ev in AsyncTraceFrom(node, kids, i, path, fn, context).events ::
      ProperPrefix(path, PathOf(ev)) && i <= PathOf(ev)[|path|]
    decreases node, 0, |kids| - i
  {
    if i < |kids| {
      var first := AsyncTrace(kids[i], path + [i], fn, context);
      AsyncTraceNested(kids[i], path + [i], fn, context);
      forall ev | ev in first.events
        ensures ProperPrefix(path, PathOf(ev)) && PathOf(ev)[|path|] == i
      {
        ExtendsChild(path, i, PathOf(ev));
      }
      if first.completed {
        var rest := AsyncTraceFrom(node, kids, i + 1, path, fn, context);
        AsyncTraceFromNested(node, kids, i + 1, path, fn, context);
        ConcatFinishesBeforeNext(first.events, rest.events);
        forall x, y | x in first.events && y in rest.events && x.Finished? && y.Started?
          ensures !Extends(x.path, y.call.path)
        {
          assert PathOf(x) == x.path && PathOf(y) == y.call.path;
          DivergedNotExtends(x.path, y.call.path, |path|);
        }
        ConcatNothingBelowAfterFinish(first.events, rest.events);
        if rest.completed {
          ConcatFinishesAll(first.events, rest.events);
        }
      }
    }
  }
}
