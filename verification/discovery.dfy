/** `discover_all_functions_parallel` of ida_mcp_export.py: breadth-first discovery of a
    call graph, a level at a time, each level's results arriving in any order. */
module Discovery {

  /** A function to visit: its canonical address key, its distance from the root and the
      function it was found from. */
  datatype Info<K> = Info(key: K, depth: nat, parent: K)

  /** What looking at one function gives: its outgoing edges in order, or a failure with the text of
      its exception, which the loop takes for success when it is empty. */
  datatype Found<K> = Edges(callees: seq<K>) | Failed(error: string)

  datatype Edge<K> = Edge(caller: K, callee: K, duplicate: bool)

  /** The call graph as the workers see it. */
  type Graph<!K> = K -> Found<K>

  /** The failures that are listed. */
  predicate Listed<K>(found: Found<K>) {
    found.Failed? && found.error != ""
  }

  /** The callees a function contributes: a failed one contributes none. */
  function Callees<K>(g: Graph<K>, key: K): seq<K> {
    match g(key)
    case Edges(callees) => callees
    case Failed(_) => []
  }

  /** Everything the level loop builds up. */
  datatype State<K> = State(
    discovered: seq<Info<K>>, edges: seq<Edge<K>>, failures: seq<K>, seen: set<K>, next: seq<Info<K>>)

  /** One edge of one parent. */
  function AddEdge<K(==)>(s: State<K>, parent: Info<K>, callee: K): State<K> {
    var duplicate := callee in s.seen;
    var t := s.(edges := s.edges + [Edge(parent.key, callee, duplicate)]);
    if duplicate then t
    else
      var child := Info(callee, parent.depth + 1, parent.key);
      t.(seen := t.seen + {callee}, discovered := t.discovered + [child], next := t.next + [child])
  }

  function AddEdges<K(==)>(s: State<K>, parent: Info<K>, callees: seq<K>): State<K>
    decreases |callees|
  {
    if callees == [] then s
    else AddEdge(AddEdges(s, parent, callees[..|callees| - 1]), parent, callees[|callees| - 1])
  }

  /** The result of one parent of the level, taken in frontier order. */
  function AddParent<K(==)>(s: State<K>, parent: Info<K>, found: Found<K>): State<K> {
    match found
    case Failed(error) => if error != "" then s.(failures := s.failures + [parent.key]) else s
    case Edges(callees) => AddEdges(s, parent, callees)
  }

  function AddLevel<K(==)>(g: Graph<K>, s: State<K>, frontier: seq<Info<K>>): State<K>
    decreases |frontier|
  {
    if frontier == [] then s
    else
      var parent := frontier[|frontier| - 1];
      AddParent(AddLevel(g, s, frontier[..|frontier| - 1]), parent, g(parent.key))
  }

  function Start<K(==)>(root: K): State<K> {
    State([Info(root, 0, root)], [], [], {root}, [Info(root, 0, root)])
  }

  /** The state after n levels; `next` is the frontier of level n. */
  function Levels<K(==)>(g: Graph<K>, root: K, n: nat): State<K> {
    if n == 0 then Start(root)
    else
      var s := Levels(g, root, n - 1);
      AddLevel(g, s.(next := []), s.next)
  }

  // What the state means.

  /** k is at most n calls away from the root. */
  ghost predicate Within<K(!new)>(g: Graph<K>, root: K, n: nat, k: K) {
    if n == 0 then k == root
    else Within(g, root, n - 1, k) || exists p :: Within(g, root, n - 1, p) && k in Callees(g, p)
  }

  ghost function KeySet<K>(xs: seq<Info<K>>): set<K> {
    set x | x in xs :: x.key
  }

  ghost predicate DistinctKeys<K>(xs: seq<Info<K>>) {
    forall i, j :: 0 <= i < j < |xs| ==> xs[i].key != xs[j].key
  }

  /** The edges that brought a new function in. */
  ghost function TreeEdges<K>(edges: seq<Edge<K>>): seq<Edge<K>> {
    if edges == [] then []
    else TreeEdges(edges[..|edges| - 1]) + if edges[|edges| - 1].duplicate then [] else [edges[|edges| - 1]]
  }

  ghost function ParentEdges<K>(xs: seq<Info<K>>): seq<Edge<K>> {
    seq(|xs|, i requires 0 <= i < |xs| => Edge(xs[i].parent, xs[i].key, false))
  }

  ghost function Pairs<K>(edges: seq<Edge<K>>): seq<(K, K)> {
    seq(|edges|, i requires 0 <= i < |edges| => (edges[i].caller, edges[i].callee))
  }

  /** t is s with the functions `added` brought in, each new and each once, and the calls
      `pairs` recorded; among the edges exactly those that brought in `added` are not
      marked duplicate. */
  ghost predicate Extends<K>(s: State<K>, t: State<K>, added: seq<Info<K>>, pairs: seq<(K, K)>) {
    && t.discovered == s.discovered + added && t.next == s.next + added
    && t.seen == s.seen + KeySet(added)
    && DistinctKeys(added) && KeySet(added) !! s.seen
    && TreeEdges(t.edges) == TreeEdges(s.edges) + ParentEdges(added)
    && Pairs(t.edges) == Pairs(s.edges) + pairs
  }

  lemma KeySetConcat<K>(xs: seq<Info<K>>, ys: seq<Info<K>>)
    ensures KeySet(xs + ys) == KeySet(xs) + KeySet(ys)
  {
  }

  lemma ExtendsSelf<K>(s: State<K>)
    ensures Extends(s, s, [], [])
  {
    assert s.discovered + [] == s.discovered && s.next + [] == s.next;
    assert TreeEdges(s.edges) + ParentEdges<K>([]) == TreeEdges(s.edges);
  }

  lemma ExtendsCompose<K>(s: State<K>, t: State<K>, u: State<K>, xs: seq<Info<K>>, ys: seq<Info<K>>, p: seq<(K, K)>, q: seq<(K, K)>)
    requires Extends(s, t, xs, p) && Extends(t, u, ys, q)
    ensures Extends(s, u, xs + ys, p + q)
  {
    KeySetConcat(xs, ys);
    forall i, j | 0 <= i < |xs| && 0 <= j < |ys|
      ensures xs[i].key != ys[j].key
    {
      assert xs[i].key in KeySet(xs) && ys[j].key in KeySet(ys);
    }
    assert ParentEdges(xs + ys) == ParentEdges(xs) + ParentEdges(ys);
  }

  /** A function brought in was called from a frontier function one call nearer the root. */
  ghost predicate From<K>(g: Graph<K>, added: seq<Info<K>>, frontier: seq<Info<K>>) {
    forall x :: x in added ==>
      exists p :: p in frontier && x.parent == p.key && x.depth == p.depth + 1 && x.key in Callees(g, p.key)
  }

  lemma AddEdgeExtends<K>(s: State<K>, parent: Info<K>, callee: K) returns (added: seq<Info<K>>)
    ensures var t := AddEdge(s, parent, callee);
      Extends(s, t, added, [(parent.key, callee)]) && t.seen == s.seen + {callee} && t.failures == s.failures
    ensures added == [] || added == [Info(callee, parent.depth + 1, parent.key)]
  {
    var t := AddEdge(s, parent, callee);
    added := if callee in s.seen then [] else [Info(callee, parent.depth + 1, parent.key)];
    var e := Edge(parent.key, callee, callee in s.seen);
    assert t.edges[..|s.edges|] == s.edges;
    assert s.discovered + [] == s.discovered && s.next + [] == s.next;
    assert TreeEdges(s.edges) + [] == TreeEdges(s.edges);
    if added != [] {
      assert KeySet(added) == {callee};
      assert ParentEdges(added) == [e];
    } else {
      assert s.seen + {callee} == s.seen;
    }
  }

  ghost function CallPairs<K>(caller: K, callees: seq<K>): seq<(K, K)> {
    seq(|callees|, i requires 0 <= i < |callees| => (caller, callees[i]))
  }

  lemma {:induction false} AddEdgesExtends<K>(g: Graph<K>, s: State<K>, parent: Info<K>, callees: seq<K>, all: seq<K>)
    returns (added: seq<Info<K>>)
    requires g(parent.key) == Edges(all) && callees <= all
    ensures var t := AddEdges(s, parent, callees);
      && Extends(s, t, added, CallPairs(parent.key, callees)) && From(g, added, [parent])
      && t.seen == s.seen + (set c | c in callees) && t.failures == s.failures
    decreases |callees|
  {
    hide Extends, AddEdge, From;
    if callees == [] {
      added := [];
      ExtendsSelf(s);
      FromNothing(g, parent);
      assert CallPairs(parent.key, callees) == [];
      assert s.seen + (set c | c in callees) == s.seen;
    } else {
      var front, c := callees[..|callees| - 1], callees[|callees| - 1];
      var t := AddEdges(s, parent, front);
      var xs := AddEdgesExtends(g, s, parent, front, all);
      var ys := AddEdgeExtends(t, parent, c);
      added := xs + ys;
      ExtendsCompose(s, t, AddEdge(t, parent, c), xs, ys, CallPairs(parent.key, front), [(parent.key, c)]);
      assert CallPairs(parent.key, callees) == CallPairs(parent.key, front) + [(parent.key, c)];
      assert callees == front + [c];
      assert (set x | x in callees) == (set x | x in front) + {c};
      assert c == all[|callees| - 1];
      FromOne(g, xs, ys, parent, c);
    }
  }

  lemma FromNothing<K>(g: Graph<K>, p: Info<K>)
    ensures From(g, [], [p])
  {
  }

  lemma FromOne<K>(g: Graph<K>, xs: seq<Info<K>>, ys: seq<Info<K>>, p: Info<K>, c: K)
    requires From(g, xs, [p]) && c in Callees(g, p.key)
    requires ys == [] || ys == [Info(c, p.depth + 1, p.key)]
    ensures From(g, xs + ys, [p])
  {
    assert p in [p];
  }

  /** Every call of every frontier function, in order. */
  ghost function LevelPairs<K>(g: Graph<K>, frontier: seq<Info<K>>): seq<(K, K)> {
    if frontier == [] then []
    else
      var p := frontier[|frontier| - 1];
      LevelPairs(g, frontier[..|frontier| - 1]) + CallPairs(p.key, Callees(g, p.key))
  }

  ghost function LevelFailures<K>(g: Graph<K>, frontier: seq<Info<K>>): seq<K> {
    if frontier == [] then []
    else
      var p := frontier[|frontier| - 1];
      LevelFailures(g, frontier[..|frontier| - 1]) + if Listed(g(p.key)) then [p.key] else []
  }

  lemma {:induction false} AddLevelExtends<K>(g: Graph<K>, s: State<K>, frontier: seq<Info<K>>) returns (added: seq<Info<K>>)
    ensures var t := AddLevel(g, s, frontier);
      && Extends(s, t, added, LevelPairs(g, frontier)) && From(g, added, frontier)
      && t.failures == s.failures + LevelFailures(g, frontier)
      && (forall k :: k in t.seen <==> k in s.seen || exists p :: p in frontier && k in Callees(g, p.key))
    decreases |frontier|
  {
    if frontier == [] {
      added := [];
      ExtendsSelf(s);
      assert s.failures + [] == s.failures;
    } else {
      var front, p := frontier[..|frontier| - 1], frontier[|frontier| - 1];
      assert frontier == front + [p];
      var t := AddLevel(g, s, front);
      var xs := AddLevelExtends(g, s, front);
      var u := AddParent(t, p, g(p.key));
      var ys := AddParentExtends(g, t, p);
      added := xs + ys;
      ExtendsCompose(s, t, u, xs, ys, LevelPairs(g, front), CallPairs(p.key, Callees(g, p.key)));
      FromConcat(g, xs, front, ys, p, frontier);
    }
  }

  lemma FromConcat<K>(g: Graph<K>, xs: seq<Info<K>>, front: seq<Info<K>>, ys: seq<Info<K>>, p: Info<K>, frontier: seq<Info<K>>)
    requires From(g, xs, front) && From(g, ys, [p]) && frontier == front + [p]
    ensures From(g, xs + ys, frontier)
  {
    forall x | x in xs + ys
      ensures exists p :: p in frontier && x.parent == p.key && x.depth == p.depth + 1 && x.key in Callees(g, p.key)
    {
      if x in xs {
        var q :| q in front && x.parent == q.key && x.depth == q.depth + 1 && x.key in Callees(g, q.key);
        assert q in frontier;
      } else {
        assert p in frontier;
      }
    }
  }

  lemma AddParentExtends<K>(g: Graph<K>, t: State<K>, p: Info<K>) returns (added: seq<Info<K>>)
    ensures var u := AddParent(t, p, g(p.key));
      && Extends(t, u, added, CallPairs(p.key, Callees(g, p.key))) && From(g, added, [p])
      && u.seen == t.seen + (set c | c in Callees(g, p.key))
      && u.failures == t.failures + if Listed(g(p.key)) then [p.key] else []
  {
    match g(p.key)
    case Failed(error) =>
      added := [];
      ExtendsSelf(t);
      assert t.seen + (set c | c in Callees(g, p.key)) == t.seen;
      assert t.failures + [] == t.failures;
      assert Extends(t, AddParent(t, p, Failed(error)), [], []);
    case Edges(callees) =>
      added := AddEdgesExtends(g, t, p, callees, callees);
      assert t.failures + [] == t.failures;
  }

  // A whole run.

  /** The frontier of level n is exactly what is n calls from the root and no less, and
      what is discovered is exactly what is at most n calls away, each once, at its
      distance. */
  ghost predicate AtLevel<K(!new)>(g: Graph<K>, root: K, n: nat, s: State<K>) {
    && (forall k :: k in s.seen <==> Within(g, root, n, k))
    && s.seen == KeySet(s.discovered) && DistinctKeys(s.discovered)
    && (forall x :: x in s.discovered ==> AtDistance(g, root, x.key, x.depth) && x.depth <= n)
    && (forall x :: x in s.next <==> x in s.discovered && x.depth == n)
  }

  ghost predicate AtDistance<K(!new)>(g: Graph<K>, root: K, k: K, d: nat) {
    Within(g, root, d, k) && (d > 0 ==> !Within(g, root, d - 1, k))
  }

  lemma {:induction false} WithinGrows<K(!new)>(g: Graph<K>, root: K, m: nat, n: nat, k: K)
    requires m <= n && Within(g, root, m, k)
    ensures Within(g, root, n, k)
    decreases n - m
  {
    if m < n {
      WithinGrows(g, root, m + 1, n, k);
    }
  }

  lemma {:induction false} LevelsAt<K(!new)>(g: Graph<K>, root: K, n: nat)
    ensures AtLevel(g, root, n, Levels(g, root, n))
  {
    if n == 0 {
      var s := Start(root);
      assert s.discovered[0].key == root;
    } else {
      var s := Levels(g, root, n - 1);
      LevelsAt(g, root, n - 1);
      var t := Levels(g, root, n);
      var added := AddLevelExtends(g, s.(next := []), s.next);
      NextSeen(g, root, n, s, t);
      NextLevel(g, root, n, s, t, added);
    }
  }

  lemma NextSeen<K(!new)>(g: Graph<K>, root: K, n: nat, s: State<K>, t: State<K>)
    requires n > 0 && AtLevel(g, root, n - 1, s)
    requires forall k :: k in t.seen <==> k in s.seen || exists p :: p in s.next && k in Callees(g, p.key)
    ensures forall k :: k in t.seen <==> Within(g, root, n, k)
  {
    forall k
      ensures k in t.seen <==> Within(g, root, n, k)
    {
      if k in t.seen && k !in s.seen {
        var p :| p in s.next && k in Callees(g, p.key);
        assert Within(g, root, n - 1, p.key);
      }
      if Within(g, root, n, k) && k !in s.seen {
        CalledFromFrontier(g, root, n, s, k);
      }
    }
  }

  /** What is first reached after n calls is called from the frontier of level n - 1. */
  lemma CalledFromFrontier<K(!new)>(g: Graph<K>, root: K, n: nat, s: State<K>, k: K)
    requires n > 0 && AtLevel(g, root, n - 1, s) && Within(g, root, n, k) && k !in s.seen
    ensures exists p :: p in s.next && k in Callees(g, p.key)
  {
    var q :| Within(g, root, n - 1, q) && k in Callees(g, q);
    assert q in KeySet(s.discovered);
    var x :| x in s.discovered && x.key == q;
    assert AtDistance(g, root, x.key, x.depth);
    Deeper(g, root, n, x, k);
  }

  lemma Deeper<K(!new)>(g: Graph<K>, root: K, n: nat, x: Info<K>, k: K)
    requires n > 0 && Within(g, root, x.depth, x.key) && x.depth <= n - 1 && k in Callees(g, x.key)
    requires !Within(g, root, n - 1, k)
    ensures x.depth == n - 1
  {
    assert Within(g, root, x.depth + 1, k);
    if x.depth < n - 1 {
      WithinGrows(g, root, x.depth + 1, n - 1, k);
    }
  }

  lemma NextLevel<K(!new)>(g: Graph<K>, root: K, n: nat, s: State<K>, t: State<K>, added: seq<Info<K>>)
    requires n > 0 && AtLevel(g, root, n - 1, s)
    requires Extends(s.(next := []), t, added, LevelPairs(g, s.next)) && From(g, added, s.next)
    requires forall k :: k in t.seen <==> Within(g, root, n, k)
    ensures AtLevel(g, root, n, t)
  {
    assert t.next == added;
    KeySetConcat(s.discovered, added);
    forall i, j | 0 <= i < |s.discovered| && 0 <= j < |added|
      ensures s.discovered[i].key != added[j].key
    {
      assert s.discovered[i].key in KeySet(s.discovered) && added[j].key in KeySet(added);
    }
    forall x | x in added
      ensures x.depth == n && AtDistance(g, root, x.key, n)
    {
      assert x.key in KeySet(added);
      var p :| p in s.next && x.parent == p.key && x.depth == p.depth + 1 && x.key in Callees(g, p.key);
    }
  }

  // The three main results, about a run that has ended: no frontier is left.

  ghost predicate CallPath<K>(g: Graph<K>, root: K, path: seq<K>, k: K) {
    && path != [] && path[0] == root && path[|path| - 1] == k
    && (forall i :: 0 <= i < |path| - 1 ==> path[i + 1] in Callees(g, path[i]))
  }

  lemma {:induction false} PathWithin<K(!new)>(g: Graph<K>, root: K, path: seq<K>, k: K)
    requires CallPath(g, root, path, k)
    ensures Within(g, root, |path| - 1, k)
    decreases |path|
  {
    if |path| > 1 {
      var front := path[..|path| - 1];
      PathWithin(g, root, front, path[|path| - 2]);
      assert path[|path| - 2 + 1] in Callees(g, path[|path| - 2]);
    }
  }

  lemma {:induction false} WithinPath<K(!new)>(g: Graph<K>, root: K, n: nat, k: K) returns (path: seq<K>)
    requires Within(g, root, n, k)
    ensures CallPath(g, root, path, k) && |path| <= n + 1
  {
    if n == 0 {
      path := [root];
    } else if Within(g, root, n - 1, k) {
      path := WithinPath(g, root, n - 1, k);
    } else {
      var p :| Within(g, root, n - 1, p) && k in Callees(g, p);
      var front := WithinPath(g, root, n - 1, p);
      path := front + [k];
    }
  }

  lemma NothingDeeper<K(!new)>(g: Graph<K>, root: K, n: nat, k: K)
    requires Levels(g, root, n).next == [] && Within(g, root, n + 1, k)
    ensures Within(g, root, n, k)
  {
    LevelsAt(g, root, n);
    hide Levels, Within;
    if !Within(g, root, n, k) {
      CalledFromFrontier(g, root, n + 1, Levels(g, root, n), k);
    }
  }

  /** With an empty frontier nothing more is reachable. */
  lemma {:induction false} Saturated<K(!new)>(g: Graph<K>, root: K, n: nat, m: nat, k: K)
    requires Levels(g, root, n).next == [] && Within(g, root, m, k)
    ensures Within(g, root, n, k)
    decreases m
  {
    hide Levels;
    if m <= n {
      WithinGrows(g, root, m, n, k);
    } else if Within(g, root, m - 1, k) {
      Saturated(g, root, n, m - 1, k);
    } else {
      var p :| Within(g, root, m - 1, p) && k in Callees(g, p);
      Saturated(g, root, n, m - 1, p);
      assert Within(g, root, n + 1, k);
      NothingDeeper(g, root, n, k);
    }
  }

  /** A discovered function is as many calls from the root as its shortest path. */
  ghost predicate Shortest<K(!new)>(g: Graph<K>, root: K, k: K, d: nat) {
    && (exists path :: CallPath(g, root, path, k) && |path| == d + 1)
    && (forall path :: CallPath(g, root, path, k) ==> d + 1 <= |path|)
  }

  /** Exactly the functions reachable from the root are discovered, each once, with its
      shortest distance. */
  lemma DiscoversReachable<K(!new)>(g: Graph<K>, root: K, n: nat)
    requires Levels(g, root, n).next == []
    ensures var found := Levels(g, root, n).discovered;
      && DistinctKeys(found)
      && (forall x :: x in found ==> Shortest(g, root, x.key, x.depth))
      && (forall path, k :: CallPath(g, root, path, k) ==> exists x :: x in found && x.key == k)
  {
    hide Levels;
    var s := Levels(g, root, n);
    LevelsAt(g, root, n);
    forall x | x in s.discovered
      ensures Shortest(g, root, x.key, x.depth)
    {
      DistanceIsShortest(g, root, x.key, x.depth);
    }
    forall path, k | CallPath(g, root, path, k)
      ensures exists x :: x in s.discovered && x.key == k
    {
      PathWithin(g, root, path, k);
      Saturated(g, root, n, |path| - 1, k);
      assert k in KeySet(s.discovered);
    }
  }

  lemma DistanceIsShortest<K(!new)>(g: Graph<K>, root: K, k: K, d: nat)
    requires AtDistance(g, root, k, d)
    ensures Shortest(g, root, k, d)
  {
    var path := WithinPath(g, root, d, k);
    forall p | CallPath(g, root, p, k)
      ensures d + 1 <= |p|
    {
      PathWithin(g, root, p, k);
      if |p| < d + 1 {
        WithinGrows(g, root, |p| - 1, d - 1, k);
      }
    }
    assert |path| == d + 1;
  }

  /** xs is discovered in an order where each function after the root comes after the one
      it was found from, which calls it and is one call nearer the root. */
  ghost predicate Rooted<K>(g: Graph<K>, root: K, xs: seq<Info<K>>) {
    && xs != [] && xs[0] == Info(root, 0, root)
    && (forall i :: 0 < i < |xs| ==> exists j :: 0 <= j < i && CalledFrom(g, xs[i], xs[j]))
  }

  ghost predicate CalledFrom<K>(g: Graph<K>, x: Info<K>, p: Info<K>) {
    x.parent == p.key && x.depth == p.depth + 1 && x.key in Callees(g, p.key)
  }

  /** What was discovered before the frontier: the functions already looked at. */
  ghost function Done<K>(s: State<K>): seq<Info<K>> {
    s.discovered[..if |s.next| <= |s.discovered| then |s.discovered| - |s.next| else 0]
  }

  /** The edges not marked duplicate are a spanning tree of what is discovered: for every
      function but the root exactly the edge from its parent, in order of discovery.  And
      the edges are every call of every function looked at, in order, each once; the
      failures are the functions looked at that failed with a message. */
  ghost predicate Spanned<K>(g: Graph<K>, root: K, s: State<K>) {
    && Rooted(g, root, s.discovered) && TreeEdges(s.edges) == ParentEdges(s.discovered[1..])
    && s.discovered == Done(s) + s.next
    && Pairs(s.edges) == LevelPairs(g, Done(s)) && s.failures == LevelFailures(g, Done(s))
  }

  lemma StartSpanned<K>(g: Graph<K>, root: K)
    ensures Spanned(g, root, Start(root))
  {
    assert ParentEdges<K>([]) == [];
    assert Start(root).discovered[1..] == [];
    assert Done(Start(root)) == [];
  }

  lemma {:induction false} EdgesSpan<K>(g: Graph<K>, root: K, n: nat)
    ensures Spanned(g, root, Levels(g, root, n))
  {
    hide AddLevel, Spanned, Extends, From, LevelPairs, LevelFailures;
    if n == 0 {
      StartSpanned(g, root);
    } else {
      EdgesSpan(g, root, n - 1);
      LevelUnfolds(g, root, n);
      hide Levels;
      var s := Levels(g, root, n - 1);
      var added := AddLevelExtends(g, s.(next := []), s.next);
      SpanNext(g, root, s, Levels(g, root, n), added);
    }
  }

  lemma {:induction false} LevelFailuresAre<K>(g: Graph<K>, xs: seq<Info<K>>, k: K)
    ensures k in LevelFailures(g, xs) <==> Listed(g(k)) && exists x :: x in xs && x.key == k
    decreases |xs|
  {
    if xs != [] {
      var last := |xs| - 1;
      LevelFailuresAre(g, xs[..last], k);
      assert forall x :: x in xs <==> x in xs[..last] || x == xs[last];
    }
  }

  /** A finished run lists every function that failed if and only if none failed with an empty message. */
  lemma FailuresListed<K>(g: Graph<K>, root: K, n: nat)
    requires Levels(g, root, n).next == []
    ensures var s := Levels(g, root, n);
      && (forall x :: x in s.discovered ==> (x.key in s.failures <==> Listed(g(x.key))))
      && ((forall x :: x in s.discovered && g(x.key).Failed? ==> x.key in s.failures)
          <==> (forall x :: x in s.discovered ==> g(x.key) != Failed("")))
  {
    var s := Levels(g, root, n);
    EdgesSpan(g, root, n);
    hide Levels, LevelPairs, LevelFailures, Rooted, TreeEdges, ParentEdges, Pairs;
    assert Done(s) == s.discovered;
    forall x | x in s.discovered
      ensures x.key in s.failures <==> Listed(g(x.key))
    {
      LevelFailuresAre(g, s.discovered, x.key);
    }
  }

  /** A root that fails without a message: discovered, no edge, and no failure listed. */
  lemma SilentFailure<K>(g: Graph<K>, root: K)
    requires g(root) == Failed("")
    ensures var s := Levels(g, root, 1); s.next == [] && s.discovered == [Info(root, 0, root)] && s.failures == [] && s.edges == []
  {
    LevelUnfolds(g, root, 1);
    var x := Info(root, 0, root);
    assert [x][..0] == [];
    assert AddLevel(g, Start(root).(next := []), []) == Start(root).(next := []);
  }

  lemma LevelUnfolds<K>(g: Graph<K>, root: K, n: nat)
    requires n > 0
    ensures Levels(g, root, n) == AddLevel(g, Levels(g, root, n - 1).(next := []), Levels(g, root, n - 1).next)
  {
  }

  lemma LastOfBoth<K>(xs: seq<Info<K>>, ys: seq<Info<K>>)
    requires ys != []
    ensures (xs + ys)[..|xs + ys| - 1] == xs + ys[..|ys| - 1] && (xs + ys)[|xs + ys| - 1] == ys[|ys| - 1]
  {
  }

  lemma LevelLast<K>(g: Graph<K>, xs: seq<Info<K>>)
    requires xs != []
    ensures var front, p := xs[..|xs| - 1], xs[|xs| - 1];
      && LevelPairs(g, xs) == LevelPairs(g, front) + CallPairs(p.key, Callees(g, p.key))
      && LevelFailures(g, xs) == LevelFailures(g, front) + if Listed(g(p.key)) then [p.key] else []
  {
  }

  lemma {:induction false} LevelConcat<K>(g: Graph<K>, xs: seq<Info<K>>, ys: seq<Info<K>>)
    ensures LevelPairs(g, xs + ys) == LevelPairs(g, xs) + LevelPairs(g, ys)
    ensures LevelFailures(g, xs + ys) == LevelFailures(g, xs) + LevelFailures(g, ys)
    decreases |ys|
  {
    hide CallPairs;
    if ys == [] {
      assert xs + ys == xs;
    } else {
      LastOfBoth(xs, ys);
      LevelConcat(g, xs, ys[..|ys| - 1]);
      LevelLast(g, ys);
      LevelLast(g, xs + ys);
      hide LevelPairs, LevelFailures;
    }
  }

  lemma SpanNext<K>(g: Graph<K>, root: K, s: State<K>, t: State<K>, added: seq<Info<K>>)
    requires Spanned(g, root, s)
    requires Extends(s.(next := []), t, added, LevelPairs(g, s.next)) && From(g, added, s.next)
    requires t.failures == s.failures + LevelFailures(g, s.next)
    ensures Spanned(g, root, t)
  {
    hide Rooted, From, TreeEdges, LevelPairs, LevelFailures, Pairs, ParentEdges;
    assert t.next == added;
    assert Done(t) == s.discovered;
    LevelConcat(g, Done(s), s.next);
    ParentEdgesSplit(s.discovered, added);
    RootedNext(g, root, s.discovered, s.next, added);
  }

  lemma ParentEdgesSplit<K>(xs: seq<Info<K>>, ys: seq<Info<K>>)
    ensures xs != [] ==> ParentEdges((xs + ys)[1..]) == ParentEdges(xs[1..]) + ParentEdges(ys)
  {
    if xs != [] {
      assert (xs + ys)[1..] == xs[1..] + ys;
    }
  }

  lemma RootedNext<K>(g: Graph<K>, root: K, xs: seq<Info<K>>, frontier: seq<Info<K>>, added: seq<Info<K>>)
    requires Rooted(g, root, xs) && From(g, added, frontier) && forall p :: p in frontier ==> p in xs
    ensures Rooted(g, root, xs + added) && xs != []
  {
    var ys := xs + added;
    forall i | 0 < i < |ys|
      ensures exists j :: 0 <= j < i && CalledFrom(g, ys[i], ys[j])
    {
      if i < |xs| {
        var j :| 0 <= j < i && CalledFrom(g, xs[i], xs[j]);
        assert CalledFrom(g, ys[i], ys[j]);
      } else {
        var x := added[i - |xs|];
        var p :| p in frontier && x.parent == p.key && x.depth == p.depth + 1 && x.key in Callees(g, p.key);
        var j :| 0 <= j < |xs| && xs[j] == p;
        assert CalledFrom(g, ys[i], ys[j]);
      }
    }
  }

  // The loop itself.

  lemma SeenStaysInside<K(!new)>(g: Graph<K>, root: K, n: nat, all: set<K>)
    requires root in all && forall k, c :: k in all && c in Callees(g, k) ==> c in all
    ensures Levels(g, root, n).seen <= all
  {
    LevelsAt(g, root, n);
    forall k | k in Levels(g, root, n).seen
      ensures k in all
    {
      WithinInside(g, root, n, all, k);
    }
  }

  lemma {:induction false} WithinInside<K(!new)>(g: Graph<K>, root: K, n: nat, all: set<K>, k: K)
    requires root in all && forall k, c :: k in all && c in Callees(g, k) ==> c in all
    requires Within(g, root, n, k)
    ensures k in all
  {
    if n > 0 {
      if Within(g, root, n - 1, k) {
        WithinInside(g, root, n - 1, all, k);
      } else {
        var p :| Within(g, root, n - 1, p) && k in Callees(g, p);
        WithinInside(g, root, n - 1, all, p);
      }
    }
  }

  /** A level that finds anything new leaves less of the graph unseen. */
  lemma UnseenShrinks<K(!new)>(g: Graph<K>, root: K, n: nat, all: set<K>)
    requires root in all && forall k, c :: k in all && c in Callees(g, k) ==> c in all
    ensures var s, t := Levels(g, root, n), Levels(g, root, n + 1);
      && |all - t.seen| <= |all - s.seen|
      && (t.next != [] ==> |all - t.seen| < |all - s.seen|)
  {
    var s, t := Levels(g, root, n), Levels(g, root, n + 1);
    var added := AddLevelExtends(g, s.(next := []), s.next);
    SeenStaysInside(g, root, n + 1, all);
    LevelUnfolds(g, root, n + 1);
    hide Levels, AddLevel;
    assert t.next == added;
    assert all - s.seen == (all - t.seen) + KeySet(added);
    if added != [] {
      assert added[0].key in KeySet(added);
    }
  }

  function Indices(n: nat): (s: set<nat>)
    ensures forall i: nat :: i in s <==> i < n
  {
    if n == 0 then {} else Indices(n - 1) + {n - 1}
  }

  /** One level: the results arrive in any order, and are consumed in frontier order. */
  method RunLevel<K(==)>(g: Graph<K>, s0: State<K>, frontier: seq<Info<K>>) returns (s: State<K>)
    ensures s == AddLevel(g, s0, frontier)
  {
    var completed: map<nat, Found<K>> := map[];
    var pending := Indices(|frontier|);
    while pending != {}
      invariant forall i: nat :: i < |frontier| && i !in pending ==> i in completed && completed[i] == g(frontier[i].key)
      invariant forall i :: i in pending ==> i < |frontier|
      decreases pending
    {
      var arrived :| arrived in pending;
      completed := completed[arrived := g(frontier[arrived].key)];
      pending := pending - {arrived};
    }
    s := s0;
    for index := 0 to |frontier|
      invariant s == AddLevel(g, s0, frontier[..index])
    {
      var parent, found := frontier[index], completed[index];
      assert frontier[..index + 1][..index] == frontier[..index];
      match found
      case Failed(error) =>
        if error != "" {
          s := s.(failures := s.failures + [parent.key]);
        }
      case Edges(callees) =>
        ghost var before := s;
        for j := 0 to |callees|
          invariant s == AddEdges(before, parent, callees[..j])
        {
          assert callees[..j + 1][..j] == callees[..j];
          var key := callees[j];
          var duplicate := key in s.seen;
          s := s.(edges := s.edges + [Edge(parent.key, key, duplicate)]);
          if !duplicate {
            var child := Info(key, parent.depth + 1, parent.key);
            s := s.(seen := s.seen + {key}, discovered := s.discovered + [child], next := s.next + [child]);
          }
        }
        assert callees[..|callees|] == callees;
    }
    assert frontier[..|frontier|] == frontier;
  }

  /** On a finite graph it ends, having discovered what is reachable, each function once at
      its shortest distance, with a spanning tree in its edges; and since the result is a
      function of the graph, the order in which workers finish does not matter. */
  method Discover<K(==, !new)>(g: Graph<K>, root: K, ghost all: set<K>) returns (s: State<K>, ghost levels: nat)
    requires root in all && forall k, c :: k in all && c in Callees(g, k) ==> c in all
    ensures s == Levels(g, root, levels) && s.next == []
    ensures DistinctKeys(s.discovered) && forall x :: x in s.discovered ==> Shortest(g, root, x.key, x.depth)
    ensures forall path, k :: CallPath(g, root, path, k) ==> exists x :: x in s.discovered && x.key == k
    ensures Spanned(g, root, s)
  {
    hide Levels, AddLevel, Spanned, Shortest, DistinctKeys, CallPath;
    levels := 0;
    s := Start(root);
    StartIs(g, root);
    while s.next != []
      invariant s == Levels(g, root, levels)
      decreases |all - s.seen| + if s.next == [] then 0 else 1
    {
      UnseenShrinks(g, root, levels, all);
      LevelUnfolds(g, root, levels + 1);
      s := RunLevel(g, s.(next := []), s.next);
      levels := levels + 1;
    }
    DiscoversReachable(g, root, levels);
    EdgesSpan(g, root, levels);
  }

  lemma {:induction false} FinishedStays<K>(g: Graph<K>, root: K, m: nat, n: nat)
    requires m <= n && Levels(g, root, m).next == []
    ensures Levels(g, root, n) == Levels(g, root, m)
    decreases n - m
  {
    if m < n {
      FinishedStays(g, root, m, n - 1);
      LevelUnfolds(g, root, n);
    }
  }

  /** Two runs that end, whatever order their workers finished in, end with the same functions in the
      same order, the same edges and the same failures. */
  lemma RunsAgree<K>(g: Graph<K>, root: K, m: nat, n: nat)
    requires Levels(g, root, m).next == [] && Levels(g, root, n).next == []
    ensures Levels(g, root, m) == Levels(g, root, n)
  {
    if m <= n { FinishedStays(g, root, m, n); } else { FinishedStays(g, root, n, m); }
  }

  lemma StartIs<K>(g: Graph<K>, root: K)
    ensures Levels(g, root, 0) == Start(root)
  {
  }
}
