/**
 Collection of route CSS from a client bundle: a depth-first walk of the chunk
 import graph that shares one mutable visited set, feeding a map from route file
 to the union of the CSS of all the chunks split out of that route.
 */
module RouteCss {
  import opened Wrappers

  /** A chunk of the bundle. `importedCss` is absent when the chunk carries no Vite metadata. */
  datatype Chunk = Chunk(importedCss: Option<set<string>>, imports: seq<string>, moduleIds: seq<string>) {
    function Css(): set<string> {
      if importedCss.Some? then importedCss.value else {}
    }
  }

  datatype Entry = ChunkEntry(chunk: Chunk) | AssetEntry

  /** The bundle's own properties, in enumeration order. */
  type Bundle = seq<(string, Entry)>

  type Graph = map<string, Chunk>

  /** A JavaScript Set passed by reference. */
  class StringSet {
    var elems: set<string>

    constructor ()
      ensures elems == {}
    {
      elems := {};
    }
  }

  // ---------------------------------------------------------------- reachability

  ghost predicate Edge(g: Graph, a: string, b: string) {
    a in g && b in g[a].imports
  }

  /** `p` is an import path none of whose nodes lies in `avoid`. */
  ghost predicate IsPath(g: Graph, avoid: set<string>, p: seq<string>) {
    && |p| > 0
    && (forall i :: 0 <= i < |p| ==> p[i] !in avoid)
    && (forall i :: 0 <= i < |p| - 1 ==> Edge(g, p[i], p[i + 1]))
  }

  ghost predicate Reaches(g: Graph, avoid: set<string>, a: string, b: string) {
    exists p :: IsPath(g, avoid, p) && p[0] == a && p[|p| - 1] == b
  }

  /** The CSS imported by the chunks among `nodes`. */
  ghost function CssOf(g: Graph, nodes: set<string>): set<string> {
    set n, c | n in nodes && n in g && g[n].importedCss.Some? && c in g[n].importedCss.value :: c
  }

  /** The CSS imported by the chunks reachable from `a`. */
  ghost function ReachableCss(g: Graph, a: string): set<string> {
    set n, c | n in g && Reaches(g, {}, a, n) && g[n].importedCss.Some? && c in g[n].importedCss.value :: c
  }

  lemma ReachesSelf(g: Graph, avoid: set<string>, a: string)
    requires a !in avoid
    ensures Reaches(g, avoid, a, a)
  {
    assert IsPath(g, avoid, [a]);
  }

  lemma ReachesThroughImport(g: Graph, avoid: set<string>, more: set<string>, a: string, b: string, c: string)
    requires a !in avoid && Edge(g, a, b) && avoid <= more && Reaches(g, more, b, c)
    ensures Reaches(g, avoid, a, c)
  {
    var p :| IsPath(g, more, p) && p[0] == b && p[|p| - 1] == c;
    var q := [a] + p;
    assert forall i :: 0 < i < |q| ==> q[i] == p[i - 1];
    assert IsPath(g, avoid, q) && q[|q| - 1] == c;
  }

  lemma ReachesExtend(g: Graph, avoid: set<string>, a: string, b: string, c: string)
    requires Reaches(g, avoid, a, b) && Edge(g, b, c) && c !in avoid
    ensures Reaches(g, avoid, a, c)
  {
    var p :| IsPath(g, avoid, p) && p[0] == a && p[|p| - 1] == b;
    var q := p + [c];
    assert forall i :: 0 <= i < |p| ==> q[i] == p[i];
    assert q[|q| - 1] == c;
    assert forall i :: 0 <= i < |q| - 1 ==> Edge(g, q[i], q[i + 1]);
    assert IsPath(g, avoid, q);
  }

  /** A node set closed under imports outside `avoid` contains every path that starts in it. */
  lemma {:induction false} ClosedContainsPath(g: Graph, avoid: set<string>, nodes: set<string>, p: seq<string>, k: nat)
    requires IsPath(g, avoid, p) && k < |p| && p[0] in nodes
    requires forall a, b :: a in nodes && Edge(g, a, b) ==> b in nodes || b in avoid
    ensures p[k] in nodes
  {
    if k > 0 {
      ClosedContainsPath(g, avoid, nodes, p, k - 1);
      assert Edge(g, p[k - 1], p[k - 1 + 1]);
    }
  }

  /** Sound and closed sets of newly visited nodes are exactly the white-path reachable ones. */
  lemma ClosedIsExact(g: Graph, before: set<string>, after: set<string>, a: string)
    requires before <= after && a in after && a !in before
    requires forall n :: n in after - before ==> Reaches(g, before, a, n)
    requires forall m, n :: m in after - before && Edge(g, m, n) ==> n in after
    ensures forall n :: n in after - before <==> Reaches(g, before, a, n)
  {
    forall n | Reaches(g, before, a, n)
      ensures n in after - before
    {
      var p :| IsPath(g, before, p) && p[0] == a && p[|p| - 1] == n;
      ClosedContainsPath(g, before, after - before, p, |p| - 1);
    }
  }

  // ---------------------------------------------------------------- the walk

  /** What one nested call adds keeps the walk sound and closed, and its CSS adds up. */
  lemma VisitKeepsInvariant(g: Graph, before: set<string>, mid: set<string>, after: set<string>, a: string, imp: string)
    requires before + {a} <= mid <= after && a !in before && Edge(g, a, imp)
    requires forall n :: n in after - mid <==> Reaches(g, mid, imp, n)
    requires forall m, n :: m in mid - before - {a} && Edge(g, m, n) ==> n in mid
    requires forall n :: n in mid - before ==> Reaches(g, before, a, n)
    ensures imp in after
    ensures forall n :: n in after - before ==> Reaches(g, before, a, n)
    ensures forall m, n :: m in after - before - {a} && Edge(g, m, n) ==> n in after
    ensures CssOf(g, after - before) == CssOf(g, mid - before) + CssOf(g, after - mid)
  {
    if imp !in mid {
      ReachesSelf(g, mid, imp);
    }
    forall n | n in after - mid
      ensures Reaches(g, before, a, n)
    {
      ReachesThroughImport(g, before, mid, a, imp, n);
    }
    forall m, n | m in after - mid && Edge(g, m, n) && n !in mid
      ensures n in after
    {
      ReachesExtend(g, mid, imp, m, n);
    }
    assert after - before == (mid - before) + (after - mid);
  }

  /**
   Adds to `visited` exactly the nodes that `fileName` reaches by a path avoiding the nodes
   visited before, and returns exactly the CSS of the newly visited nodes. Cycles and targets
   that are not chunks are covered: there is no precondition.
   */
  method GetCss(g: Graph, fileName: string, visited: StringSet) returns (css: set<string>)
    modifies visited
    ensures old(visited.elems) <= visited.elems
    ensures forall n :: n in visited.elems - old(visited.elems) <==> Reaches(g, old(visited.elems), fileName, n)
    ensures css == CssOf(g, visited.elems - old(visited.elems))
    decreases g.Keys - visited.elems
  {
    ghost var before := visited.elems;
    if fileName in visited.elems {
      return {};
    }
    visited.elems := visited.elems + {fileName};
    ReachesSelf(g, before, fileName);
    if fileName !in g {
      ClosedIsExact(g, before, visited.elems, fileName);
      return {};
    }
    var chunk := g[fileName];
    css := chunk.Css();
    assert visited.elems - before == {fileName};
    for i := 0 to |chunk.imports|
      invariant before + {fileName} <= visited.elems
      invariant forall n :: n in visited.elems - before ==> Reaches(g, before, fileName, n)
      invariant forall m, n :: m in visited.elems - before - {fileName} && Edge(g, m, n) ==> n in visited.elems
      invariant forall j :: 0 <= j < i ==> chunk.imports[j] in visited.elems
      invariant css == CssOf(g, visited.elems - before)
    {
      ghost var mid := visited.elems;
      var imp := chunk.imports[i];
      var more := GetCss(g, imp, visited);
      VisitKeepsInvariant(g, before, mid, visited.elems, fileName, imp);
      css := css + more;
    }
    ClosedIsExact(g, before, visited.elems, fileName);
  }

  // ---------------------------------------------------------------- the route map

  const SPLIT_MARK := "tsr-split"

  predicate IsSplitModule(id: string) {
    exists i :: 0 <= i <= |id| && SPLIT_MARK <= id[i..]
  }

  predicate StandsAt(s: string, i: int, part: string) {
    0 <= i <= |s| - |part| && s[i..i + |part|] == part
  }

  /** `part` stands somewhere in `s`. */
  ghost predicate Contains(s: string, part: string) {
    exists i :: StandsAt(s, i, part)
  }

  lemma SplitModulesHoldTheMark(id: string)
    ensures IsSplitModule(id) <==> Contains(id, "tsr-split")
  {
    var mark := "tsr-split";
    if IsSplitModule(id) {
      var i :| 0 <= i <= |id| && SPLIT_MARK <= id[i..];
      assert id[i..i + |mark|] == id[i..][..|mark|] == mark;
      assert StandsAt(id, i, mark);
    }
    if Contains(id, mark) {
      var i :| StandsAt(id, i, mark);
      assert id[i..][..|mark|] == mark && SPLIT_MARK <= id[i..];
    }
  }

  /** The part of a module id before its first question mark. */
  function FilePath(id: string): (path: string)
    ensures path <= id && '?' !in path
    ensures path == id || id[|path|] == '?'
  {
    if id == "" || id[0] == '?' then "" else [id[0]] + FilePath(id[1..])
  }

  function SplitModules(ids: seq<string>): (mods: seq<string>)
    ensures forall m :: m in mods <==> m in ids && Contains(m, "tsr-split")
  {
    if ids == [] then []
    else
      SplitModulesHoldTheMark(ids[0]);
      (if IsSplitModule(ids[0]) then [ids[0]] else []) + SplitModules(ids[1..])
  }

  /** Property names of one object are distinct. */
  ghost predicate IsBundle(b: Bundle) {
    forall i, j :: 0 <= i < j < |b| ==> b[i].0 != b[j].0
  }

  ghost function Chunks(b: Bundle): Graph
    requires IsBundle(b)
  {
    map i | 0 <= i < |b| && b[i].1.ChunkEntry? :: b[i].0 := b[i].1.chunk
  }

  ghost function Entries(b: Bundle): set<(string, Entry)> {
    set e | e in b
  }

  ghost predicate Serves(e: (string, Entry), route: string) {
    e.1.ChunkEntry? && exists m :: m in e.1.chunk.moduleIds && Contains(m, "tsr-split") && FilePath(m) == route
  }

  /** Some split chunk of `route` reaches a chunk importing `css`. */
  ghost predicate Contributes(g: Graph, b: set<(string, Entry)>, route: string, css: string) {
    exists e :: e in b && Serves(e, route) && css in ReachableCss(g, e.0)
  }

  /** Some module id of `mods` belongs to the route file. */
  ghost predicate Mentions(mods: seq<string>, route: string) {
    exists m :: m in mods && FilePath(m) == route
  }

  function At(m: map<string, set<string>>, k: string): set<string> {
    if k in m then m[k] else {}
  }

  ghost predicate IsRoute(b: set<(string, Entry)>, route: string) {
    exists e :: e in b && Serves(e, route)
  }

  /** `now` is `was` with the CSS that the entries `b` of a bundle with graph `g` contribute to each route. */
  ghost predicate Captured(
      g: Graph, b: set<(string, Entry)>, was: map<string, set<string>>, now: map<string, set<string>>)
  {
    && (forall r :: r in now <==> r in was || IsRoute(b, r))
    && (forall r, c :: r in now ==> (c in now[r] <==> (r in was && c in was[r]) || Contributes(g, b, r, c)))
  }

  lemma ChunksStep(b: Bundle, i: nat)
    requires i < |b| && IsBundle(b)
    ensures IsBundle(b[..i]) && IsBundle(b[..i + 1])
    ensures Chunks(b[..i + 1]) ==
      if b[i].1.ChunkEntry? then Chunks(b[..i])[b[i].0 := b[i].1.chunk] else Chunks(b[..i])
  {
    var next := b[..i + 1];
    assert forall j :: 0 <= j < i ==> b[..i][j] == next[j];
    assert next[i] == b[i];
  }

  /** The chunks are those entries and no others. */
  lemma ChunksAreEntries(b: Bundle, n: string, chunk: Chunk)
    requires IsBundle(b)
    ensures n in Chunks(b) && Chunks(b)[n] == chunk <==> (n, ChunkEntry(chunk)) in b
  {
    if (n, ChunkEntry(chunk)) in b {
      var i :| 0 <= i < |b| && b[i] == (n, ChunkEntry(chunk));
    }
    if n in Chunks(b) {
      var i :| 0 <= i < |b| && b[i].1.ChunkEntry? && b[i].0 == n;
      assert b[i] == (n, ChunkEntry(b[i].1.chunk));
    }
  }

  method ChunksByFileName(bundle: Bundle) returns (g: Graph)
    requires IsBundle(bundle)
    ensures g == Chunks(bundle)
    ensures forall n, chunk :: n in g && g[n] == chunk <==> (n, ChunkEntry(chunk)) in bundle
  {
    g := map[];
    for i := 0 to |bundle|
      invariant IsBundle(bundle[..i]) && g == Chunks(bundle[..i])
    {
      if bundle[i].1.ChunkEntry? {
        g := g[bundle[i].0 := bundle[i].1.chunk];
      }
      ChunksStep(bundle, i);
    }
    assert bundle[..|bundle|] == bundle;
    forall n, chunk
      ensures n in g && g[n] == chunk <==> (n, ChunkEntry(chunk)) in bundle
    {
      ChunksAreEntries(bundle, n, chunk);
    }
  }

  lemma FreshWalkIsReachable(g: Graph, a: string, visited: set<string>)
    requires forall n :: n in visited <==> Reaches(g, {}, a, n)
    ensures CssOf(g, visited) == ReachableCss(g, a)
  {
  }

  lemma CapturedSkip(g: Graph, b: set<(string, Entry)>, e: (string, Entry),
                     was: map<string, set<string>>, now: map<string, set<string>>)
    requires Captured(g, b, was, now)
    requires e.1.ChunkEntry? ==> SplitModules(e.1.chunk.moduleIds) == []
    ensures Captured(g, b + {e}, was, now)
  {
  }

  lemma CapturedStep(g: Graph, b: set<(string, Entry)>, e: (string, Entry), mods: seq<string>,
                     was: map<string, set<string>>, start: map<string, set<string>>, now: map<string, set<string>>)
    requires Captured(g, b, was, start) && e.1.ChunkEntry? && mods == SplitModules(e.1.chunk.moduleIds)
    requires forall r :: r in now <==> r in start || Mentions(mods, r)
    requires forall r :: r in now ==> now[r] == At(start, r) + (if Mentions(mods, r) then ReachableCss(g, e.0) else {})
    ensures Captured(g, b + {e}, was, now)
  {
    forall r
      ensures Serves(e, r) <==> Mentions(mods, r)
    {
      if Serves(e, r) {
        var m :| m in e.1.chunk.moduleIds && Contains(m, "tsr-split") && FilePath(m) == r;
        assert m in mods;
      }
    }
    forall r, c
      ensures Contributes(g, b + {e}, r, c) <==> Contributes(g, b, r, c) || (Serves(e, r) && c in ReachableCss(g, e.0))
      ensures IsRoute(b + {e}, r) <==> IsRoute(b, r) || Serves(e, r)
    {
      assert e in b + {e};
    }
  }

  lemma EntriesStep(b: Bundle, i: nat)
    requires i < |b|
    ensures Entries(b[..i + 1]) == Entries(b[..i]) + {b[i]}
  {
  }

  /** The plugin's `generateBundle` hook and the map it fills across builds. */
  class RouteCssCollector {
    var routeCssMap: map<string, set<string>>

    constructor ()
      ensures routeCssMap == map[]
    {
      routeCssMap := map[];
    }

    /** The `generateBundle` hook: every split chunk adds its reachable CSS to its routes. */
    method GenerateBundle(bundle: Bundle)
      requires IsBundle(bundle)
      modifies this
      ensures Captured(Chunks(bundle), Entries(bundle), old(routeCssMap), routeCssMap)
    {
      ghost var was := routeCssMap;
      var g := ChunksByFileName(bundle);
      for i := 0 to |bundle|
        invariant Captured(g, Entries(bundle[..i]), was, routeCssMap)
      {
        var (fileName, entry) := bundle[i];
        ghost var done := Entries(bundle[..i]);
        EntriesStep(bundle, i);
        if entry.AssetEntry? {
          CapturedSkip(g, done, bundle[i], was, routeCssMap);
          continue;
        }
        var routeModules := SplitModules(entry.chunk.moduleIds);
        if |routeModules| == 0 {
          CapturedSkip(g, done, bundle[i], was, routeCssMap);
          continue;
        }
        var visited := new StringSet();
        var css := GetCss(g, fileName, visited);
        FreshWalkIsReachable(g, fileName, visited.elems);
        ghost var start := routeCssMap;
        AddToRoutes(routeModules, css);
        CapturedStep(g, done, bundle[i], routeModules, was, start, routeCssMap);
      }
      assert bundle[..|bundle|] == bundle;
    }

    /** The inner loop of the hook: one chunk's CSS is added to each of its route files. */
    method AddToRoutes(routeModules: seq<string>, css: set<string>)
      modifies this
      ensures forall r :: r in routeCssMap <==> r in old(routeCssMap) || Mentions(routeModules, r)
      ensures forall r :: r in routeCssMap ==>
        routeCssMap[r] == At(old(routeCssMap), r) + (if Mentions(routeModules, r) then css else {})
    {
      ghost var start := routeCssMap;
      for j := 0 to |routeModules|
        invariant forall r :: r in routeCssMap <==> r in start || Mentions(routeModules[..j], r)
        invariant forall r :: r in routeCssMap ==>
          routeCssMap[r] == At(start, r) + (if Mentions(routeModules[..j], r) then css else {})
      {
        var filePath := FilePath(routeModules[j]);
        var existing := At(routeCssMap, filePath);
        routeCssMap := routeCssMap[filePath := existing + css];
        assert routeModules[..j + 1] == routeModules[..j] + [routeModules[j]];
      }
      assert routeModules[..|routeModules|] == routeModules;
    }
  }

  lemma SameEntries(b1: Bundle, b2: Bundle)
    requires multiset(b1) == multiset(b2)
    ensures Entries(b1) == Entries(b2)
  {
    assert forall e :: e in b1 <==> e in multiset(b1);
    assert forall e :: e in b2 <==> e in multiset(b2);
  }

  lemma ChunksCarryOver(b: Bundle, c: Bundle)
    requires IsBundle(b) && IsBundle(c) && Entries(b) <= Entries(c)
    ensures forall n :: n in Chunks(b) ==> n in Chunks(c) && Chunks(c)[n] == Chunks(b)[n]
  {
    forall i | 0 <= i < |b| && b[i].1.ChunkEntry?
      ensures b[i].0 in Chunks(c) && Chunks(c)[b[i].0] == b[i].1.chunk
    {
      assert b[i] in Entries(b);
      var j :| 0 <= j < |c| && c[j] == b[i];
    }
  }

  lemma SameChunks(b1: Bundle, b2: Bundle)
    requires IsBundle(b1) && IsBundle(b2) && Entries(b1) == Entries(b2)
    ensures Chunks(b1) == Chunks(b2)
  {
    ChunksCarryOver(b1, b2);
    ChunksCarryOver(b2, b1);
  }

  /** The captured map does not depend on the order in which the bundle lists its chunks. */
  lemma OrderIrrelevant(b1: Bundle, b2: Bundle, was: map<string, set<string>>,
                        now1: map<string, set<string>>, now2: map<string, set<string>>)
    requires IsBundle(b1) && IsBundle(b2) && multiset(b1) == multiset(b2)
    requires Captured(Chunks(b1), Entries(b1), was, now1) && Captured(Chunks(b2), Entries(b2), was, now2)
    ensures now1 == now2
  {
    SameEntries(b1, b2);
    SameChunks(b1, b2);
    assert forall r :: r in now1 <==> r in now2;
    forall r | r in now1
      ensures now1[r] == now2[r]
    {
      assert forall c :: c in now1[r] <==> c in now2[r];
    }
  }
}
