/** The enumeration of migration paths through a family's declared steps. */
module Migrations {
  import opened Text
  import opened Contracts

  /** A path lists positions in the family's declared migrations. */
  type Path = seq<nat>

  /** The positions, among the first `n` declared steps, of those that leave `version`, in order. */
  function OutgoingUpTo(d: Definition, version: string, n: nat): (edges: seq<nat>)
    requires n <= |d.migrations|
    ensures forall k | 0 <= k < |edges| :: edges[k] < n && d.migrations[edges[k]].fromVersion == version
    ensures forall i | 0 <= i < n && d.migrations[i].fromVersion == version :: i in edges
    ensures forall i, j | 0 <= i < j < |edges| :: edges[i] < edges[j]
  {
    if n == 0 then [] else
      OutgoingUpTo(d, version, n - 1) + if d.migrations[n - 1].fromVersion == version then [n - 1] else []
  }

  function Outgoing(d: Definition, version: string): (edges: seq<nat>)
    ensures Leaves(d, version, edges)
    ensures forall i | 0 <= i < |d.migrations| && d.migrations[i].fromVersion == version :: i in edges
    ensures forall i, j | 0 <= i < j < |edges| :: edges[i] < edges[j]
  {
    OutgoingUpTo(d, version, |d.migrations|)
  }

  ghost predicate Leaves(d: Definition, version: string, edges: seq<nat>) {
    forall k | 0 <= k < |edges| :: edges[k] < |d.migrations| && d.migrations[edges[k]].fromVersion == version
  }

  /** Every entry is the position of a declared step. */
  predicate Declared(d: Definition, p: seq<nat>) {
    forall i | 0 <= i < |p| :: p[i] < |d.migrations|
  }

  ghost function Targets(d: Definition): set<string> {
    set i | 0 <= i < |d.migrations| :: d.migrations[i].toVersion
  }

  function Extend(prefix: Path, paths: seq<Path>): (r: seq<Path>)
    ensures |r| == |paths| && forall k | 0 <= k < |r| :: r[k] == prefix + paths[k]
  {
    seq(|paths|, k requires 0 <= k < |paths| => prefix + paths[k])
  }

  /** The recursive walk: every way on to the current version whose first step is one of `edges`
      and that enters no version of `seen`. */
  function WalkPaths(d: Definition, seen: set<string>, edges: seq<nat>): seq<Path>
    requires Declared(d, edges)
    decreases Targets(d) - seen, |edges|
  {
    if edges == [] then [] else
    var to := d.migrations[edges[0]].toVersion;
    var here := (
      if to in seen then []
      else if to == d.currentVersion then [[edges[0]]]
      else
        assert to in Targets(d);
        Extend([edges[0]], WalkPaths(d, seen + {to}, Outgoing(d, to)))
    );
    here + WalkPaths(d, seen, edges[1..])
  }

  function MigrationPaths(d: Definition, source: string): seq<Path> {
    if source == d.currentVersion then [[]]
    else WalkPaths(d, {source}, Outgoing(d, source))
  }

  /** The versions a path from `source` passes through, both ends included. */
  function Visits(d: Definition, source: string, p: Path): (r: seq<string>)
    requires Declared(d, p)
    ensures |r| == |p| + 1 && r[0] == source
    decreases |p|
  {
    if p == [] then [source] else [source] + Visits(d, d.migrations[p[0]].toVersion, p[1..])
  }

  /** Each step leaves the version that the path has reached. */
  ghost predicate Linked(d: Definition, visits: seq<string>, p: Path)
    requires Declared(d, p) && |visits| == |p| + 1
  {
    forall k | 0 <= k < |p| :: d.migrations[p[k]].fromVersion == visits[k]
  }

  /** A chain of declared steps from `source` to the current version that repeats no version. */
  ghost predicate IsSimplePath(d: Definition, source: string, p: Path) {
    && Declared(d, p)
    && var visits := Visits(d, source, p);
       Linked(d, visits, p) && AllDistinct(visits) && visits[|p|] == d.currentVersion
  }

  ghost predicate Avoids<T(!new)>(s: seq<T>, seen: set<T>) {
    forall i | 0 <= i < |s| :: s[i] !in seen
  }

  lemma DistinctCons<T(!new)>(x: T, s: seq<T>)
    ensures AllDistinct([x] + s) <==> AllDistinct(s) && Avoids(s, {x})
  {
    var r := [x] + s;
    assert forall i | 0 <= i < |s| :: r[i + 1] == s[i];
    if AllDistinct(r) {
      forall i | 0 <= i < |s| ensures s[i] != x { assert r[i + 1] != r[0]; }
      forall i, j | 0 <= i < j < |s| ensures s[i] != s[j] { assert r[i + 1] != r[j + 1]; }
    }
  }

  ghost predicate AvoidsAfterStart(d: Definition, source: string, p: Path, seen: set<string>)
    requires Declared(d, p)
  {
    Avoids(Visits(d, source, p)[1..], seen)
  }

  /** A simple path through unseen versions is a first step into one followed by such a path. */
  lemma ConsPath(d: Definition, source: string, p: Path, seen: set<string>)
    requires p != [] && source in seen && Declared(d, p) && Declared(d, p[1..])
    ensures var (to, q) := (d.migrations[p[0]].toVersion, p[1..]);
            IsSimplePath(d, source, p) && AvoidsAfterStart(d, source, p, seen)
            <==>
            && d.migrations[p[0]].fromVersion == source && to !in seen
            && IsSimplePath(d, to, q) && AvoidsAfterStart(d, to, q, seen + {to})
  {
    var to, q := d.migrations[p[0]].toVersion, p[1..];
    var w := Visits(d, to, q);
    assert Visits(d, source, p) == [source] + w;
    assert Visits(d, source, p)[1..] == w && w == [to] + w[1..];
    DistinctCons(source, w);
    DistinctCons(to, w[1..]);
    LinkedCons(d, source, p);
    AvoidsCons(to, w[1..], seen);
    if Avoids(w, seen) {
      assert Avoids(w, {source});
    }
  }

  lemma AvoidsCons<T(!new)>(x: T, s: seq<T>, seen: set<T>)
    ensures Avoids([x] + s, seen) <==> x !in seen && Avoids(s, seen)
    ensures Avoids(s, seen + {x}) <==> Avoids(s, seen) && Avoids(s, {x})
  {
    assert ([x] + s)[0] == x;
    assert forall i | 0 <= i < |s| :: ([x] + s)[i + 1] == s[i];
  }

  lemma LinkedCons(d: Definition, source: string, p: Path)
    requires p != [] && Declared(d, p) && Declared(d, p[1..])
    ensures var w := Visits(d, d.migrations[p[0]].toVersion, p[1..]);
            Linked(d, [source] + w, p)
            <==> d.migrations[p[0]].fromVersion == source && Linked(d, w, p[1..])
  {
    var w := Visits(d, d.migrations[p[0]].toVersion, p[1..]);
    var v := [source] + w;
    assert forall k | 0 <= k < |p[1..]| :: p[1..][k] == p[k + 1] && w[k] == v[k + 1];
    if Linked(d, w, p[1..]) && d.migrations[p[0]].fromVersion == source {
      forall k | 0 <= k < |p| ensures d.migrations[p[k]].fromVersion == v[k] {
        if k > 0 { assert p[1..][k - 1] == p[k]; }
      }
    }
  }

  lemma {:induction false} WalkIsExact(d: Definition, source: string, seen: set<string>, edges: seq<nat>, p: Path)
    requires source in seen
    requires Leaves(d, source, edges)
    ensures p in WalkPaths(d, seen, edges)
            <==> p != [] && p[0] in edges && IsSimplePath(d, source, p) && AvoidsAfterStart(d, source, p, seen)
    decreases Targets(d) - seen, |edges|
  {
    if edges != [] {
      WalkIsExact(d, source, seen, edges[1..], p);
      FirstEdgeIsExact(d, source, seen, edges, p);
    }
  }

  lemma CurrentIsTheEnd(d: Definition, p: Path)
    requires IsSimplePath(d, d.currentVersion, p)
    ensures p == []
  {
    var visits := Visits(d, d.currentVersion, p);
    assert visits[0] == visits[|p|];
  }

  function Here(d: Definition, seen: set<string>, edge: nat): seq<Path>
    requires edge < |d.migrations|
  {
    var to := d.migrations[edge].toVersion;
    if to in seen then []
    else if to == d.currentVersion then [[edge]]
    else Extend([edge], WalkPaths(d, seen + {to}, Outgoing(d, to)))
  }

  lemma {:induction false} FirstEdgeIsExact(d: Definition, source: string, seen: set<string>, edges: seq<nat>, p: Path)
    requires source in seen && edges != []
    requires Leaves(d, source, edges)
    ensures p in Here(d, seen, edges[0])
            <==> p != [] && p[0] == edges[0] && IsSimplePath(d, source, p) && AvoidsAfterStart(d, source, p, seen)
    decreases Targets(d) - seen, 0
  {
    var e := edges[0];
    var to := d.migrations[e].toVersion;
    if p != [] && p[0] == e && Declared(d, p) {
      var q := p[1..];
      assert p == [e] + q;
      ConsPath(d, source, p, seen);
      if to !in seen {
        if to == d.currentVersion {
          if IsSimplePath(d, to, q) { CurrentIsTheEnd(d, q); }
          assert p == [e] <==> q == [];
          assert q == [] ==> Visits(d, to, q) == [to];
        } else {
          assert to in Targets(d);
          WalkIsExact(d, to, seen + {to}, Outgoing(d, to), q);
          InExtend(e, q, WalkPaths(d, seen + {to}, Outgoing(d, to)));
          if IsSimplePath(d, to, q) { FirstOfPath(d, to, q); }
        }
      }
    } else if to !in seen && to != d.currentVersion && p in Here(d, seen, e) {
      var next := WalkPaths(d, seen + {to}, Outgoing(d, to));
      var k :| 0 <= k < |next| && p == [e] + next[k];
      WalkIsExact(d, to, seen + {to}, Outgoing(d, to), next[k]);
      assert false;
    }
  }

  lemma FirstOfPath(d: Definition, source: string, p: Path)
    requires IsSimplePath(d, source, p) && source != d.currentVersion
    ensures p != [] && p[0] in Outgoing(d, source)
  {
    var visits := Visits(d, source, p);
    assert visits[0] == source;
    assert p != [];
    assert d.migrations[p[0]].fromVersion == visits[0];
  }

  lemma InExtend(e: nat, q: Path, paths: seq<Path>)
    ensures [e] + q in Extend([e], paths) <==> q in paths
  {
    var r := Extend([e], paths);
    if [e] + q in r {
      var k :| 0 <= k < |r| && r[k] == [e] + q;
      assert q == ([e] + paths[k])[1..] == paths[k];
    }
    if q in paths {
      var k :| 0 <= k < |paths| && paths[k] == q;
      assert r[k] == [e] + q;
    }
  }

  /** The enumeration returns every simple path and nothing else. */
  lemma PathsAreTheSimplePaths(d: Definition, source: string, p: Path)
    ensures p in MigrationPaths(d, source) <==> IsSimplePath(d, source, p)
  {
    if source == d.currentVersion {
      if IsSimplePath(d, source, p) {
        CurrentIsTheEnd(d, p);
      }
    } else {
      var edges := Outgoing(d, source);
      WalkIsExact(d, source, {source}, edges, p);
      if IsSimplePath(d, source, p) {
        FirstOfPath(d, source, p);
        var visits := Visits(d, source, p);
        assert forall k | 1 <= k <= |p| :: visits[0] != visits[k];
      }
    }
  }

  /** No path is returned twice, and there are finitely many to begin with. */
  lemma PathsAreDistinct(d: Definition, source: string)
    ensures AllDistinct(MigrationPaths(d, source))
  {
    if source != d.currentVersion {
      WalkIsDistinct(d, {source}, Outgoing(d, source));
    }
  }

  lemma {:induction false} WalkStartsInEdges(d: Definition, seen: set<string>, edges: seq<nat>)
    requires Declared(d, edges)
    ensures forall p | p in WalkPaths(d, seen, edges) :: p != [] && p[0] in edges
    decreases |edges|
  {
    if edges != [] {
      WalkStartsInEdges(d, seen, edges[1..]);
      assert WalkPaths(d, seen, edges) == Here(d, seen, edges[0]) + WalkPaths(d, seen, edges[1..]);
    }
  }

  lemma {:induction false} WalkIsDistinct(d: Definition, seen: set<string>, edges: seq<nat>)
    requires Declared(d, edges)
    requires AllDistinct(edges)
    ensures AllDistinct(WalkPaths(d, seen, edges))
    decreases Targets(d) - seen, |edges|
  {
    if edges != [] {
      var here, rest := Here(d, seen, edges[0]), WalkPaths(d, seen, edges[1..]);
      var to := d.migrations[edges[0]].toVersion;
      WalkIsDistinct(d, seen, edges[1..]);
      WalkStartsInEdges(d, seen, edges[1..]);
      if to !in seen && to != d.currentVersion {
        assert to in Targets(d);
        var next := WalkPaths(d, seen + {to}, Outgoing(d, to));
        WalkIsDistinct(d, seen + {to}, Outgoing(d, to));
        forall i, j | 0 <= i < j < |here| ensures here[i] != here[j] {
          assert here[i][1..] == next[i] && here[j][1..] == next[j];
        }
      }
      forall i, j | 0 <= i < |here| && 0 <= j < |rest| ensures here[i] != rest[j] {
        assert rest[j] in rest && here[i][0] == edges[0];
      }
      assert WalkPaths(d, seen, edges) == here + rest;
    }
  }

  /** The enumeration as the program runs it: a recursive walk that appends to one shared list. */
  class PathWalk {
    const d: Definition
    const bySource: map<string, seq<nat>>
    var paths: seq<Path>

    ghost predicate Valid() {
      Groups(bySource, d, |d.migrations|)
    }

    constructor (d: Definition)
      ensures Valid() && this.d == d && paths == []
    {
      var table := GroupBySource(d);
      this.d := d;
      bySource := table;
      paths := [];
    }

    lemma StepsAreOutgoing(version: string)
      requires Valid()
      ensures StepsFrom(bySource, version) == Outgoing(d, version)
    {}

    method Walk(version: string, path: Path, seen: set<string>)
      requires Valid()
      modifies this
      ensures paths == old(paths) + Extend(path, WalkPaths(d, seen, Outgoing(d, version)))
      decreases Targets(d) - seen, 1
    {
      hide Outgoing, Here;
      StepsAreOutgoing(version);
      var edges := StepsFrom(bySource, version);
      ghost var all := old(paths) + Extend(path, WalkPaths(d, seen, edges));
      assert edges[0..] == edges;
      for i := 0 to |edges|
        invariant Declared(d, edges[i..])
        invariant paths + Extend(path, WalkPaths(d, seen, edges[i..])) == all
      {
        ghost var was, here := paths, Extend(path, Here(d, seen, edges[i]));
        ghost var rest := Extend(path, WalkPaths(d, seen, edges[i + 1..]));
        FirstThenRest(d, path, seen, edges, i);
        Associate(was, here, rest);
        TakeEdge(edges[i], path, seen);
      }
      assert Extend(path, WalkPaths(d, seen, edges[|edges|..])) == [];
    }

    /** The body of the walk's loop. */
    method TakeEdge(edge: nat, path: Path, seen: set<string>)
      requires Valid() && edge < |d.migrations|
      modifies this
      ensures paths == old(paths) + Extend(path, Here(d, seen, edge))
      decreases Targets(d) - seen, 0
    {
      var to := d.migrations[edge].toVersion;
      if to !in seen {
        var nextPath := path + [edge];
        if to == d.currentVersion {
          paths := paths + [nextPath];
        } else {
          assert to in Targets(d);
          ExtendTwice(path, edge, WalkPaths(d, seen + {to}, Outgoing(d, to)));
          Walk(to, nextPath, seen + {to});
        }
      }
    }
  }

  /** `table` holds, per source version, the first `n` declared steps. */
  ghost predicate Groups(table: map<string, seq<nat>>, d: Definition, n: nat)
    requires n <= |d.migrations|
  {
    forall v :: StepsFrom(table, v) == OutgoingUpTo(d, v, n)
  }

  function AddStep(table: map<string, seq<nat>>, source: string, step: nat): map<string, seq<nat>> {
    table[source := StepsFrom(table, source) + [step]]
  }

  lemma GroupOneMore(table: map<string, seq<nat>>, d: Definition, k: nat)
    requires k < |d.migrations| && Groups(table, d, k)
    ensures Groups(AddStep(table, d.migrations[k].fromVersion, k), d, k + 1)
  {
    hide StepsFrom, AddStep;
    forall v ensures StepsFrom(AddStep(table, d.migrations[k].fromVersion, k), v) == OutgoingUpTo(d, v, k + 1) {
      AddedSteps(table, d.migrations[k].fromVersion, k, v);
      assert StepsFrom(table, v) == OutgoingUpTo(d, v, k);
    }
  }

  lemma AddedSteps(table: map<string, seq<nat>>, source: string, step: nat, v: string)
    ensures StepsFrom(AddStep(table, source, step), v) == StepsFrom(table, v) + if v == source then [step] else []
  {}

  method GroupBySource(d: Definition) returns (table: map<string, seq<nat>>)
    ensures Groups(table, d, |d.migrations|)
  {
    table := map[];
    for k := 0 to |d.migrations|
      invariant Groups(table, d, k)
    {
      GroupOneMore(table, d, k);
      table := AddStep(table, d.migrations[k].fromVersion, k);
    }
  }

  function StepsFrom(table: map<string, seq<nat>>, version: string): seq<nat> {
    if version in table then table[version] else []
  }

  lemma FirstThenRest(d: Definition, prefix: Path, seen: set<string>, edges: seq<nat>, i: nat)
    requires Declared(d, edges) && i < |edges|
    ensures Declared(d, edges[i..]) && Declared(d, edges[i + 1..])
    ensures Extend(prefix, WalkPaths(d, seen, edges[i..]))
            == Extend(prefix, Here(d, seen, edges[i])) + Extend(prefix, WalkPaths(d, seen, edges[i + 1..]))
  {
    assert edges[i..][1..] == edges[i + 1..];
    assert WalkPaths(d, seen, edges[i..]) == Here(d, seen, edges[i]) + WalkPaths(d, seen, edges[i + 1..]);
  }

  lemma ExtendTwice(prefix: Path, e: nat, paths: seq<Path>)
    ensures Extend(prefix, Extend([e], paths)) == Extend(prefix + [e], paths)
  {
    forall k | 0 <= k < |paths| ensures prefix + ([e] + paths[k]) == prefix + [e] + paths[k] {}
  }

  method EnumeratePaths(d: Definition, source: string) returns (paths: seq<Path>)
    ensures paths == MigrationPaths(d, source)
    ensures AllDistinct(paths)
    ensures forall p :: p in paths <==> IsSimplePath(d, source, p)
  {
    if source == d.currentVersion {
      paths := [[]];
    } else {
      var walk := new PathWalk(d);
      walk.Walk(source, [], {source});
      paths := walk.paths;
      ExtendNothing(WalkPaths(d, {source}, Outgoing(d, source)));
    }
    PathsAreDistinct(d, source);
    forall p ensures p in paths <==> IsSimplePath(d, source, p) {
      PathsAreTheSimplePaths(d, source, p);
    }
  }

  lemma ExtendNothing(paths: seq<Path>)
    ensures Extend([], paths) == paths
  {
    assert forall k | 0 <= k < |paths| :: [] + paths[k] == paths[k];
  }
}
