/** The static check of a registry, and the runtime behaviour it guarantees. */
module RegistryValidation {
  import opened Text
  import opened Contracts
  import opened Migrations
  import opened Registry
  import Versioning

  /** A registry defect, as the check reports it. */
  datatype Defect =
    | UnparsableVersion
    | NoCurrentModel
    | NoLegacyModel
    | IdNotConst(version: string)
    | VersionNotConst(version: string)
    | RepeatedRefusal
    | RefusalWithoutModel(version: string)
    | DuplicateEdge(step: nat)
    | EdgeWithoutModel(step: nat)
    | EdgeWithoutDescription(step: nat)
    | MigrationAndRefusal(version: string)
    | NotOnePath(version: string, found: nat)

  ghost predicate VersionsAndModelsOk(d: Definition) {
    && Versioning.Parse(d.currentVersion).Some?
    && (forall v | v in d.models :: Versioning.Parse(v).Some?)
    && d.currentVersion in d.models
    && (d.legacyVersion.Some? ==> d.legacyVersion.value in d.models)
    && forall v | v in d.models :: ConstsMatch(d, v)
  }

  predicate ConstsMatch(d: Definition, v: string)
    requires v in d.models
  {
    d.models[v].idConst == Some(d.schemaId) && d.models[v].versionConst == Some(v)
  }

  ghost predicate DeclarationsOk(d: Definition) {
    && (forall i, j | 0 <= i < j < |d.refusals| :: d.refusals[i].fromVersion != d.refusals[j].fromVersion)
    && (forall i | 0 <= i < |d.refusals| :: d.refusals[i].fromVersion in d.models)
    && (forall i, j | 0 <= i < j < |d.migrations| ::
          d.migrations[i].fromVersion != d.migrations[j].fromVersion || d.migrations[i].toVersion != d.migrations[j].toVersion)
    && (forall i | 0 <= i < |d.migrations| :: d.migrations[i].fromVersion in d.models && d.migrations[i].toVersion in d.models)
    && (forall i | 0 <= i < |d.migrations| :: !IsBlank(d.migrations[i].description))
  }

  /** Every old version is refused or has exactly one migration path, and not both. */
  ghost predicate OldVersionsOk(d: Definition) {
    forall v | v in d.models && v != d.currentVersion ::
      if Refused(d, v) then MigrationPaths(d, v) == [] else |MigrationPaths(d, v)| == 1
  }

  ghost predicate ValidDefinition(d: Definition) {
    VersionsAndModelsOk(d) && DeclarationsOk(d) && OldVersionsOk(d)
  }

  ghost predicate ValidRegistry(defs: Definitions) {
    WellKeyed(defs) && forall id | id in defs :: ValidDefinition(defs[id])
  }

  // --- the check as it runs ------------------------------------------------------------------

  method VersionAndModelErrors(d: Definition) returns (errors: seq<Defect>)
    ensures errors == [] <==> VersionsAndModelsOk(d)
  {
    hide Versioning.Parse;
    errors := [];
    var parsable := Versioning.Parse(d.currentVersion).Some?;
    var todo := d.models.Keys;
    while todo != {} && parsable
      invariant todo <= d.models.Keys
      invariant parsable <==> Versioning.Parse(d.currentVersion).Some? && forall v | v in d.models && v !in todo :: Versioning.Parse(v).Some?
      decreases |todo|
    {
      var v :| v in todo;
      todo := todo - {v};
      parsable := Versioning.Parse(v).Some?;
      assert v in d.models && v !in todo;
    }
    if !parsable {
      errors := errors + [UnparsableVersion];
    }
    if d.currentVersion !in d.models {
      errors := errors + [NoCurrentModel];
    }
    if d.legacyVersion.Some? && d.legacyVersion.value !in d.models {
      errors := errors + [NoLegacyModel];
    }
    ghost var soFar := errors;
    todo := d.models.Keys;
    while todo != {}
      invariant todo <= d.models.Keys
      invariant errors == [] <==> soFar == [] && forall v | v in d.models && v !in todo :: ConstsMatch(d, v)
      decreases |todo|
    {
      var v :| v in todo;
      todo := todo - {v};
      if d.models[v].idConst != Some(d.schemaId) {
        errors := errors + [IdNotConst(v)];
      }
      if d.models[v].versionConst != Some(v) {
        errors := errors + [VersionNotConst(v)];
      }
      assert v in d.models && v !in todo;
    }
  }

  /** A list has as many distinct entries as entries exactly when none repeats. */
  lemma {:induction false} DistinctCount(s: seq<string>)
    ensures var distinct := set x | x in s;
            |distinct| <= |s| && (|distinct| == |s| <==> AllDistinct(s))
  {
    if s != [] {
      var n := |s| - 1;
      var front := s[..n];
      DistinctCount(front);
      assert s == front + [s[n]];
      assert (set x | x in s) == (set x | x in front) + {s[n]};
      if s[n] in front {
        assert (set x | x in s) == (set x | x in front);
        var i :| 0 <= i < n && front[i] == s[n];
        assert s[i] == s[n];
      } else {
        assert AllDistinct(front) ==> AllDistinct(s);
        assert AllDistinct(s) ==> AllDistinct(front);
      }
    }
  }

  function RefusedVersions(d: Definition): (r: seq<string>)
    ensures |r| == |d.refusals| && forall i | 0 <= i < |r| :: r[i] == d.refusals[i].fromVersion
  {
    seq(|d.refusals|, i requires 0 <= i < |d.refusals| => d.refusals[i].fromVersion)
  }

  method DeclarationErrors(d: Definition) returns (errors: seq<Defect>)
    ensures errors == [] <==> DeclarationsOk(d)
  {
    errors := [];
    var refused := set v | v in RefusedVersions(d);
    DistinctCount(RefusedVersions(d));
    if |refused| != |d.refusals| {
      errors := errors + [RepeatedRefusal];
    }
    ghost var afterCount := errors;
    for i := 0 to |d.refusals|
      invariant errors == [] <==> afterCount == [] && forall k | 0 <= k < i :: d.refusals[k].fromVersion in d.models
    {
      if d.refusals[i].fromVersion !in d.models {
        errors := errors + [RefusalWithoutModel(d.refusals[i].fromVersion)];
      }
    }
    ghost var afterRefusals := errors;
    var edges: set<(string, string)> := {};
    for i := 0 to |d.migrations|
      invariant edges == set k | 0 <= k < i :: (d.migrations[k].fromVersion, d.migrations[k].toVersion)
      invariant errors == [] <==>
                && afterRefusals == []
                && (forall j, k | 0 <= j < k < i ::
                      d.migrations[j].fromVersion != d.migrations[k].fromVersion || d.migrations[j].toVersion != d.migrations[k].toVersion)
                && (forall k | 0 <= k < i :: d.migrations[k].fromVersion in d.models && d.migrations[k].toVersion in d.models)
                && (forall k | 0 <= k < i :: !IsBlank(d.migrations[k].description))
    {
      var step := d.migrations[i];
      var edge := (step.fromVersion, step.toVersion);
      assert edge in edges <==> exists k :: 0 <= k < i && d.migrations[k].fromVersion == step.fromVersion && d.migrations[k].toVersion == step.toVersion;
      if edge in edges {
        errors := errors + [DuplicateEdge(i)];
      }
      edges := edges + {edge};
      if step.fromVersion !in d.models || step.toVersion !in d.models {
        errors := errors + [EdgeWithoutModel(i)];
      }
      StripIsSolid(step.description);
      if Strip(step.description) == "" {
        errors := errors + [EdgeWithoutDescription(i)];
      }
    }
  }

  method OldVersionErrors(d: Definition) returns (errors: seq<Defect>)
    ensures errors == [] <==> OldVersionsOk(d)
  {
    errors := [];
    var todo := d.models.Keys;
    while todo != {}
      invariant todo <= d.models.Keys
      invariant errors == [] <==> forall v | v in d.models && v !in todo && v != d.currentVersion ::
                                    if Refused(d, v) then MigrationPaths(d, v) == [] else |MigrationPaths(d, v)| == 1
      decreases |todo|
    {
      var v :| v in todo;
      todo := todo - {v};
      assert v in d.models && v !in todo;
      if v != d.currentVersion {
        var paths := EnumeratePaths(d, v);
        if Refused(d, v) && paths != [] {
          errors := errors + [MigrationAndRefusal(v)];
        } else if !Refused(d, v) && |paths| != 1 {
          errors := errors + [NotOnePath(v, |paths|)];
        }
      }
    }
  }

  /** The check accepts exactly the valid registries. */
  method ValidateRegistry(defs: Definitions) returns (errors: seq<Defect>)
    requires WellKeyed(defs)
    ensures errors == [] <==> ValidRegistry(defs)
  {
    errors := [];
    var todo := defs.Keys;
    while todo != {}
      invariant todo <= defs.Keys
      invariant errors == [] <==> forall id | id in defs && id !in todo :: ValidDefinition(defs[id])
      decreases |todo|
    {
      var id :| id in todo;
      todo := todo - {id};
      assert id in defs && id !in todo;
      var versions := VersionAndModelErrors(defs[id]);
      var declarations := DeclarationErrors(defs[id]);
      var olds := OldVersionErrors(defs[id]);
      errors := errors + versions + declarations + olds;
    }
  }

  // --- what acceptance guarantees ------------------------------------------------------------

  /** A supported version that is not refused has exactly one path, and it is simple. */
  lemma OnePath(d: Definition, v: string)
    requires ValidDefinition(d) && v in d.models && !Refused(d, v)
    ensures |MigrationPaths(d, v)| == 1 && IsSimplePath(d, v, MigrationPaths(d, v)[0])
  {
    PathIsDeclared(d, v);
  }

  /** The refusals that are about the record, not about the registry. */
  predicate IsRecordError(e: ContractError) {
    e in {MissingIdentity, UnknownContract, UnsupportedVersion, UnsupportedFutureVersion, DeclaredRefusal, InvalidSource}
  }

  /** Dispatch never meets a missing path, an ambiguous one, or a version without a model. */
  lemma ResolveFailsOnlyOnTheRecord(defs: Definitions, r: Record)
    requires ValidRegistry(defs)
    ensures Resolve(defs, r).Err? ==> IsRecordError(Resolve(defs, r).error)
    ensures Resolve(defs, r).Ok? ==>
              var (d, v) := (defs[r[ID].s], r[VERSION].s);
              v in d.models && !Refused(d, v) && Validates(d.models[v], r)
  {
    if HasIdentity(r) && r[ID].s in defs {
      var d, v := defs[r[ID].s], r[VERSION].s;
      if v in d.models && !Refused(d, v) {
        OnePath(d, v);
      }
      ResolveWithOnePath(defs, r);
    }
  }

  lemma ResolveWithOnePath(defs: Definitions, r: Record)
    requires HasIdentity(r) && r[ID].s in defs
    requires var (d, v) := (defs[r[ID].s], r[VERSION].s);
             v in d.models && !Refused(d, v) ==> |MigrationPaths(d, v)| == 1
    ensures Resolve(defs, r).Err? ==> IsRecordError(Resolve(defs, r).error)
    ensures Resolve(defs, r).Ok? ==>
              var (d, v) := (defs[r[ID].s], r[VERSION].s);
              v in d.models && !Refused(d, v) && Validates(d.models[v], r)
  {}

  /** Nor does reading; past dispatch only a transform's output can be refused. */
  lemma ReadFailsOnlyOnTheRecord(defs: Definitions, r: Record)
    requires ValidRegistry(defs)
    ensures ReadCurrent(defs, r).Err? ==> IsRecordError(ReadCurrent(defs, r).error)
    ensures Resolve(defs, r).Ok? && ReadCurrent(defs, r).Err? ==> ReadCurrent(defs, r).error == InvalidSource
  {
    ResolveFailsOnlyOnTheRecord(defs, r);
    if Resolve(defs, r).Ok? {
      var d, v := defs[r[ID].s], r[VERSION].s;
      OnePath(d, v);
      var p := MigrationPaths(d, v)[0];
      MigrateFailsOnlyOnData(d, p, r);
      if Migrate(d, p, r).Ok? {
        MigratedIsValid(d, v, p, r);
      }
    }
  }

  lemma {:induction false} MigrateFailsOnlyOnData(d: Definition, p: Path, r: Record)
    requires Declared(d, p) && DeclarationsOk(d)
    ensures Migrate(d, p, r).Err? ==> Migrate(d, p, r).error == InvalidSource
  {
    if p != [] {
      MigrateFailsOnlyOnData(d, p[1..], d.migrations[p[0]].transform(r));
    }
  }

  lemma {:induction false} SuffixIsSimple(d: Definition, v: string, p: Path, k: nat)
    requires IsSimplePath(d, v, p) && k <= |p|
    ensures IsSimplePath(d, Visits(d, v, p)[k], p[k..])
    ensures k < |p| ==> Visits(d, v, p)[k] != d.currentVersion
    decreases |p|
  {
    var visits := Visits(d, v, p);
    if k < |p| { assert visits[k] != visits[|p|]; }
    if k == 0 {
      assert p[0..] == p;
    } else {
      DistinctTail(visits);
      ConsPath(d, v, p, {v});
      SuffixIsSimple(d, d.migrations[p[0]].toVersion, p[1..], k - 1);
      assert p[1..][k - 1..] == p[k..];
    }
  }

  lemma DistinctTail<T(!new)>(s: seq<T>)
    requires s != [] && AllDistinct(s)
    ensures Avoids(s[1..], {s[0]})
  {}

  lemma {:induction false} VisitsHaveModels(d: Definition, v: string, p: Path)
    requires DeclarationsOk(d) && Declared(d, p) && v in d.models
    ensures forall k | 0 <= k <= |p| :: Visits(d, v, p)[k] in d.models
    decreases |p|
  {
    if p != [] {
      VisitsHaveModels(d, d.migrations[p[0]].toVersion, p[1..]);
    }
  }

  /** In an accepted family a simple path is the only path of its source. */
  lemma OnlyPath(d: Definition, w: string, q: Path)
    requires OldVersionsOk(d) && w in d.models && IsSimplePath(d, w, q)
    ensures MigrationPaths(d, w) == [q]
    ensures w != d.currentVersion ==> !Refused(d, w)
  {
    PathsAreTheSimplePaths(d, w, q);
    if w == d.currentVersion {
      CurrentIsTheEnd(d, q);
    }
  }

  /** A version on the way of an accepted path has the rest of that path as its own, and is not
      refused; the current version is the one place where a refusal can hide. */
  lemma PathOfIntermediate(d: Definition, v: string, p: Path, k: nat)
    requires DeclarationsOk(d) && OldVersionsOk(d) && v in d.models && IsSimplePath(d, v, p) && k <= |p|
    ensures var w := Visits(d, v, p)[k];
            && w in d.models
            && MigrationPaths(d, w) == [p[k..]]
            && (w != d.currentVersion ==> !Refused(d, w))
            && (k < |p| <==> w != d.currentVersion)
  {
    SuffixIsSimple(d, v, p, k);
    VisitsHaveModels(d, v, p);
    OnlyPath(d, Visits(d, v, p)[k], p[k..]);
  }

  /** Whatever reads, reads along the one path of its version. */
  lemma ReadHasOnePath(defs: Definitions, r: Record)
    requires ValidRegistry(defs) && Resolve(defs, r).Ok?
    ensures var (d, v) := (defs[r[ID].s], r[VERSION].s);
            v in d.models && !Refused(d, v) && |MigrationPaths(d, v)| == 1
  {
    ResolveFailsOnlyOnTheRecord(defs, r);
    OnePath(defs[r[ID].s], r[VERSION].s);
  }

  /** The record after the first `k` steps of `p`, if they all succeed. */
  function After(d: Definition, p: Path, k: nat, r: Record): Option<Record> {
    if !Declared(d, p) || k > |p| then None else
    var m := Migrate(d, p[..k], r);
    if m.Ok? then Some(m.value) else None
  }

  ghost predicate IsAt(r: Record, id: string, v: string) {
    HasIdentity(r) && r[ID] == Str(id) && r[VERSION] == Str(v)
  }

  /** Reading commutes with partial migration. The record `mid` after the first `k` steps of the one
      path `p` of version `v` reads to the same current record exactly when it carries its identity
      and, at the end of the path, the current version is not refused. */
  lemma ReadingCommutes(defs: Definitions, d: Definition, v: string, p: Path, r: Record, k: nat)
    requires ValidRegistry(defs) && d.schemaId in defs && defs[d.schemaId] == d
    requires IsAt(r, d.schemaId, v) && ReadCurrent(defs, r).Ok?
    requires MigrationPaths(d, v) == [p] && k <= |p|
    ensures After(d, p, k, r).Some?
    ensures var mid := After(d, p, k, r).value;
            ReadCurrent(defs, mid) == ReadCurrent(defs, r)
            <==>
            ID in mid && VERSION in mid && (k == |p| ==> !Refused(d, d.currentVersion))
  {
    ReadHasOnePath(defs, r);
    ResolveFailsOnlyOnTheRecord(defs, r);
    PathsAreTheSimplePaths(d, v, p);
    CommutesAlong(defs, d, v, p, r, k);
  }

  lemma CommutesAlong(defs: Definitions, d: Definition, v: string, p: Path, r: Record, k: nat)
    requires d.schemaId in defs && defs[d.schemaId] == d && ValidDefinition(d)
    requires v in d.models && Validates(d.models[v], r) && IsAt(r, d.schemaId, v) && ReadCurrent(defs, r).Ok?
    requires MigrationPaths(d, v) == [p] && k <= |p| && IsSimplePath(d, v, p)
    ensures After(d, p, k, r).Some?
    ensures var mid := After(d, p, k, r).value;
            ReadCurrent(defs, mid) == ReadCurrent(defs, r)
            <==>
            ID in mid && VERSION in mid && (k == |p| ==> !Refused(d, d.currentVersion))
  {
    PathOfIntermediate(d, v, p, k);
    var w := Visits(d, v, p)[k];
    ReadingAtVersion(defs, d.schemaId, v, r, p);
    IntermediateIsValid(d, v, p, k, r);
    var mid := Migrate(d, p[..k], r).value;
    if ID in mid && VERSION in mid {
      ReadingAtVersion(defs, d.schemaId, w, mid, p[k..]);
    }
  }

  lemma IntermediateIsValid(d: Definition, v: string, p: Path, k: nat, r: Record)
    requires Declared(d, p) && k <= |p| && Migrate(d, p, r).Ok?
    requires v in d.models && Validates(d.models[v], r)
    ensures Declared(d, p[..k]) && Declared(d, p[k..])
    ensures Migrate(d, p[..k], r).Ok?
    ensures var (w, mid) := (Visits(d, v, p)[k], Migrate(d, p[..k], r).value);
            && w in d.models && Validates(d.models[w], mid)
            && Migrate(d, p[k..], mid) == Migrate(d, p, r)
  {
    MigrateSplit(d, p, k, r);
    VisitsOfPrefix(d, v, p, k);
    MigratedIsValid(d, v, p[..k], r);
  }

  /** A valid record at a version with one path reads, unless refused, along that path. */
  lemma ReadingAtVersion(defs: Definitions, id: string, w: string, mid: Record, p: Path)
    requires id in defs && defs[id].schemaId == id && VersionsAndModelsOk(defs[id]) && w in defs[id].models
    requires MigrationPaths(defs[id], w) == [p] && Declared(defs[id], p)
    requires ID in mid && VERSION in mid && Validates(defs[id].models[w], mid)
    ensures mid[ID] == Str(id) && mid[VERSION] == Str(w)
    ensures if Refused(defs[id], w) then ReadCurrent(defs, mid) == Err(DeclaredRefusal)
            else
              && Resolve(defs, mid).Ok?
              && var m := Migrate(defs[id], p, mid);
                 ReadCurrent(defs, mid) == if m.Err? then Err(m.error) else Build(defs[id], m.value)
  {
    ResolvingAtVersion(defs, id, w, mid);
  }

  lemma ResolvingAtVersion(defs: Definitions, id: string, w: string, mid: Record)
    requires id in defs && defs[id].schemaId == id && VersionsAndModelsOk(defs[id]) && w in defs[id].models
    requires |MigrationPaths(defs[id], w)| == 1
    requires ID in mid && VERSION in mid && Validates(defs[id].models[w], mid)
    ensures mid[ID] == Str(id) && mid[VERSION] == Str(w)
    ensures if Refused(defs[id], w) then Resolve(defs, mid) == Err(DeclaredRefusal) else Resolve(defs, mid).Ok?
  {
    var d := defs[id];
    assert d.models[w].idConst == Some(id) && d.models[w].versionConst == Some(w);
    assert CheckSupported(d, w) == None;
  }

  lemma {:induction false} VisitsOfPrefix(d: Definition, v: string, p: Path, k: nat)
    requires Declared(d, p) && k <= |p|
    ensures Visits(d, v, p[..k])[k] == Visits(d, v, p)[k]
    decreases |p|
  {
    if k > 0 {
      VisitsOfPrefix(d, d.migrations[p[0]].toVersion, p[1..], k - 1);
      assert p[..k][1..] == p[1..][..k - 1];
    }
  }

  // --- what an accepted registry may still do ------------------------------------------------

  /** A record with its identity filled in. */
  function Identified(id: string, version: string, r: Record): Record {
    r[ID := Str(id)][VERSION := Str(version)]
  }

  /** A model that accepts any content and fills in the identity it pins. */
  function OpenModel(id: string, version: string): Model {
    Model(Some(id), Some(version), (r: Record) => true, (r: Record) => Identified(id, version, r))
  }

  /** A family with one old version, one step to the current one, and perhaps a refusal of that. */
  function OneStepFamily(id: string, v: string, w: string, step: Record -> Record, isWithdrawn: bool): Definition {
    Definition(id, w, map[v := OpenModel(id, v), w := OpenModel(id, w)],
               [MigrationStep(v, w, "up", step)], if isWithdrawn then [Refusal(w, "withdrawn")] else [], None)
  }

  lemma OneStepShape(id: string, v: string, w: string, step: Record -> Record, isWithdrawn: bool)
    ensures var d := OneStepFamily(id, v, w, step, isWithdrawn);
            && d.schemaId == id && d.currentVersion == w && w in d.models && d.models[w] == OpenModel(id, w) && v in d.models
            && (forall x | x in d.models && x != w :: x == v)
            && |d.migrations| == 1 && d.migrations[0] == MigrationStep(v, w, "up", step)
  {}

  /** With one step, from an old version to the current one, there is one path. */
  lemma OneStepPaths(d: Definition, v: string)
    requires |d.migrations| == 1 && d.migrations[0].fromVersion == v && d.migrations[0].toVersion == d.currentVersion
    requires v != d.currentVersion
    ensures MigrationPaths(d, v) == [[0]]
  {
    assert OutgoingUpTo(d, v, 0) == [];
    assert OutgoingUpTo(d, v, 1) == [0];
    assert Outgoing(d, v) == [0];
    assert WalkPaths(d, {v}, [0]) == [[0]] + WalkPaths(d, {v}, []);
  }

  lemma OneStepVersions(id: string, v: string, w: string, step: Record -> Record, isWithdrawn: bool)
    requires v != w && Versioning.Parse(v).Some? && Versioning.Parse(w).Some?
    ensures VersionsAndModelsOk(OneStepFamily(id, v, w, step, isWithdrawn))
  {
    var d := OneStepFamily(id, v, w, step, isWithdrawn);
    assert ConstsMatch(d, v) && ConstsMatch(d, w);
    forall x | x in d.models ensures Versioning.Parse(x).Some? && ConstsMatch(d, x) {
      assert x == v || x == w;
    }
  }

  lemma OneStepDeclarations(id: string, v: string, w: string, step: Record -> Record, isWithdrawn: bool)
    requires v != w
    ensures var d := OneStepFamily(id, v, w, step, isWithdrawn);
            DeclarationsOk(d) && !Refused(d, v) && (Refused(d, w) <==> isWithdrawn)
  {
    assert !IsSpace("up"[0]);
    if isWithdrawn { assert OneStepFamily(id, v, w, step, isWithdrawn).refusals[0].fromVersion == w; }
  }

  lemma OneOldVersion(d: Definition, v: string)
    requires forall x | x in d.models && x != d.currentVersion :: x == v
    requires !Refused(d, v) && |MigrationPaths(d, v)| == 1
    ensures OldVersionsOk(d)
  {}

  lemma OneFamily(d: Definition)
    requires VersionsAndModelsOk(d) && DeclarationsOk(d) && OldVersionsOk(d)
    ensures ValidRegistry(map[d.schemaId := d])
  {}

  lemma OneStepFamilyIsValid(id: string, v: string, w: string, step: Record -> Record, isWithdrawn: bool)
    requires v != w && Versioning.Parse(v).Some? && Versioning.Parse(w).Some?
    ensures ValidRegistry(map[id := OneStepFamily(id, v, w, step, isWithdrawn)])
  {
    hide *;
    var d := OneStepFamily(id, v, w, step, isWithdrawn);
    OneStepShape(id, v, w, step, isWithdrawn);
    OneStepVersions(id, v, w, step, isWithdrawn);
    OneStepDeclarations(id, v, w, step, isWithdrawn);
    OneStepPaths(d, v);
    OneOldVersion(d, v);
    OneFamily(d);
  }

  /** A record at the old version reads as whatever the step makes of it, if that validates. */
  lemma OneStepReads(id: string, v: string, w: string, step: Record -> Record, isWithdrawn: bool, older: Record)
    requires v != w && Versioning.Parse(v).Some? && Versioning.Parse(w).Some?
    requires IsAt(older, id, v) && Validates(OpenModel(id, w), step(older))
    ensures var d := OneStepFamily(id, v, w, step, isWithdrawn);
            && ReadCurrent(map[id := d], older) == Ok(Instance(id, w, Identified(id, w, step(older))))
            && After(d, [0], 1, older) == Some(step(older))
  {
    var d := OneStepFamily(id, v, w, step, isWithdrawn);
    OneStepPaths(OneStepFamily(id, v, w, step, isWithdrawn), v);
    OneStepVersions(id, v, w, step, isWithdrawn);
    OneStepDeclarations(id, v, w, step, isWithdrawn);
    OneStepMigrates(id, v, w, step, isWithdrawn, older);
    ReadingAtVersion(map[id := d], id, v, older, [0]);
  }

  lemma OneStepMigrates(id: string, v: string, w: string, step: Record -> Record, isWithdrawn: bool, older: Record)
    requires v != w && Validates(OpenModel(id, w), step(older))
    ensures var d := OneStepFamily(id, v, w, step, isWithdrawn);
            Declared(d, [0]) && Migrate(d, [0], older) == Ok(step(older)) && After(d, [0], 1, older) == Some(step(older))
  {
    var d := OneStepFamily(id, v, w, step, isWithdrawn);
    assert [0][..1] == [0];
    assert Migrate(d, [0], older) == Migrate(d, [], step(older));
  }

  /** An accepted registry can refuse its own current version: the check passes over that version,
      so an old record reads while the current record it migrates to does not. */
  lemma CurrentVersionCanBeRefused(id: string, v: string, w: string, older: Record)
    requires v != w && Versioning.Parse(v).Some? && Versioning.Parse(w).Some?
    requires older == map[ID := Str(id), VERSION := Str(v)]
    ensures var step := (r: Record) => r[VERSION := Str(w)];
            var (d, newer) := (OneStepFamily(id, v, w, step, true), older[VERSION := Str(w)]);
            var defs := map[id := d];
            && ValidRegistry(defs) && After(d, [0], 1, older) == Some(newer)
            && ReadCurrent(defs, older).Ok? && ReadCurrent(defs, newer) == Err(DeclaredRefusal)
  {
    hide MigrationPaths, VersionsAndModelsOk, DeclarationsOk, ValidRegistry, Refused, ReadCurrent, Migrate, After;
    var step := (r: Record) => r[VERSION := Str(w)];
    var newer := older[VERSION := Str(w)];
    IdentityKeysDiffer();
    OneStepFamilyIsValid(id, v, w, step, true);
    OpenModelAccepts(id, w, newer);
    OneStepReads(id, v, w, step, true, older);
    assert newer == map[ID := Str(id), VERSION := Str(w)];
    WithdrawnIsRefused(id, v, w, step, newer);
  }

  lemma WithdrawnIsRefused(id: string, v: string, w: string, step: Record -> Record, newer: Record)
    requires v != w && Versioning.Parse(v).Some? && Versioning.Parse(w).Some?
    requires newer == map[ID := Str(id), VERSION := Str(w)]
    ensures ReadCurrent(map[id := OneStepFamily(id, v, w, step, true)], newer) == Err(DeclaredRefusal)
  {
    hide *;
    var d := OneStepFamily(id, v, w, step, true);
    OneStepShape(id, v, w, step, true);
    OneStepVersions(id, v, w, step, true);
    OneStepDeclarations(id, v, w, step, true);
    IdentityKeysDiffer();
    OpenModelAccepts(id, w, newer);
    NoStepsFromCurrent(d);
    ReadingAtVersion(map[id := d], id, w, newer, []);
  }

  lemma OpenModelAccepts(id: string, w: string, r: Record)
    requires (ID in r ==> r[ID] == Str(id)) && (VERSION in r ==> r[VERSION] == Str(w))
    ensures Validates(OpenModel(id, w), r)
  {}

  lemma NoStepsFromCurrent(d: Definition)
    ensures MigrationPaths(d, d.currentVersion) == [[]] && Declared(d, [])
  {}

  lemma IdentityKeysDiffer()
    ensures ID != VERSION
  {
    assert ID[7] != VERSION[7];
  }

  /** A step may drop the identity: the intermediate record validates, as its model does not demand
      the fields it pins, and the old record reads; but the intermediate record does not. */
  lemma IdentityCanBeDropped(id: string, v: string, w: string, older: Record)
    requires v != w && Versioning.Parse(v).Some? && Versioning.Parse(w).Some?
    requires older == map[ID := Str(id), VERSION := Str(v)]
    ensures var d := OneStepFamily(id, v, w, (r: Record) => map[], false);
            var defs := map[id := d];
            && ValidRegistry(defs) && After(d, [0], 1, older) == Some(map[]) && Validates(d.models[w], map[])
            && ReadCurrent(defs, older).Ok? && ReadCurrent(defs, map[]) == Err(MissingIdentity)
  {
    var step := (r: Record) => map[];
    IdentityKeysDiffer();
    OneStepFamilyIsValid(id, v, w, step, false);
    OneStepReads(id, v, w, step, false, older);
  }
}
