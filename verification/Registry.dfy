/** Dispatch of a record to its family, and its migration to the family's current version. */
module Registry {
  import opened Text
  import opened Contracts
  import opened Migrations
  import Versioning

  datatype Resolution = Resolution(schemaId: string, sourceVersion: string, currentVersion: string,
                                   migrationPath: seq<string>)

  const ID := "schema_id"
  const VERSION := "schema_version"

  /** Strict validation: a pinned constant rejects any other value of a field that is present. */
  predicate Validates(m: Model, r: Record) {
    && m.accepts(r)
    && (m.idConst.Some? && ID in r ==> r[ID] == Str(m.idConst.value))
    && (m.versionConst.Some? && VERSION in r ==> r[VERSION] == Str(m.versionConst.value))
  }

  predicate HasIdentity(r: Record) {
    ID in r && r[ID].Str? && VERSION in r && r[VERSION].Str?
  }

  predicate Refused(d: Definition, version: string) {
    exists i :: 0 <= i < |d.refusals| && d.refusals[i].fromVersion == version
  }

  function CheckSupported(d: Definition, version: string): Option<ContractError> {
    var (observed, current) := (Versioning.Parse(version), Versioning.Parse(d.currentVersion));
    if observed.None? || current.None? then Some(UnsupportedVersion)
    else if version in d.models then None
    else if observed.value.major > current.value.major then Some(UnsupportedFutureVersion)
    else Some(UnsupportedVersion)
  }

  function ValidateSource(d: Definition, version: string, r: Record): Option<ContractError> {
    if version !in d.models then Some(MissingModel)
    else if !Validates(d.models[version], r) then Some(InvalidSource)
    else None
  }

  function Resolve(defs: Definitions, r: Record): Result<Resolution, ContractError> {
    if !HasIdentity(r) then Err(MissingIdentity) else
    var version := r[VERSION].s;
    if r[ID].s !in defs then Err(UnknownContract) else
    var d := defs[r[ID].s];
    var supported := CheckSupported(d, version);
    if supported.Some? then Err(supported.value) else
    if Refused(d, version) then Err(DeclaredRefusal) else
    var invalid := ValidateSource(d, version, r);
    if invalid.Some? then Err(invalid.value) else
    if version == d.currentVersion then Ok(Resolution(r[ID].s, version, version, [])) else
    var paths := MigrationPaths(d, version);
    if paths == [] then Err(NoMigrationPath)
    else if |paths| > 1 then Err(AmbiguousMigration)
    else
      PathIsDeclared(d, version);
      Ok(Resolution(r[ID].s, version, d.currentVersion, Visits(d, version, paths[0])[1..]))
  }

  /** A text that is no version, or has no model, is not supported; and it is from the future if it is
      a version whose major number is larger than the current one's. */
  lemma SupportedIff(defs: Definitions, r: Record)
    requires HasIdentity(r) && r[ID].s in defs
    ensures var (d, v, error) := (defs[r[ID].s], r[VERSION].s, Resolve(defs, r));
            var (observed, current) := (Versioning.Parse(v), Versioning.Parse(d.currentVersion));
            && (error == Err(UnsupportedFutureVersion) <==>
                  observed.Some? && current.Some? && v !in d.models && observed.value.major > current.value.major)
            && (error == Err(UnsupportedVersion) <==>
                  observed.None? || current.None? || (v !in d.models && observed.value.major <= current.value.major))
            && (error == Err(DeclaredRefusal) <==>
                  observed.Some? && current.Some? && v in d.models && exists i :: 0 <= i < |d.refusals| && d.refusals[i].fromVersion == v)
  {
    hide Versioning.Parse, MigrationPaths, Visits;
  }

  lemma PathIsDeclared(d: Definition, version: string)
    ensures forall i | 0 <= i < |MigrationPaths(d, version)| :: IsSimplePath(d, version, MigrationPaths(d, version)[i])
  {
    var paths := MigrationPaths(d, version);
    forall i | 0 <= i < |paths| ensures IsSimplePath(d, version, paths[i]) {
      PathsAreTheSimplePaths(d, version, paths[i]);
    }
  }

  /** A dispatchable old record has a resolution exactly if one simple path leads to the current
      version: it names the versions on that path after its own. With no path, or with two, it fails. */
  lemma DispatchIff(defs: Definitions, r: Record)
    requires HasIdentity(r) && r[ID].s in defs
    requires var d := defs[r[ID].s]; CheckSupported(d, r[VERSION].s).None? && !Refused(d, r[VERSION].s) && ValidateSource(d, r[VERSION].s, r).None?
    ensures var (d, v, res) := (defs[r[ID].s], r[VERSION].s, Resolve(defs, r));
            if v == d.currentVersion then res == Ok(Resolution(r[ID].s, v, v, [])) else
            && (res == Err(NoMigrationPath) <==> forall p :: !IsSimplePath(d, v, p))
            && (res == Err(AmbiguousMigration) <==> exists p, q :: p != q && IsSimplePath(d, v, p) && IsSimplePath(d, v, q))
            && (res.Ok? <==> exists p :: IsSimplePath(d, v, p) && forall q :: IsSimplePath(d, v, q) ==> q == p)
            && (res.Ok? ==> forall p :: IsSimplePath(d, v, p) ==> res.value == Resolution(r[ID].s, v, d.currentVersion, Visits(d, v, p)[1..]))
  {
    var (d, v) := (defs[r[ID].s], r[VERSION].s);
    var paths := MigrationPaths(d, v);
    hide CheckSupported, ValidateSource, MigrationPaths, IsSimplePath, Visits, Refused;
    PathsAreDistinct(d, v);
    forall p ensures IsSimplePath(d, v, p) <==> p in paths { PathsAreTheSimplePaths(d, v, p); }
    if |paths| > 1 { assert paths[0] != paths[1] && paths[0] in paths && paths[1] in paths; }
    if |paths| == 1 { assert paths == [paths[0]] && paths[0] in paths; }
  }

  /** The record after the steps of `p`, each result validated under the version it claims. */
  function Migrate(d: Definition, p: Path, r: Record): Result<Record, ContractError>
    requires Declared(d, p)
  {
    if p == [] then Ok(r) else
    var step := d.migrations[p[0]];
    var next := step.transform(r);
    var invalid := ValidateSource(d, step.toVersion, next);
    if invalid.Some? then Err(invalid.value) else Migrate(d, p[1..], next)
  }

  /** The construction of the current model object. */
  function Build(d: Definition, r: Record): Result<Instance, ContractError> {
    if d.currentVersion !in d.models then Err(MissingModel)
    else if !Validates(d.models[d.currentVersion], r) then Err(ModelRejected)
    else Ok(Instance(d.schemaId, d.currentVersion, d.models[d.currentVersion].fields(r)))
  }

  function ReadCurrent(defs: Definitions, r: Record): Result<Instance, ContractError> {
    var resolution := Resolve(defs, r);
    if resolution.Err? then Err(resolution.error) else
    var d := defs[r[ID].s];
    PathIsDeclared(d, r[VERSION].s);
    var migrated := Migrate(d, MigrationPaths(d, r[VERSION].s)[0], r);
    if migrated.Err? then Err(migrated.error) else Build(d, migrated.value)
  }

  /** Reading a record of a family the caller knows; one without identity is stamped first. */
  function ReadAs(defs: Definitions, schemaId: string, r: Record, version: Option<string>): Result<Instance, ContractError> {
    if schemaId !in defs then Err(UnknownContract) else
    var d := defs[schemaId];
    if ID !in r || r[ID].Null? then
      var assumed := if version.Some? && version.value != "" then version else d.legacyVersion;
      if assumed.None? then Err(MissingIdentity)
      else ReadCurrent(defs, r[ID := Str(schemaId)][VERSION := Str(assumed.value)])
    else if r[ID] != Str(schemaId) then Err(UnknownContract)
    else if version.Some? && (VERSION !in r || r[VERSION] != Str(version.value)) then Err(UnsupportedVersion)
    else ReadCurrent(defs, r)
  }

  /** A record of a known family reads only under its own id and at the bound version; one without
      an id reads as if it stated both, at the bound version or else the legacy one. */
  lemma ReadAsBinds(defs: Definitions, id: string, r: Record, version: Option<string>)
    requires id in defs
    ensures var read := ReadAs(defs, id, r, version);
            if ID in r && r[ID] != Null then
              && (r[ID] != Str(id) ==> read == Err(UnknownContract))
              && (r[ID] == Str(id) && version.Some? && (VERSION !in r || r[VERSION] != Str(version.value)) ==> read == Err(UnsupportedVersion))
              && (read.Ok? ==> r[ID] == Str(id) && (version.Some? ==> VERSION in r && r[VERSION] == Str(version.value)) && read == ReadCurrent(defs, r))
            else
              forall v | IsBoundTo(defs[id], version, v) :: read == ReadCurrent(defs, r[ID := Str(id)][VERSION := Str(v)])
    ensures (ID !in r || r[ID] == Null) && (forall v :: !IsBoundTo(defs[id], version, v)) ==> ReadAs(defs, id, r, version) == Err(MissingIdentity)
  {
    hide ReadCurrent;
    if version.Some? && version.value != "" {
      assert IsBoundTo(defs[id], version, version.value);
    } else if defs[id].legacyVersion.Some? {
      assert IsBoundTo(defs[id], version, defs[id].legacyVersion.value);
    }
  }

  /** The version of a record that states none: the one it is bound at, or else the legacy one. */
  predicate IsBoundTo(d: Definition, version: Option<string>, v: string) {
    (version == Some(v) && v != "") || ((version == None || version == Some("")) && d.legacyVersion == Some(v))
  }

  /** The migration loop as it runs: one variable reassigned per step. */
  method ReadCurrentByLoop(defs: Definitions, r: Record) returns (result: Result<Instance, ContractError>)
    ensures result == ReadCurrent(defs, r)
  {
    hide ValidateSource, Build;
    var resolution := Resolve(defs, r);
    if resolution.Err? {
      return Err(resolution.error);
    }
    var d := defs[r[ID].s];
    PathIsDeclared(d, r[VERSION].s);
    var paths := EnumeratePaths(d, r[VERSION].s);
    var migrated := r;
    for k := 0 to |paths[0]|
      invariant Migrate(d, paths[0][..k], r) == Ok(migrated)
    {
      var step := d.migrations[paths[0][k]];
      MigrateOneMore(d, paths[0], k, r, migrated);
      migrated := step.transform(migrated);
      var invalid := ValidateSource(d, step.toVersion, migrated);
      if invalid.Some? {
        return Err(invalid.value);
      }
    }
    assert paths[0][..|paths[0]|] == paths[0];
    return Build(d, migrated);
  }

  lemma MigrateOneMore(d: Definition, p: Path, k: nat, r: Record, migrated: Record)
    requires Declared(d, p) && k < |p| && Migrate(d, p[..k], r) == Ok(migrated)
    ensures var step := d.migrations[p[k]];
            var invalid := ValidateSource(d, step.toVersion, step.transform(migrated));
            if invalid.Some? then Migrate(d, p, r) == Err(invalid.value) else Migrate(d, p[..k + 1], r) == Ok(step.transform(migrated))
  {
    hide ValidateSource;
    MigrateSplit(d, p[..k + 1], k, r);
    assert p[..k + 1][..k] == p[..k] && p[..k + 1][k..] == [p[k]];
    MigrateSplit(d, p, k + 1, r);
  }

  lemma {:induction false} MigrateSplit(d: Definition, p: Path, k: nat, r: Record)
    requires Declared(d, p) && k <= |p|
    ensures var first := Migrate(d, p[..k], r);
            Migrate(d, p, r) == if first.Err? then first else Migrate(d, p[k..], first.value)
  {
    if k > 0 {
      var next := d.migrations[p[0]].transform(r);
      assert p[..k][1..] == p[1..][..k - 1] && p[1..][k - 1..] == p[k..];
      MigrateSplit(d, p[1..], k - 1, next);
    } else {
      assert p[0..] == p;
    }
  }

  /** What reads was accepted by the model of the version that it states, and states no other identity
      than that model pins; and what it migrated to was accepted by the current model, which built it. */
  lemma WhatReadsWasAccepted(defs: Definitions, r: Record) returns (migrated: Record)
    requires ReadCurrent(defs, r).Ok?
    ensures HasIdentity(r) && r[ID].s in defs
    ensures var (d, v) := (defs[r[ID].s], r[VERSION].s);
            && v in d.models && d.models[v].accepts(r)
            && (forall s :: d.models[v].idConst == Some(s) ==> r[ID].s == s)
            && (forall s :: d.models[v].versionConst == Some(s) ==> v == s)
            && d.currentVersion in d.models && d.models[d.currentVersion].accepts(migrated)
            && ReadCurrent(defs, r).value == Instance(d.schemaId, d.currentVersion, d.models[d.currentVersion].fields(migrated))
  {
    hide CheckSupported, Visits, Migrate;
    var d := defs[r[ID].s];
    assert MigrationPaths(d, d.currentVersion) == [[]];
    hide MigrationPaths;
    PathIsDeclared(d, r[VERSION].s);
    migrated := Migrate(d, MigrationPaths(d, r[VERSION].s)[0], r).value;
  }

  /** What a migrated record reached along a declared path validates as. */
  lemma {:induction false} MigratedIsValid(d: Definition, source: string, p: Path, r: Record)
    requires Declared(d, p) && Migrate(d, p, r).Ok?
    requires source in d.models && Validates(d.models[source], r)
    ensures var last := Visits(d, source, p)[|p|];
            last in d.models && Validates(d.models[last], Migrate(d, p, r).value)
    decreases |p|
  {
    if p != [] {
      MigratedIsValid(d, d.migrations[p[0]].toVersion, p[1..], d.migrations[p[0]].transform(r));
    }
  }
}
