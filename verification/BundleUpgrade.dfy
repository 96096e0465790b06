/** What upgrading a bundle in place preserves. */
module BundleUpgrade {
  import opened Text
  import opened Contracts
  import opened Migrations
  import opened Registry
  import opened RegistryValidation
  import opened Bundles

  // --- one record ----------------------------------------------------------------------------

  /** An object of the family's current model whose dump is its own field values. */
  ghost predicate IsCurrent(d: Definition, o: Instance) {
    && o.schemaId == d.schemaId && o.version == d.currentVersion && d.currentVersion in d.models
    && var m := d.models[d.currentVersion];
       Validates(m, o.fields) && m.fields(o.fields) == o.fields && ID in o.fields && VERSION in o.fields
  }

  /** A family that passed the static check, whose current model dumps faithfully. */
  ghost predicate IsSound(d: Definition) {
    VersionsAndModelsOk(d) && DumpsFaithfully(d.models[d.currentVersion])
  }

  lemma BuildGivesCurrent(d: Definition, r: Record)
    requires IsSound(d) && Build(d, r).Ok?
    ensures IsCurrent(d, Build(d, r).value)
  {}

  lemma ReadCurrentBuilds(defs: Definitions, r: Record) returns (migrated: Record)
    requires ReadCurrent(defs, r).Ok?
    ensures HasIdentity(r) && r[ID].s in defs && ReadCurrent(defs, r) == Build(defs[r[ID].s], migrated)
  {
    PathIsDeclared(defs[r[ID].s], r[VERSION].s);
    migrated := Migrate(defs[r[ID].s], MigrationPaths(defs[r[ID].s], r[VERSION].s)[0], r).value;
  }

  /** The record that a family read hands on to dispatch. */
  lemma ReadAsDispatches(defs: Definitions, id: string, r: Record, version: Option<string>) returns (q: Record)
    requires ReadAs(defs, id, r, version).Ok?
    ensures ID in q && q[ID] == Str(id) && ReadAs(defs, id, r, version) == ReadCurrent(defs, q)
  {
    hide ReadCurrent;
    assert ID != VERSION by { assert ID[7] != VERSION[7]; }
    if ID !in r || r[ID].Null? {
      var assumed := if version.Some? && version.value != "" then version else defs[id].legacyVersion;
      q := r[ID := Str(id)][VERSION := Str(assumed.value)];
    } else {
      q := r;
    }
  }

  lemma ReadAsGivesCurrent(defs: Definitions, d: Definition, r: Record, version: Option<string>)
    requires d.schemaId in defs && defs[d.schemaId] == d && IsSound(d)
    requires ReadAs(defs, d.schemaId, r, version).Ok?
    ensures IsCurrent(d, ReadAs(defs, d.schemaId, r, version).value)
  {
    var q := ReadAsDispatches(defs, d.schemaId, r, version);
    var migrated := ReadCurrentBuilds(defs, q);
    BuildGivesCurrent(d, migrated);
  }

  /** A current object, dumped, reads back to itself under the current version. */
  lemma CurrentReadsBack(defs: Definitions, d: Definition, o: Instance)
    requires d.schemaId in defs && defs[d.schemaId] == d && IsSound(d) && !Refused(d, d.currentVersion)
    requires IsCurrent(d, o)
    ensures o.fields[ID] == Str(d.schemaId) && o.fields[VERSION] == Str(d.currentVersion)
    ensures ReadAs(defs, d.schemaId, o.fields, Some(d.currentVersion)) == Ok(o)
  {
    assert MigrationPaths(d, d.currentVersion) == [[]];
    ResolvingAtVersion(defs, d.schemaId, d.currentVersion, o.fields);
    assert Migrate(d, [], o.fields) == Ok(o.fields);
  }

  ghost predicate AllCurrent(d: Definition, records: seq<Instance>) {
    forall i | 0 <= i < |records| :: IsCurrent(d, records[i])
  }

  lemma {:induction false} RecordsAreCurrent(defs: Definitions, d: Definition, version: string, rows: seq<Record>)
    requires d.schemaId in defs && defs[d.schemaId] == d && IsSound(d)
    requires ReadRecords(defs, ContractReference(d.schemaId, version), rows).Ok?
    ensures AllCurrent(d, ReadRecords(defs, ContractReference(d.schemaId, version), rows).value)
    ensures |ReadRecords(defs, ContractReference(d.schemaId, version), rows).value| == |rows|
  {
    if rows != [] {
      RecordsAreCurrent(defs, d, version, rows[..|rows| - 1]);
      ReadAsGivesCurrent(defs, d, rows[|rows| - 1], Some(version));
    }
  }

  function Fields(records: seq<Instance>): (rows: seq<Record>)
    ensures |rows| == |records| && forall i | 0 <= i < |rows| :: rows[i] == records[i].fields
  {
    seq(|records|, i requires 0 <= i < |records| => records[i].fields)
  }

  lemma {:induction false} RecordsReadBack(defs: Definitions, d: Definition, records: seq<Instance>)
    requires d.schemaId in defs && defs[d.schemaId] == d && IsSound(d) && !Refused(d, d.currentVersion)
    requires AllCurrent(d, records)
    ensures ReadRecords(defs, ContractReference(d.schemaId, d.currentVersion), Fields(records)) == Ok(records)
  {
    if records != [] {
      var n := |records| - 1;
      RecordsReadBack(defs, d, records[..n]);
      assert Fields(records)[..n] == Fields(records[..n]);
      CurrentReadsBack(defs, d, records[n]);
      assert records[..n] + [records[n]] == records;
    } else {
      assert Fields(records) == [];
    }
  }

  // --- one file ------------------------------------------------------------------------------

  lemma SplitAfterLine(line: string, rest: string)
    requires IsOneLine(line)
    ensures SplitLines(line + "\n" + rest) == [line] + SplitLines(rest)
  {
    LineEndsAtBreak(line, '\n', rest);
    assert line + ['\n'] + rest == line + "\n" + rest;
  }

  lemma {:induction false} SplitOfJoin(lines: seq<string>)
    requires forall i | 0 <= i < |lines| :: IsOneLine(lines[i])
    ensures SplitLines(JoinLines(lines)) == lines
  {
    if lines != [] {
      SplitOfJoin(lines[1..]);
      SplitAfterLine(lines[0], JoinLines(lines[1..]));
    }
  }

  lemma DumpIsSolid(c: Codec, r: Record)
    requires IsJson(c)
    ensures !IsBlank(c.dumps(r)) && c.dumps(r)[0] == '{' && AsRecord(c.loads(c.dumps(r))) == Ok(r)
  {
    assert !IsSpace('{');
    assert !IsSpace(c.dumps(r)[0]);
  }

  lemma {:induction false} LinesLoadBack(c: Codec, records: seq<Instance>)
    requires IsJson(c)
    ensures LoadLines(c, Dumps(c, records)) == Ok(Fields(records))
  {
    if records != [] {
      LinesLoadBack(c, records[1..]);
      assert Dumps(c, records)[1..] == Dumps(c, records[1..]);
      assert Fields(records) == [records[0].fields] + Fields(records[1..]);
      DumpIsSolid(c, records[0].fields);
    } else {
      assert Dumps(c, records) == [];
    }
  }

  /** No dumped record holds U+0085, U+2028 or U+2029, the breaks that JSON leaves unescaped. */
  ghost predicate IsClean(c: Codec, records: seq<Instance>) {
    forall i | 0 <= i < |records| :: IsOneLine(c.dumps(records[i].fields))
  }

  /** Rewritten rows load back exactly when no dumped record holds a line break; otherwise a row is
      cut and the reader crashes on it. */
  lemma {:induction false} RewrittenRowsLoadBack(c: Codec, records: seq<Instance>)
    requires IsJson(c)
    ensures LoadLines(c, SplitLines(JoinLines(Dumps(c, records)))) == if IsClean(c, records) then Ok(Fields(records)) else Err(Crashed)
  {
    if IsClean(c, records) {
      SplitOfJoin(Dumps(c, records));
      LinesLoadBack(c, records);
    } else {
      var line, rest := c.dumps(records[0].fields), records[1..];
      var text := JoinLines(Dumps(c, records));
      assert Dumps(c, records)[1..] == Dumps(c, rest);
      assert text == line + "\n" + JoinLines(Dumps(c, rest));
      DumpIsSolid(c, records[0].fields);
      if IsOneLine(line) {
        assert !IsClean(c, rest) by {
          var i :| 0 <= i < |records| && !IsOneLine(c.dumps(records[i].fields));
          assert rest[i - 1] == records[i];
        }
        RewrittenRowsLoadBack(c, rest);
        SplitAfterLine(line, JoinLines(Dumps(c, rest)));
      } else {
        CutRowCrashes(c, records[0].fields, text);
      }
    }
  }

  lemma CutRowCrashes(c: Codec, r: Record, text: string)
    requires IsJson(c) && !IsOneLine(c.dumps(r)) && c.dumps(r) <= text
    ensures LoadLines(c, SplitLines(text)) == Err(Crashed)
  {
    var line := c.dumps(r);
    DumpIsSolid(c, r);
    var i :| 0 <= i < |line| && IsLineBreak(line[i]);
    assert text[i] == line[i];
    var n := FirstBreak(text);
    assert n <= i && text[0] == '{' && !IsLineBreak('{');
    assert 0 < n < |line|;
    assert text[..n] == line[..n];
    assert !IsSpace(text[..n][0]);
    assert SplitLines(text)[0] == line[..n];
    assert c.loads(line[..n]).None?;
  }

  /** The content an upgrade writes for `records`, re-described and re-read. */
  lemma UpgradedContent(defs: Definitions, c: Codec, d: Definition, spec: MemberSpec, records: seq<Instance>, text: string)
    requires IsJson(c) && d.schemaId in defs && defs[d.schemaId] == d && IsSound(d) && !Refused(d, d.currentVersion)
    requires IsSpec(defs, spec) && spec.schemaId == d.schemaId
    requires AllCurrent(d, records) && records != [] && (spec.format.Json? ==> |records| == 1)
    requires spec.format.Jsonl? ==> IsClean(c, records)
    requires Rewritten(c, spec.format, records) == Ok(text)
    ensures LoadRecords(c, spec.format, text) == Ok(Fields(records))
    ensures BoundVersion(c, spec.path, text, d) == Ok(d.currentVersion)
  {
    if spec.format.Jsonl? {
      RewrittenRowsLoadBack(c, records);
      UpgradedRowsAreCurrent(defs, c, d, spec.path, records);
    } else {
      UpgradedRecordIsCurrent(defs, c, d, spec, records, text);
    }
  }

  lemma UpgradedRowsAreCurrent(defs: Definitions, c: Codec, d: Definition, path: string, records: seq<Instance>)
    requires IsJson(c) && d.schemaId in defs && defs[d.schemaId] == d && IsSound(d) && !Refused(d, d.currentVersion)
    requires AllCurrent(d, records) && records != [] && IsClean(c, records) && IsJsonlPath(path)
    ensures BoundVersion(c, path, JoinLines(Dumps(c, records)), d) == Ok(d.currentVersion)
  {
    CurrentReadsBack(defs, d, records[0]);
    var lines := Dumps(c, records);
    RewrittenRowsLoadBack(c, records);
    SplitOfJoin(lines);
    DumpIsSolid(c, records[0].fields);
    assert FirstSolid(lines) == lines[0];
  }

  lemma UpgradedRecordIsCurrent(defs: Definitions, c: Codec, d: Definition, spec: MemberSpec, records: seq<Instance>, text: string)
    requires IsJson(c) && d.schemaId in defs && defs[d.schemaId] == d && IsSound(d) && !Refused(d, d.currentVersion)
    requires IsSpec(defs, spec) && spec.schemaId == d.schemaId && spec.format.Json?
    requires AllCurrent(d, records) && |records| == 1 && Rewritten(c, spec.format, records) == Ok(text)
    ensures LoadRecords(c, spec.format, text) == Ok(Fields(records))
    ensures BoundVersion(c, spec.path, text, d) == Ok(d.currentVersion)
  {
    CurrentReadsBack(defs, d, records[0]);
    assert Fields(records) == [records[0].fields];
  }

  ghost predicate IsSpec(defs: Definitions, spec: MemberSpec) {
    && spec.schemaId in defs && spec.schemaId != "" && defs[spec.schemaId].schemaId == spec.schemaId
    && !spec.format.Opaque? && (spec.format.Jsonl? <==> IsJsonlPath(spec.path))
  }

  // --- one member ----------------------------------------------------------------------------

  /** Reading and upgrading a member look at its own file only. */
  lemma UpgradeIsLocal(defs: Definitions, c: Codec, files: Files, other: Files, m: Member)
    requires m.path in files && m.path in other && files[m.path] == other[m.path]
    ensures ReadBoundMember(defs, c, other, m) == ReadBoundMember(defs, c, files, m)
    ensures UpgradeMember(defs, c, other, m) == UpgradeMember(defs, c, files, m)
  {}

  /** A described member whose text is `text`. */
  function MemberOf(defs: Definitions, c: Codec, spec: MemberSpec, text: string): Result<Member, Failure> {
    DescribeMember(defs, c, map[spec.path := text], spec)
  }

  function ReadText(defs: Definitions, c: Codec, spec: MemberSpec, text: string): Result<seq<Instance>, Failure> {
    var m := MemberOf(defs, c, spec, text);
    if m.Err? then Err(m.error) else ReadBoundMember(defs, c, map[spec.path := text], m.value)
  }

  /** The rewritten text of a member that is to be upgraded. */
  function UpgradeText(defs: Definitions, c: Codec, spec: MemberSpec, text: string): Result<Option<string>, Failure> {
    var m := MemberOf(defs, c, spec, text);
    if m.Err? then Err(m.error) else UpgradeMember(defs, c, map[spec.path := text], m.value)
  }

  function VersionOf(m: Member): string {
    if m.contract.Some? then m.contract.value.version else ""
  }

  ghost predicate SoundSpec(defs: Definitions, spec: MemberSpec) {
    IsSpec(defs, spec) && IsSound(defs[spec.schemaId])
  }

  /** A member is rewritten exactly when it reads and is bound at an older version, and what it
      then holds is its records in the current form. */
  lemma UpgradeTextIs(defs: Definitions, c: Codec, spec: MemberSpec, text: string)
    requires SoundSpec(defs, spec) && UpgradeText(defs, c, spec, text).Ok?
    ensures var (d, read, body) := (defs[spec.schemaId], ReadText(defs, c, spec, text), UpgradeText(defs, c, spec, text).value);
            && (body.Some? <==> read.Ok? && VersionOf(MemberOf(defs, c, spec, text).value) != d.currentVersion)
            && (body.Some? ==> Rewritten(c, spec.format, read.value) == Ok(body.value))
            && (read.Ok? ==> AllCurrent(d, read.value) && (spec.format.Json? ==> |read.value| == 1))
  {
    var m := MemberOf(defs, c, spec, text).value;
    var read := ReadBoundMember(defs, c, map[spec.path := text], m);
    if read.Ok? {
      var rows := LoadRecords(c, spec.format, text).value;
      RecordsAreCurrent(defs, defs[spec.schemaId], VersionOf(m), rows);
    }
  }

  lemma {:induction false} NoRowsNoSolidLine(c: Codec, lines: seq<string>)
    requires LoadLines(c, lines) == Ok([])
    ensures FirstSolid(lines) == ""
  {
    if lines != [] {
      NoRowsNoSolidLine(c, lines[1..]);
    }
  }

  /** A row file without a row stays bound at the legacy version. */
  lemma EmptyStaysLegacy(defs: Definitions, c: Codec, spec: MemberSpec, text: string, body: string)
    requires IsJson(c) && SoundSpec(defs, spec) && UpgradeText(defs, c, spec, text) == Ok(Some(body))
    requires ReadText(defs, c, spec, text) == Ok([])
    ensures var (d, m) := (defs[spec.schemaId], MemberOf(defs, c, spec, body));
            body == "" && m.Ok? && d.legacyVersion == Some(VersionOf(m.value)) && VersionOf(m.value) != d.currentVersion
  {
    UpgradeTextIs(defs, c, spec, text);
    var d := defs[spec.schemaId];
    var m := MemberOf(defs, c, spec, text).value;
    NoRecordsNoRows(defs, c, spec, text, m);
    assert Dumps(c, []) == [];
    RowlessIsLegacy(c, spec.path, text, d);
    RowlessIsLegacy(c, spec.path, "", d);
  }

  lemma NoRecordsNoRows(defs: Definitions, c: Codec, spec: MemberSpec, text: string, m: Member)
    requires SoundSpec(defs, spec) && MemberOf(defs, c, spec, text) == Ok(m) && ReadText(defs, c, spec, text) == Ok([])
    ensures LoadRecords(c, spec.format, text) == Ok([]) && spec.format.Jsonl?
  {
    RecordsAreCurrent(defs, defs[spec.schemaId], VersionOf(m), LoadRecords(c, spec.format, text).value);
  }

  lemma RowlessIsLegacy(c: Codec, path: string, text: string, d: Definition)
    requires IsJson(c) && LoadLines(c, SplitLines(text)) == Ok([]) && IsJsonlPath(path)
    ensures BoundVersion(c, path, text, d) == if d.legacyVersion.None? then Err(Crashed) else Ok(d.legacyVersion.value)
  {
    NoRowsNoSolidLine(c, SplitLines(text));
    assert c.loads("").None? by { assert IsBlank(""); }
  }

  lemma {:induction false} RefusedRecordsFail(defs: Definitions, d: Definition, rows: seq<Record>)
    requires d.schemaId in defs && defs[d.schemaId] == d && IsSound(d) && Refused(d, d.currentVersion)
    requires rows != [] && IsCurrent(d, Instance(d.schemaId, d.currentVersion, rows[0]))
    ensures ReadRecords(defs, ContractReference(d.schemaId, d.currentVersion), rows).Err?
  {
    if |rows| > 1 {
      RefusedRecordsFail(defs, d, rows[..|rows| - 1]);
    } else {
      assert MigrationPaths(d, d.currentVersion) == [[]];
      ResolvingAtVersion(defs, d.schemaId, d.currentVersion, rows[0]);
      assert rows[..0] == [];
    }
  }

  lemma CurrentIsRefused(defs: Definitions, c: Codec, spec: MemberSpec, records: seq<Instance>, body: string)
    requires IsJson(c) && SoundSpec(defs, spec)
    requires var d := defs[spec.schemaId];
             AllCurrent(d, records) && records != [] && (spec.format.Json? ==> |records| == 1) && Refused(d, d.currentVersion)
    requires spec.format.Jsonl? ==> IsClean(c, records)
    requires Rewritten(c, spec.format, records) == Ok(body)
    ensures MemberOf(defs, c, spec, body).Ok? && VersionOf(MemberOf(defs, c, spec, body).value) == defs[spec.schemaId].currentVersion
            ==> ReadText(defs, c, spec, body).Err?
  {
    var d := defs[spec.schemaId];
    if spec.format.Jsonl? {
      RewrittenRowsLoadBack(c, records);
    } else {
      assert Fields(records) == [records[0].fields];
    }
    assert records[0] == Instance(d.schemaId, d.currentVersion, Fields(records)[0]);
    RefusedRecordsFail(defs, d, Fields(records));
  }

  /** A rewritten member comes back with the same records and bound at the current version exactly
      when it had a record, its rows held no unescaped line break, and the family does not refuse
      its own current version. */
  lemma RewrittenComesBack(defs: Definitions, c: Codec, spec: MemberSpec, text: string, body: string)
    requires IsJson(c) && SoundSpec(defs, spec) && UpgradeText(defs, c, spec, text) == Ok(Some(body))
    ensures var (d, read) := (defs[spec.schemaId], ReadText(defs, c, spec, text));
            && read.Ok?
            && (ReadText(defs, c, spec, body) == read && VersionOf(MemberOf(defs, c, spec, body).value) == d.currentVersion
                <==>
                && read.value != []
                && (spec.format.Jsonl? ==> IsClean(c, read.value))
                && !Refused(d, d.currentVersion))
  {
    var d := defs[spec.schemaId];
    var records := ReadText(defs, c, spec, text).value;
    UpgradeTextIs(defs, c, spec, text);
    if records == [] {
      EmptyStaysLegacy(defs, c, spec, text, body);
    } else if spec.format.Jsonl? && !IsClean(c, records) {
      RewrittenRowsLoadBack(c, records);
    } else if Refused(d, d.currentVersion) {
      CurrentIsRefused(defs, c, spec, records, body);
    } else {
      UpgradedContent(defs, c, d, spec, records, body);
      RecordsReadBack(defs, d, records);
    }
  }

  // --- the whole bundle ----------------------------------------------------------------------

  function Present(files: Files, specs: seq<MemberSpec>): (r: seq<MemberSpec>)
    ensures forall i | 0 <= i < |r| :: r[i] in specs && r[i].path in files
  {
    if specs == [] then []
    else (if specs[0].path in files then [specs[0]] else []) + Present(files, specs[1..])
  }

  ghost predicate DistinctPaths(specs: seq<MemberSpec>) {
    forall i, j | 0 <= i < j < |specs| :: specs[i].path != specs[j].path
  }

  lemma {:induction false} PresentIsDistinct(files: Files, specs: seq<MemberSpec>)
    requires DistinctPaths(specs)
    ensures DistinctPaths(Present(files, specs))
  {
    if specs != [] {
      PresentIsDistinct(files, specs[1..]);
    }
  }

  lemma {:induction false} PresentByKeys(files: Files, other: Files, specs: seq<MemberSpec>)
    requires files.Keys == other.Keys
    ensures Present(files, specs) == Present(other, specs)
  {
    if specs != [] {
      PresentByKeys(files, other, specs[1..]);
    }
  }

  /** A manifest lists the present members, each described from its own text. */
  ghost predicate Describes(defs: Definitions, c: Codec, files: Files, present: seq<MemberSpec>, members: seq<Member>) {
    |members| == |present| && forall i | 0 <= i < |present| :: IsMemberOf(defs, c, files, present[i], members[i])
  }

  ghost predicate IsMemberOf(defs: Definitions, c: Codec, files: Files, spec: MemberSpec, m: Member) {
    spec.path in files && MemberOf(defs, c, spec, files[spec.path]) == Ok(m)
  }

  lemma DescribesCons(defs: Definitions, c: Codec, files: Files, spec: MemberSpec, m: Member, present: seq<MemberSpec>, members: seq<Member>)
    requires IsMemberOf(defs, c, files, spec, m) && Describes(defs, c, files, present, members)
    ensures Describes(defs, c, files, [spec] + present, [m] + members)
  {
    forall i | 0 < i < |present| + 1 ensures IsMemberOf(defs, c, files, ([spec] + present)[i], ([m] + members)[i]) {
      assert IsMemberOf(defs, c, files, present[i - 1], members[i - 1]);
    }
  }

  lemma DescribesFront(defs: Definitions, c: Codec, files: Files, present: seq<MemberSpec>, members: seq<Member>, n: nat)
    requires Describes(defs, c, files, present, members) && n <= |present|
    ensures Describes(defs, c, files, present[..n], members[..n])
  {
    forall i | 0 <= i < n ensures IsMemberOf(defs, c, files, present[..n][i], members[..n][i]) {
      assert IsMemberOf(defs, c, files, present[i], members[i]);
    }
  }

  ghost predicate Describable(defs: Definitions, c: Codec, files: Files, present: seq<MemberSpec>) {
    forall i | 0 <= i < |present| :: present[i].path in files && MemberOf(defs, c, present[i], files[present[i].path]).Ok?
  }

  lemma DescribeCons(defs: Definitions, c: Codec, files: Files, specs: seq<MemberSpec>)
    requires specs != [] && specs[0].path in files
    ensures var (first, rest, all) := (MemberOf(defs, c, specs[0], files[specs[0].path]), Describe(defs, c, files, specs[1..]), Describe(defs, c, files, specs));
            && (all.Ok? <==> first.Ok? && rest.Ok?)
            && (all.Ok? ==> all.value == [first.value] + rest.value)
  {
    assert DescribeMember(defs, c, files, specs[0]) == MemberOf(defs, c, specs[0], files[specs[0].path]);
  }

  /** A description that succeeds lists the present members, each from its own text. */
  lemma {:induction false} DescribeLists(defs: Definitions, c: Codec, files: Files, specs: seq<MemberSpec>)
    requires Describe(defs, c, files, specs).Ok?
    ensures Describes(defs, c, files, Present(files, specs), Describe(defs, c, files, specs).value)
  {
    if specs != [] {
      if specs[0].path in files {
        DescribeCons(defs, c, files, specs);
        DescribeLists(defs, c, files, specs[1..]);
        var m := MemberOf(defs, c, specs[0], files[specs[0].path]).value;
        DescribesCons(defs, c, files, specs[0], m, Present(files, specs[1..]), Describe(defs, c, files, specs[1..]).value);
      } else {
        DescribeLists(defs, c, files, specs[1..]);
      }
    }
  }

  /** A description succeeds when every present member can be described. */
  lemma {:induction false} DescribeSucceeds(defs: Definitions, c: Codec, files: Files, specs: seq<MemberSpec>)
    requires Describable(defs, c, files, Present(files, specs))
    ensures Describe(defs, c, files, specs).Ok?
  {
    if specs != [] {
      var present, rest := Present(files, specs), Present(files, specs[1..]);
      if specs[0].path in files {
        assert present == [specs[0]] + rest;
        assert present[0] == specs[0];
        forall i | 0 <= i < |rest| ensures rest[i].path in files && MemberOf(defs, c, rest[i], files[rest[i].path]).Ok? {
          assert present[i + 1] == rest[i];
        }
        DescribeCons(defs, c, files, specs);
      } else {
        assert present == rest;
      }
      DescribeSucceeds(defs, c, files, specs[1..]);
    }
  }

  function TextAfter(defs: Definitions, c: Codec, spec: MemberSpec, text: string): string {
    var body := UpgradeText(defs, c, spec, text);
    if body.Ok? && body.value.Some? then body.value.value else text
  }

  /** The last turn of an upgrade that completes. */
  lemma LastTurn(defs: Definitions, c: Codec, files: Files, members: seq<Member>)
    requires members != [] && Upgrade(defs, c, files, members).1.Ok?
    ensures var n := |members| - 1;
            var ((before, front), (after, ids)) := (Upgrade(defs, c, files, members[..n]), Upgrade(defs, c, files, members));
            && front.Ok?
            && var turn := UpgradeMember(defs, c, before, members[n]);
            && turn.Ok?
            && after == (if turn.value.Some? then before[members[n].path := turn.value.value] else before)
            && ids.value == front.value + (if turn.value.Some? then [members[n].id] else [])
  {}

  /** The turn of a described member, as a function of its text. */
  function TurnOf(defs: Definitions, c: Codec, files: Files, spec: MemberSpec): Result<Option<string>, Failure>
    requires spec.path in files
  {
    UpgradeText(defs, c, spec, files[spec.path])
  }

  ghost predicate ArePresent(files: Files, present: seq<MemberSpec>) {
    forall i | 0 <= i < |present| :: present[i].path in files
  }

  ghost predicate HasPath(present: seq<MemberSpec>, path: string) {
    exists i :: 0 <= i < |present| && present[i].path == path
  }

  /** The texts that an upgrade of the described members writes, by path. */
  function Bodies(defs: Definitions, c: Codec, files: Files, present: seq<MemberSpec>): (r: map<string, string>)
    requires ArePresent(files, present)
    ensures forall path | path in r :: HasPath(present, path)
  {
    if present == [] then map[] else
    var n := |present| - 1;
    var turn := TurnOf(defs, c, files, present[n]);
    var front := Bodies(defs, c, files, present[..n]);
    if turn.Ok? && turn.value.Some? then front[present[n].path := turn.value.value] else front
  }

  /** What a turn writes to `path` is there in `r`, and nothing else is. */
  ghost predicate IsBodyOf(r: map<string, string>, path: string, turn: Result<Option<string>, Failure>) {
    && (path in r <==> turn.Ok? && turn.value.Some?)
    && (path in r ==> r[path] == turn.value.value)
  }

  lemma {:induction false} BodyAt(defs: Definitions, c: Codec, files: Files, present: seq<MemberSpec>, i: nat)
    requires ArePresent(files, present) && DistinctPaths(present) && i < |present|
    ensures IsBodyOf(Bodies(defs, c, files, present), present[i].path, TurnOf(defs, c, files, present[i]))
  {
    var (n, front) := (|present| - 1, present[..|present| - 1]);
    LastPathIsNew(files, present);
    hide TurnOf, HasPath, DistinctPaths, Bodies, ArePresent, IsBodyOf;
    if i == n {
      LastBody(defs, c, files, present);
    } else {
      assert front[i] == present[i];
      BodyAt(defs, c, files, front, i);
      EarlierBody(defs, c, files, present, present[i]);
    }
  }

  lemma LastBody(defs: Definitions, c: Codec, files: Files, present: seq<MemberSpec>)
    requires present != [] && ArePresent(files, present) && !HasPath(present[..|present| - 1], present[|present| - 1].path)
    ensures var last := present[|present| - 1]; IsBodyOf(Bodies(defs, c, files, present), last.path, TurnOf(defs, c, files, last))
  {
    hide TurnOf, HasPath;
  }

  lemma EarlierBody(defs: Definitions, c: Codec, files: Files, present: seq<MemberSpec>, spec: MemberSpec)
    requires present != [] && ArePresent(files, present) && spec.path in files && spec.path != present[|present| - 1].path
    requires IsBodyOf(Bodies(defs, c, files, present[..|present| - 1]), spec.path, TurnOf(defs, c, files, spec))
    ensures IsBodyOf(Bodies(defs, c, files, present), spec.path, TurnOf(defs, c, files, spec))
  {
    hide TurnOf, HasPath;
  }

  lemma LastPathIsNew(files: Files, present: seq<MemberSpec>)
    requires present != [] && DistinctPaths(present) && ArePresent(files, present)
    ensures var n := |present| - 1;
            ArePresent(files, present[..n]) && DistinctPaths(present[..n]) && !HasPath(present[..n], present[n].path)
            && forall i | 0 <= i < n :: present[i].path != present[n].path
  {}

  /** A turn acts on the member's original text, as no earlier turn wrote to its path. */
  lemma TurnIsOnOriginal(defs: Definitions, c: Codec, files: Files, present: seq<MemberSpec>, m: Member, before: Files)
    requires present != [] && ArePresent(files, present) && DistinctPaths(present)
    requires IsMemberOf(defs, c, files, present[|present| - 1], m)
    requires before == files + Bodies(defs, c, files, present[..|present| - 1])
    ensures UpgradeMember(defs, c, before, m) == TurnOf(defs, c, files, present[|present| - 1])
  {
    var spec, front := present[|present| - 1], present[..|present| - 1];
    assert forall i | 0 <= i < |front| :: front[i].path != spec.path;
    assert before[spec.path] == files[spec.path];
    UpgradeIsLocal(defs, c, map[spec.path := files[spec.path]], before, m);
  }

  /** An upgrade that completes overlays the rewritten texts on the files, and took every turn on
      the member's original text. */
  lemma {:induction false} UpgradeEffect(defs: Definitions, c: Codec, files: Files, present: seq<MemberSpec>, members: seq<Member>)
    requires Describes(defs, c, files, present, members) && ArePresent(files, present) && DistinctPaths(present)
    requires Upgrade(defs, c, files, members).1.Ok?
    ensures Upgrade(defs, c, files, members).0 == files + Bodies(defs, c, files, present)
    ensures AllTurnsOk(defs, c, files, present)
  {
    if members != [] {
      var n := |members| - 1;
      LastTurn(defs, c, files, members);
      DescribesFront(defs, c, files, present, members, n);
      UpgradeEffect(defs, c, files, present[..n], members[..n]);
      TurnIsOnOriginal(defs, c, files, present, members[n], Upgrade(defs, c, files, members[..n]).0);
      BodiesOneMore(defs, c, files, present, members[n].path);
      AllTurnsOkOneMore(defs, c, files, present);
    }
  }

  /** An upgrade completes exactly when each member's turn on its original text does. */
  lemma {:induction false} CompletesIffTurnsDo(defs: Definitions, c: Codec, files: Files, present: seq<MemberSpec>, members: seq<Member>)
    requires Describes(defs, c, files, present, members) && ArePresent(files, present) && DistinctPaths(present)
    ensures Upgrade(defs, c, files, members).1.Ok? <==> AllTurnsOk(defs, c, files, present)
  {
    if members == [] {
      assert Upgrade(defs, c, files, members).1.Ok?;
    } else {
      var n := |members| - 1;
      DescribesFront(defs, c, files, present, members, n);
      LastPathIsNew(files, present);
      LastIsMember(defs, c, files, present, members);
      hide *;
      CompletesIffTurnsDo(defs, c, files, present[..n], members[..n]);
      CompletesByTurns(defs, c, files, members);
      TurnsByLast(defs, c, files, present);
      if Upgrade(defs, c, files, members[..n]).1.Ok? {
        UpgradeEffect(defs, c, files, present[..n], members[..n]);
        TurnIsOnOriginal(defs, c, files, present, members[n], Upgrade(defs, c, files, members[..n]).0);
      }
    }
  }

  /** A member's turn fails exactly when reading the member crashes; a refusal only skips it. */
  lemma TurnFailsIff(defs: Definitions, c: Codec, spec: MemberSpec, text: string)
    requires SoundSpec(defs, spec) && MemberOf(defs, c, spec, text).Ok?
    ensures UpgradeText(defs, c, spec, text).Ok? <==> ReadText(defs, c, spec, text) != Err(Crashed)
  {
    var m := MemberOf(defs, c, spec, text).value;
    if ReadText(defs, c, spec, text).Ok? { JsonHoldsOne(defs, c, spec, text, m); }
    hide IsSound, BoundVersion, ReadBoundMember, UpgradeMember;
    TurnByReading(defs, c, map[spec.path := text], m);
  }

  lemma TurnByReading(defs: Definitions, c: Codec, files: Files, m: Member)
    requires m.contract.Some? && m.contract.value.schemaId in defs
    ensures var read := ReadBoundMember(defs, c, files, m);
            && (read == Err(Crashed) ==> UpgradeMember(defs, c, files, m).Err?)
            && (read != Err(Crashed) && (read.Ok? ==> m.format.Jsonl? || read.value != []) ==> UpgradeMember(defs, c, files, m).Ok?)
  {
    hide ReadBoundMember, JoinLines, Dumps;
  }

  lemma JsonHoldsOne(defs: Definitions, c: Codec, spec: MemberSpec, text: string, m: Member)
    requires SoundSpec(defs, spec) && MemberOf(defs, c, spec, text) == Ok(m) && ReadText(defs, c, spec, text).Ok?
    ensures spec.format.Json? ==> |ReadText(defs, c, spec, text).value| == 1
  {
    hide ReadRecords, BoundVersion, IsSound, LoadLines;
    RecordsAreCurrent(defs, defs[spec.schemaId], VersionOf(m), LoadRecords(c, spec.format, text).value);
  }

  /** Over an accepted registry only a text that does not parse crashes the reader of its member. */
  lemma CrashesOnlyOnText(defs: Definitions, c: Codec, spec: MemberSpec, text: string)
    requires ValidRegistry(defs) && IsSpec(defs, spec) && MemberOf(defs, c, spec, text).Ok?
    ensures ReadText(defs, c, spec, text) == Err(Crashed) <==> LoadRecords(c, spec.format, text) == Err(Crashed)
  {
    hide ValidRegistry, LoadRecords, ReadRecords, BoundVersion;
    var (m, rows) := (MemberOf(defs, c, spec, text).value, LoadRecords(c, spec.format, text));
    if rows.Ok? { AcceptedRecordsNeverCrash(defs, m.contract.value, rows.value); }
  }

  ghost predicate NoneCrashes(defs: Definitions, c: Codec, files: Files, present: seq<MemberSpec>) {
    forall i | 0 <= i < |present| :: present[i].path in files && ReadText(defs, c, present[i], files[present[i].path]) != Err(Crashed)
  }

  /** An upgrade of described members completes exactly when none of them crashes when it is read
      as it was before the upgrade. */
  lemma UpgradeCompletesIff(defs: Definitions, c: Codec, files: Files, present: seq<MemberSpec>, members: seq<Member>)
    requires Describes(defs, c, files, present, members) && ArePresent(files, present) && DistinctPaths(present)
    requires forall i | 0 <= i < |present| :: SoundSpec(defs, present[i])
    ensures Upgrade(defs, c, files, members).1.Ok? <==> NoneCrashes(defs, c, files, present)
  {
    hide SoundSpec, MemberOf, ReadText, UpgradeText, Upgrade;
    CompletesIffTurnsDo(defs, c, files, present, members);
    forall i | 0 <= i < |present|
      ensures TurnOf(defs, c, files, present[i]).Ok? <==> ReadText(defs, c, present[i], files[present[i].path]) != Err(Crashed)
    {
      assert IsMemberOf(defs, c, files, present[i], members[i]);
      TurnFailsIff(defs, c, present[i], files[present[i].path]);
    }
  }

  lemma LastIsMember(defs: Definitions, c: Codec, files: Files, present: seq<MemberSpec>, members: seq<Member>)
    requires Describes(defs, c, files, present, members) && members != []
    ensures present != [] && |present| == |members| && IsMemberOf(defs, c, files, present[|present| - 1], members[|members| - 1])
  {}

  lemma CompletesByTurns(defs: Definitions, c: Codec, files: Files, members: seq<Member>)
    requires members != []
    ensures var (n, before) := (|members| - 1, Upgrade(defs, c, files, members[..|members| - 1]));
            Upgrade(defs, c, files, members).1.Ok? <==> before.1.Ok? && UpgradeMember(defs, c, before.0, members[n]).Ok?
  {
    hide UpgradeMember;
  }

  lemma TurnsByLast(defs: Definitions, c: Codec, files: Files, present: seq<MemberSpec>)
    requires present != [] && ArePresent(files, present)
    ensures var n := |present| - 1;
            ArePresent(files, present[..n])
            && (AllTurnsOk(defs, c, files, present) <==> AllTurnsOk(defs, c, files, present[..n]) && TurnOf(defs, c, files, present[n]).Ok?)
  {
    hide TurnOf;
    var n := |present| - 1;
    if AllTurnsOk(defs, c, files, present) {
      FrontTurns(defs, c, files, present, n);
    }
    if TurnOf(defs, c, files, present[n]).Ok? && AllTurnsOk(defs, c, files, present[..n]) {
      AllTurnsOkOneMore(defs, c, files, present);
    }
  }

  lemma FrontTurns(defs: Definitions, c: Codec, files: Files, present: seq<MemberSpec>, n: nat)
    requires n <= |present| && ArePresent(files, present) && AllTurnsOk(defs, c, files, present)
    ensures AllTurnsOk(defs, c, files, present[..n])
  {
    forall i | 0 <= i < n ensures TurnOf(defs, c, files, present[..n][i]).Ok? {
      assert present[..n][i] == present[i];
    }
  }

  lemma BodiesOneMore(defs: Definitions, c: Codec, files: Files, present: seq<MemberSpec>, path: string)
    requires present != [] && ArePresent(files, present) && path == present[|present| - 1].path
    requires TurnOf(defs, c, files, present[|present| - 1]).Ok?
    ensures var (turn, before) := (TurnOf(defs, c, files, present[|present| - 1]).value, files + Bodies(defs, c, files, present[..|present| - 1]));
            files + Bodies(defs, c, files, present) == if turn.Some? then before[path := turn.value] else before
  {}

  ghost predicate AllTurnsOk(defs: Definitions, c: Codec, files: Files, present: seq<MemberSpec>)
    requires ArePresent(files, present)
  {
    forall i | 0 <= i < |present| :: TurnOf(defs, c, files, present[i]).Ok?
  }

  lemma AllTurnsOkOneMore(defs: Definitions, c: Codec, files: Files, present: seq<MemberSpec>)
    requires present != [] && ArePresent(files, present) && AllTurnsOk(defs, c, files, present[..|present| - 1])
    requires TurnOf(defs, c, files, present[|present| - 1]).Ok?
    ensures AllTurnsOk(defs, c, files, present)
  {
    forall i | 0 <= i < |present| ensures TurnOf(defs, c, files, present[i]).Ok? {
      if i < |present| - 1 { assert present[i] == present[..|present| - 1][i]; }
    }
  }

  /** What a rewritten member needs to come back: a record, rows without unescaped line breaks, and
      a current version that its family does not refuse. */
  ghost predicate Survives(defs: Definitions, c: Codec, spec: MemberSpec, text: string)
    requires spec.schemaId in defs
  {
    var (read, body) := (ReadText(defs, c, spec, text), UpgradeText(defs, c, spec, text));
    body.Ok? && body.value.Some? && read.Ok? ==>
      && read.value != []
      && (spec.format.Jsonl? ==> IsClean(c, read.value))
      && !Refused(defs[spec.schemaId], defs[spec.schemaId].currentVersion)
  }

  /** One member, before and after. */
  ghost predicate IsUpgraded(defs: Definitions, c: Codec, spec: MemberSpec, text: string, later: string)
    requires spec.schemaId in defs
  {
    var (m, m', read) := (MemberOf(defs, c, spec, text), MemberOf(defs, c, spec, later), ReadText(defs, c, spec, text));
    var current := defs[spec.schemaId].currentVersion;
    && m'.Ok?
    && (read.Ok? ==> ReadText(defs, c, spec, later) == read && VersionOf(m'.value) == current)
    && (read.Err? || VersionOf(m.value) == current ==> later == text)
    && UpgradeText(defs, c, spec, later) == Ok(None)
  }

  ghost predicate AllSurvive(defs: Definitions, c: Codec, files: Files, present: seq<MemberSpec>) {
    forall i | 0 <= i < |present| ::
      present[i].path in files && present[i].schemaId in defs && Survives(defs, c, present[i], files[present[i].path])
  }

  ghost predicate AllUpgraded(defs: Definitions, c: Codec, files: Files, present: seq<MemberSpec>, after: Files) {
    forall i | 0 <= i < |present| ::
      && present[i].path in files && present[i].path in after && present[i].schemaId in defs
      && IsUpgraded(defs, c, present[i], files[present[i].path], after[present[i].path])
  }

  lemma MemberIsUpgraded(defs: Definitions, c: Codec, spec: MemberSpec, text: string)
    requires IsJson(c) && SoundSpec(defs, spec) && UpgradeText(defs, c, spec, text).Ok? && Survives(defs, c, spec, text)
    ensures IsUpgraded(defs, c, spec, text, TextAfter(defs, c, spec, text))
  {
    var body := UpgradeText(defs, c, spec, text).value;
    UpgradeTextIs(defs, c, spec, text);
    if body.Some? {
      RewrittenComesBack(defs, c, spec, text, body.value);
    }
  }

  /** After an upgrade and a fresh description, every member that read before reads to the same
      records, is bound at the current version and needs no upgrade; members that refused or were
      already current, and all other files, are untouched; and a second upgrade rewrites nothing. */
  lemma UpgradePreserves(defs: Definitions, c: Codec, files: Files, specs: seq<MemberSpec>, members: seq<Member>)
    requires IsJson(c) && DistinctPaths(specs) && forall i | 0 <= i < |specs| :: SoundSpec(defs, specs[i])
    requires Describe(defs, c, files, specs) == Ok(members) && Upgrade(defs, c, files, members).1.Ok?
    requires AllSurvive(defs, c, files, Present(files, specs))
    ensures var (after, present) := (Upgrade(defs, c, files, members).0, Present(files, specs));
            && after.Keys == files.Keys
            && AllUpgraded(defs, c, files, present, after)
            && (forall path | path in files && (forall i | 0 <= i < |present| :: present[i].path != path) :: after[path] == files[path])
            && Describe(defs, c, after, specs).Ok?
            && Upgrade(defs, c, after, Describe(defs, c, after, specs).value) == (after, Ok([]))
  {
    var present := Present(files, specs);
    DescribeLists(defs, c, files, specs);
    PresentIsDistinct(files, specs);
    UpgradeEffect(defs, c, files, present, members);
    var after := Upgrade(defs, c, files, members).0;
    AllMembersUpgraded(defs, c, files, present, after);
    PresentByKeys(files, after, specs);
    DescribeSucceeds(defs, c, after, specs);
    DescribeLists(defs, c, after, specs);
    NothingToUpgrade(defs, c, after, present, Describe(defs, c, after, specs).value);
  }

  lemma AllMembersUpgraded(defs: Definitions, c: Codec, files: Files, present: seq<MemberSpec>, after: Files)
    requires IsJson(c) && DistinctPaths(present) && forall i | 0 <= i < |present| :: SoundSpec(defs, present[i])
    requires ArePresent(files, present) && AllTurnsOk(defs, c, files, present)
    requires after == files + Bodies(defs, c, files, present)
    requires AllSurvive(defs, c, files, present)
    ensures AllUpgraded(defs, c, files, present, after) && after.Keys == files.Keys
  {
    forall i | 0 <= i < |present|
      ensures present[i].path in after && IsUpgraded(defs, c, present[i], files[present[i].path], after[present[i].path])
    {
      BodyAt(defs, c, files, present, i);
      MemberIsUpgraded(defs, c, present[i], files[present[i].path]);
      assert after[present[i].path] == TextAfter(defs, c, present[i], files[present[i].path]);
    }
  }

  lemma {:induction false} NothingToUpgrade(defs: Definitions, c: Codec, files: Files, present: seq<MemberSpec>, members: seq<Member>)
    requires Describes(defs, c, files, present, members)
    requires forall i | 0 <= i < |present| :: UpgradeText(defs, c, present[i], files[present[i].path]) == Ok(None)
    ensures Upgrade(defs, c, files, members) == (files, Ok([]))
  {
    if members != [] {
      var n := |members| - 1;
      DescribesFront(defs, c, files, present, members, n);
      NothingToUpgrade(defs, c, files, present[..n], members[..n]);
      var spec := present[n];
      assert IsMemberOf(defs, c, files, spec, members[n]);
      UpgradeIsLocal(defs, c, map[spec.path := files[spec.path]], files, members[n]);
    }
  }
}
