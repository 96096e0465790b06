/** Bundles of contract-bound files: describing, reading and upgrading them in place. */
module Bundles {
  import opened Text
  import opened Contracts
  import opened Migrations
  import opened Registry
  import opened RegistryValidation

  // --- JSON text and record models, as far as the readers rely on them -----------------------

  /** The JSON reader, the one-line writer and the indented writer, both without ASCII escaping. */
  datatype Codec = Codec(loads: string -> Option<Value>, dumps: Record -> string, pretty: Record -> string)

  /** What JSON promises: both writers round-trip, one-line text starts with a brace and escapes the
      control characters, and neither blank text nor a text cut short inside an object is JSON. */
  ghost predicate IsJson(c: Codec) {
    && (forall r :: c.loads(c.dumps(r)) == Some(Object(r)))
    && (forall r :: c.loads(c.pretty(r) + "\n") == Some(Object(r)))
    && (forall r :: c.dumps(r) != "" && c.dumps(r)[0] == '{')
    && (forall r, i | 0 <= i < |c.dumps(r)| :: c.dumps(r)[i] >= ' ')
    && (forall s | IsBlank(s) :: c.loads(s).None?)
    && (forall r, n | 0 < n < |c.dumps(r)| :: c.loads(c.dumps(r)[..n]).None?)
  }

  /** A model object dumps to a record that states its identity and validates to the same object. */
  ghost predicate DumpsFaithfully(m: Model) {
    forall r | Validates(m, r) ::
      var f := m.fields(r);
      Validates(m, f) && m.fields(f) == f && ID in f && VERSION in f
  }

  // --- manifests -----------------------------------------------------------------------------

  datatype Format = Json | Jsonl | Opaque

  /** Content hashing, taken as injective. */
  datatype Digest = Sha256(content: string)

  datatype ContractReference = ContractReference(schemaId: string, version: string)

  datatype MemberSpec = MemberSpec(id: string, path: string, schemaId: string, format: Format)

  datatype Member = Member(id: string, path: string, format: Format, required: bool, digest: Digest,
                           contract: Option<ContractReference>)

  type Files = map<string, string>

  /** A refusal is reported per member; a crash is any other exception and ends the whole call. */
  datatype Failure = MemberRefused | Crashed

  // --- reading -------------------------------------------------------------------------------

  function AsRecord(v: Option<Value>): Result<Record, Failure> {
    match v
    case None => Err(Crashed)
    case Some(Object(fields)) => Ok(fields)
    case Some(_) => Err(MemberRefused)
  }

  function LoadLines(c: Codec, lines: seq<string>): Result<seq<Record>, Failure> {
    if lines == [] then Ok([])
    else if IsBlank(lines[0]) then LoadLines(c, lines[1..])
    else
      var first := AsRecord(c.loads(lines[0]));
      if first.Err? then Err(first.error) else
      var rest := LoadLines(c, lines[1..]);
      if rest.Err? then rest else Ok([first.value] + rest.value)
  }

  function LoadRecords(c: Codec, format: Format, text: string): Result<seq<Record>, Failure> {
    if format.Jsonl? then LoadLines(c, SplitLines(text))
    else
      var record := AsRecord(c.loads(text));
      if record.Err? then Err(record.error) else Ok([record.value])
  }

  /** The failure a registry error is to the bundle reader. */
  function AsFailure(e: ContractError): Failure {
    if e.MissingModel? || e.ModelRejected? then Crashed else MemberRefused
  }

  function ReadRecords(defs: Definitions, contract: ContractReference, records: seq<Record>): Result<seq<Instance>, Failure> {
    if records == [] then Ok([]) else
    var front := ReadRecords(defs, contract, records[..|records| - 1]);
    if front.Err? then front else
    var last := ReadAs(defs, contract.schemaId, records[|records| - 1], Some(contract.version));
    if last.Err? then Err(AsFailure(last.error)) else Ok(front.value + [last.value])
  }

  function ReadBoundMember(defs: Definitions, c: Codec, files: Files, m: Member): Result<seq<Instance>, Failure> {
    if m.path !in files then (if m.required then Err(MemberRefused) else Ok([]))
    else if Sha256(files[m.path]) != m.digest then Err(MemberRefused)
    else if m.format.Opaque? then Ok([])
    else
      var records := LoadRecords(c, m.format, files[m.path]);
      if records.Err? then Err(records.error)
      else if m.contract.None? then Err(MemberRefused)
      else ReadRecords(defs, m.contract.value, records.value)
  }

  lemma {:induction false} ReadRecordsStops(defs: Definitions, contract: ContractReference, records: seq<Record>, k: nat)
    requires k <= |records| && ReadRecords(defs, contract, records[..k]).Err?
    ensures ReadRecords(defs, contract, records) == ReadRecords(defs, contract, records[..k])
    decreases |records| - k
  {
    if k < |records| {
      assert records[..k + 1][..k] == records[..k];
      ReadRecordsStops(defs, contract, records, k + 1);
    } else {
      assert records[..k] == records;
    }
  }

  /** Of a record that does not read, a missing model and a failed construction crash the reader; any
      other error refuses its member. */
  lemma OneRecordFails(defs: Definitions, contract: ContractReference, r: Record)
    requires ReadAs(defs, contract.schemaId, r, Some(contract.version)).Err?
    ensures var e := ReadAs(defs, contract.schemaId, r, Some(contract.version)).error;
            && (e in {MissingModel, ModelRejected} ==> ReadRecords(defs, contract, [r]) == Err(Crashed))
            && (e !in {MissingModel, ModelRejected} ==> ReadRecords(defs, contract, [r]) == Err(MemberRefused))
  {
    assert [r][..|[r]| - 1] == [];
    assert ReadRecords(defs, contract, []) == Ok([]);
    hide ReadAs;
  }

  /** Over an accepted registry no record crashes the reader. */
  lemma {:induction false} AcceptedRecordsNeverCrash(defs: Definitions, contract: ContractReference, records: seq<Record>)
    requires ValidRegistry(defs)
    ensures ReadRecords(defs, contract, records) != Err(Crashed)
  {
    hide ReadAs, ValidRegistry;
    if records != [] {
      AcceptedRecordsNeverCrash(defs, contract, records[..|records| - 1]);
      ReadAsNeverCrashes(defs, contract.schemaId, records[|records| - 1], Some(contract.version));
    }
  }

  lemma ReadAsNeverCrashes(defs: Definitions, id: string, r: Record, version: Option<string>)
    requires ValidRegistry(defs)
    ensures var read := ReadAs(defs, id, r, version); read.Err? ==> read.error !in {MissingModel, ModelRejected}
  {
    hide ReadCurrent, ValidRegistry;
    ReadFailsOnlyOnTheRecord(defs, r);
    var assumed := if version.Some? && version.value != "" then version else if id in defs then defs[id].legacyVersion else None;
    if assumed.Some? { ReadFailsOnlyOnTheRecord(defs, r[ID := Str(id)][VERSION := Str(assumed.value)]); }
  }

  /** A blank line between two rows changes nothing. */
  lemma {:induction false} BlankLinesAreSkipped(c: Codec, before: seq<string>, blank: string, after: seq<string>)
    requires IsBlank(blank)
    ensures LoadLines(c, before + [blank] + after) == LoadLines(c, before + after)
  {
    hide IsBlank;
    if before == [] {
      assert before + [blank] + after == [blank] + after && before + after == after;
    } else {
      assert (before + [blank] + after)[1..] == before[1..] + [blank] + after;
      assert (before + after)[1..] == before[1..] + after;
      BlankLinesAreSkipped(c, before[1..], blank, after);
    }
  }

  /** Reading a member as it runs: one list of validated records that grows in a loop. */
  method ReadBoundMemberByLoop(defs: Definitions, c: Codec, files: Files, m: Member)
    returns (r: Result<seq<Instance>, Failure>)
    ensures r == ReadBoundMember(defs, c, files, m)
  {
    if m.path !in files {
      return if m.required then Err(MemberRefused) else Ok([]);
    }
    if Sha256(files[m.path]) != m.digest {
      return Err(MemberRefused);
    }
    if m.format.Opaque? {
      return Ok([]);
    }
    var records := LoadRecords(c, m.format, files[m.path]);
    if records.Err? {
      return Err(records.error);
    }
    if m.contract.None? {
      return Err(MemberRefused);
    }
    var contract := m.contract.value;
    var validated: seq<Instance> := [];
    for k := 0 to |records.value|
      invariant ReadRecords(defs, contract, records.value[..k]) == Ok(validated)
    {
      assert records.value[..k + 1][..k] == records.value[..k];
      var next := ReadAs(defs, contract.schemaId, records.value[k], Some(contract.version));
      if next.Err? {
        ReadRecordsStops(defs, contract, records.value, k + 1);
        return Err(AsFailure(next.error));
      }
      validated := validated + [next.value];
    }
    assert records.value[..|records.value|] == records.value;
    return Ok(validated);
  }

  // --- describing ----------------------------------------------------------------------------

  /** A path whose last component has the suffix `.jsonl`. */
  predicate IsJsonlPath(path: string) {
    |path| > 6 && path[|path| - 6..] == ".jsonl" && path[|path| - 7] != '/'
  }

  function FirstSolid(lines: seq<string>): string {
    if lines == [] then "" else if IsBlank(lines[0]) then FirstSolid(lines[1..]) else lines[0]
  }

  function DeclaredVersion(c: Codec, path: string, text: string): Option<string> {
    var v := c.loads(if IsJsonlPath(path) then FirstSolid(SplitLines(text)) else text);
    match v
    case Some(Object(r)) =>
      if ID !in r || r[ID].Null? then None
      else if VERSION in r && r[VERSION].Str? then Some(r[VERSION].s) else None
    case _ => None
  }

  function BoundVersion(c: Codec, path: string, text: string, d: Definition): Result<string, Failure> {
    var declared := DeclaredVersion(c, path, text);
    if declared.Some? && declared.value in d.models then Ok(declared.value)
    else if d.legacyVersion.None? then Err(Crashed)
    else Ok(d.legacyVersion.value)
  }

  lemma JsonlPathIff(path: string)
    ensures IsJsonlPath(path) <==> exists stem :: path == stem + ".jsonl" && stem != "" && stem[|stem| - 1] != '/'
  {
    if IsJsonlPath(path) {
      var stem := path[..|path| - 6];
      assert path == stem + ".jsonl";
    }
  }

  lemma {:induction false} FirstSolidIs(blanks: seq<string>, line: string, rest: seq<string>)
    requires (forall i | 0 <= i < |blanks| :: IsBlank(blanks[i])) && !IsBlank(line)
    ensures FirstSolid(blanks + [line] + rest) == line
  {
    if blanks != [] {
      assert (blanks + [line] + rest)[1..] == blanks[1..] + [line] + rest;
      FirstSolidIs(blanks[1..], line, rest);
    }
  }

  /** A record that states an id, and a version that has a model. */
  predicate States(d: Definition, r: Record, v: string) {
    ID in r && r[ID] != Null && VERSION in r && r[VERSION] == Str(v) && v in d.models
  }

  /** A member is bound at the version that its text states; its text being the first row that is not
      blank, or the whole document. One that states none is bound at the legacy version. */
  lemma BoundAsStated(c: Codec, path: string, text: string, d: Definition)
    ensures var (read, bound) := (c.loads(if IsJsonlPath(path) then FirstSolid(SplitLines(text)) else text), BoundVersion(c, path, text, d));
            && (forall r, v | read == Some(Object(r)) && States(d, r, v) :: bound == Ok(v))
            && ((forall r, v :: !(read == Some(Object(r)) && States(d, r, v))) ==>
                  bound == if d.legacyVersion.Some? then Ok(d.legacyVersion.value) else Err(Crashed))
  {
    var read := c.loads(if IsJsonlPath(path) then FirstSolid(SplitLines(text)) else text);
    hide SplitLines, FirstSolid, IsJsonlPath;
    var declared := DeclaredVersion(c, path, text);
    if declared.Some? && declared.value in d.models { assert States(d, read.value.fields, declared.value); }
  }

  function DescribeMember(defs: Definitions, c: Codec, files: Files, spec: MemberSpec): Result<Member, Failure>
    requires spec.path in files
  {
    if spec.schemaId !in defs then Err(Crashed) else
    var text := files[spec.path];
    var version := BoundVersion(c, spec.path, text, defs[spec.schemaId]);
    if version.Err? then Err(version.error)
    else Ok(Member(spec.id, spec.path, spec.format, true, Sha256(text), Some(ContractReference(spec.schemaId, version.value))))
  }

  /** The manifest of the specified members that are present. */
  function Describe(defs: Definitions, c: Codec, files: Files, specs: seq<MemberSpec>): Result<seq<Member>, Failure> {
    if specs == [] then Ok([])
    else if specs[0].path !in files then Describe(defs, c, files, specs[1..])
    else
      var first := DescribeMember(defs, c, files, specs[0]);
      if first.Err? then Err(first.error) else
      var rest := Describe(defs, c, files, specs[1..]);
      if rest.Err? then rest else Ok([first.value] + rest.value)
  }

  // --- upgrading -----------------------------------------------------------------------------

  datatype MemberReading = MemberReading(id: string, sourceVersion: string, currentVersion: string, records: nat, refused: bool) {
    predicate NeedsUpgrade() {
      !refused && sourceVersion != currentVersion
    }
  }

  function Reading(defs: Definitions, c: Codec, files: Files, m: Member): Result<MemberReading, Failure> {
    var schemaId := if m.contract.Some? then m.contract.value.schemaId else "";
    if schemaId != "" && schemaId !in defs then Err(Crashed) else
    var current := if schemaId != "" then defs[schemaId].currentVersion else "";
    var source := if m.contract.Some? then m.contract.value.version else "";
    match ReadBoundMember(defs, c, files, m)
    case Ok(records) => Ok(MemberReading(m.id, source, current, |records|, false))
    case Err(MemberRefused) => Ok(MemberReading(m.id, source, current, 0, true))
    case Err(Crashed) => Err(Crashed)
  }

  /** The survey of a member: its own and its family's current version, how many records it reads, and
      whether it refuses, in which case it counts none. */
  lemma ReadingReports(defs: Definitions, c: Codec, files: Files, m: Member)
    requires m.contract.Some? && m.contract.value.schemaId in defs && m.contract.value.schemaId != ""
    ensures var (reading, read, contract) := (Reading(defs, c, files, m), ReadBoundMember(defs, c, files, m), m.contract.value);
            && (reading.Err? <==> read == Err(Crashed))
            && (reading.Ok? ==>
                  var r := reading.value;
                  && r.id == m.id && r.sourceVersion == contract.version && r.currentVersion == defs[contract.schemaId].currentVersion
                  && (r.refused <==> read == Err(MemberRefused)) && r.records == (if read.Ok? then |read.value| else 0)
                  && (r.NeedsUpgrade() <==> read.Ok? && contract.version != defs[contract.schemaId].currentVersion))
  {
    hide ReadBoundMember;
  }

  /** A member without a contract has no version, and is never rewritten. */
  lemma UncontractedIsLeft(defs: Definitions, c: Codec, files: Files, m: Member)
    requires m.contract.None?
    ensures UpgradeMember(defs, c, files, m) in {Ok(None), Err(Crashed)}
    ensures Reading(defs, c, files, m).Ok? ==>
              Reading(defs, c, files, m).value.sourceVersion == "" == Reading(defs, c, files, m).value.currentVersion
  {
    hide ReadBoundMember;
  }

  function JoinLines(lines: seq<string>): string {
    if lines == [] then "" else lines[0] + "\n" + JoinLines(lines[1..])
  }

  function Dumps(c: Codec, records: seq<Instance>): (lines: seq<string>)
    ensures |lines| == |records| && forall i | 0 <= i < |lines| :: lines[i] == c.dumps(records[i].fields)
  {
    seq(|records|, i requires 0 <= i < |records| => c.dumps(records[i].fields))
  }

  function Rewritten(c: Codec, format: Format, records: seq<Instance>): Result<string, Failure> {
    if format.Jsonl? then Ok(JoinLines(Dumps(c, records)))
    else if records == [] then Err(Crashed)
    else Ok(c.pretty(records[0].fields) + "\n")
  }

  /** One turn of the upgrade: the new content of the member's file, or nothing to do. */
  function UpgradeMember(defs: Definitions, c: Codec, files: Files, m: Member): Result<Option<string>, Failure> {
    var reading := Reading(defs, c, files, m);
    if reading.Err? then Err(reading.error)
    else if !reading.value.NeedsUpgrade() then Ok(None)
    else
      var records := ReadBoundMember(defs, c, files, m);
      if records.Err? then Err(records.error) else
      var body := Rewritten(c, m.format, records.value);
      if body.Err? then Err(body.error) else Ok(Some(body.value))
  }

  /** The files and the rewritten member ids after the turns for `members`, from the last one back. */
  function Upgrade(defs: Definitions, c: Codec, files: Files, members: seq<Member>): (Files, Result<seq<string>, Failure>) {
    if members == [] then (files, Ok([])) else
    var n := |members| - 1;
    var (before, ids) := Upgrade(defs, c, files, members[..n]);
    if ids.Err? then (before, ids) else
    match UpgradeMember(defs, c, before, members[n])
    case Err(e) => (before, Err(e))
    case Ok(None) => (before, ids)
    case Ok(Some(body)) => (before[members[n].path := body], Ok(ids.value + [members[n].id]))
  }

  class Store {
    var files: Files

    constructor (files: Files)
      ensures this.files == files
    {
      this.files := files;
    }

    /** The upgrade as it runs: files rewritten in place, member by member. */
    method UpgradeBundle(defs: Definitions, c: Codec, members: seq<Member>) returns (ids: Result<seq<string>, Failure>)
      modifies this
      ensures (files, ids) == Upgrade(defs, c, old(files), members)
    {
      var upgraded: seq<string> := [];
      for k := 0 to |members|
        invariant Upgrade(defs, c, old(files), members[..k]) == (files, Ok(upgraded))
      {
        assert members[..k + 1][..k] == members[..k];
        var body := UpgradeMember(defs, c, files, members[k]);
        if body.Err? {
          UpgradeStops(defs, c, old(files), members, k + 1);
          return Err(body.error);
        }
        if body.value.Some? {
          files := files[members[k].path := body.value.value];
          upgraded := upgraded + [members[k].id];
        }
      }
      assert members[..|members|] == members;
      return Ok(upgraded);
    }
  }

  lemma {:induction false} UpgradeStops(defs: Definitions, c: Codec, files: Files, members: seq<Member>, k: nat)
    requires k <= |members| && Upgrade(defs, c, files, members[..k]).1.Err?
    ensures Upgrade(defs, c, files, members) == Upgrade(defs, c, files, members[..k])
    decreases |members| - k
  {
    if k < |members| {
      assert members[..k + 1][..k] == members[..k];
      UpgradeStops(defs, c, files, members, k + 1);
    } else {
      assert members[..k] == members;
    }
  }
}
