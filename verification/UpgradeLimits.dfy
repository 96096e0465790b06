/** Members that an upgrade writes and that do, or do not, come back. */
module UpgradeLimits {
  import opened Text
  import opened Contracts
  import opened Registry
  import opened RegistryValidation
  import opened Bundles
  import opened BundleUpgrade
  import Migrations
  import PlainJson

  /** A step to version `w` that adds the note `s`. */
  function AddNote(w: string, s: string): Record -> Record {
    (r: Record) => r[VERSION := Str(w)]["note" := Str(s)]
  }

  function NoteFamily(id: string, v: string, w: string, s: string): Definition {
    OneStepFamily(id, v, w, AddNote(w, s), false)
  }

  function RowSpec(id: string): MemberSpec {
    MemberSpec("rows", "rows.jsonl", id, Jsonl)
  }

  function OldRow(id: string, v: string): Record {
    map[ID := Str(id), VERSION := Str(v)]
  }

  function NewRow(id: string, w: string, s: string): Record {
    map[ID := Str(id), VERSION := Str(w), "note" := Str(s)]
  }

  ghost function FileOf(r: Record): string {
    JoinLines([PlainJson.Dumps(r)])
  }

  lemma KeysDiffer()
    ensures ID != VERSION && ID != "note" && VERSION != "note"
  {
    assert ID[7] != VERSION[7];
  }

  lemma OldRowIsOneLine(id: string, v: string)
    requires PlainJson.IsUnbroken(id) && PlainJson.IsUnbroken(v)
    ensures IsOneLine(PlainJson.Dumps(OldRow(id, v)))
  {
    hide IsOneLine, PlainJson.Dumps;
    KeysDiffer();
    KeysAreUnbroken();
    PlainJson.DumpsIsOneLine(OldRow(id, v));
    forall k | k in OldRow(id, v) ensures PlainJson.IsUnbroken(k) && PlainJson.HasNoBreak(OldRow(id, v)[k]) {
      assert k == ID || k == VERSION;
    }
  }

  lemma KeysAreUnbroken()
    ensures PlainJson.IsUnbroken(ID) && PlainJson.IsUnbroken(VERSION) && PlainJson.IsUnbroken("note")
  {}

  lemma NewRowIsOneLine(id: string, w: string, s: string)
    requires PlainJson.IsUnbroken(id) && PlainJson.IsUnbroken(w)
    ensures IsOneLine(PlainJson.Dumps(NewRow(id, w, s))) <==> PlainJson.IsUnbroken(s)
  {
    hide IsOneLine, PlainJson.Dumps, PlainJson.IsUnbroken;
    KeysDiffer();
    KeysAreUnbroken();
    PlainJson.DumpsIsOneLine(NewRow(id, w, s));
    assert NewRow(id, w, s)["note"] == Str(s);
    if PlainJson.IsUnbroken(s) {
      forall k | k in NewRow(id, w, s) ensures PlainJson.IsUnbroken(k) && PlainJson.HasNoBreak(NewRow(id, w, s)[k]) {
        assert k == ID || k == VERSION || k == "note";
      }
    }
  }

  /** The family of the note passes the static check, and its old row reads as the new one. */
  lemma OldRowReads(id: string, v: string, w: string, s: string)
    requires v != w && Versioning.Parse(v).Some? && Versioning.Parse(w).Some?
    ensures var (d, newer) := (NoteFamily(id, v, w, s), NewRow(id, w, s));
            ValidRegistry(map[id := d]) && ReadCurrent(map[id := d], OldRow(id, v)) == Ok(Instance(id, w, newer))
  {
    hide ValidRegistry, ReadCurrent, OneStepFamily;
    KeysDiffer();
    OneStepFamilyIsValid(id, v, w, AddNote(w, s), false);
    assert AddNote(w, s)(OldRow(id, v)) == NewRow(id, w, s);
    assert Identified(id, w, NewRow(id, w, s)) == NewRow(id, w, s);
    OpenModelAccepts(id, w, NewRow(id, w, s));
    OneStepReads(id, v, w, AddNote(w, s), false, OldRow(id, v));
  }

  lemma OpenModelDumpsFaithfully(id: string, w: string)
    ensures DumpsFaithfully(OpenModel(id, w))
  {
    KeysDiffer();
    forall r: Record ensures Identified(id, w, Identified(id, w, r)) == Identified(id, w, r) { IdentifiedTwice(id, w, r); }
  }

  lemma IdentifiedTwice(id: string, w: string, r: Record)
    ensures Identified(id, w, Identified(id, w, r)) == Identified(id, w, r)
  {
    KeysDiffer();
    var f := Identified(id, w, r);
    assert f[ID] == Str(id) && f[VERSION] == Str(w);
    assert f[ID := Str(id)] == f && f[VERSION := Str(w)] == f;
  }

  lemma NoteFamilyIsSound(id: string, v: string, w: string, s: string)
    requires v != w && Versioning.Parse(v).Some? && Versioning.Parse(w).Some?
    ensures var d := NoteFamily(id, v, w, s); IsSound(d) && !Refused(d, w) && v in d.models && d.schemaId == id && d.currentVersion == w
  {
    hide VersionsAndModelsOk, DeclarationsOk, Refused, DumpsFaithfully, OneStepFamily;
    OneStepVersions(id, v, w, AddNote(w, s), false);
    OneStepDeclarations(id, v, w, AddNote(w, s), false);
    OneStepShape(id, v, w, AddNote(w, s), false);
    OpenModelDumpsFaithfully(id, w);
  }

  /** What a member's text reads as, by its version and its records. */
  lemma ReadTextByParts(defs: Definitions, c: Codec, spec: MemberSpec, text: string)
    requires IsSpec(defs, spec)
    ensures var (version, rows) := (BoundVersion(c, spec.path, text, defs[spec.schemaId]), LoadRecords(c, spec.format, text));
            && (rows == Err(Crashed) ==> ReadText(defs, c, spec, text) == Err(Crashed))
            && (version.Ok? && rows.Ok? ==>
                  ReadText(defs, c, spec, text) == ReadRecords(defs, ContractReference(spec.schemaId, version.value), rows.value))
  {
    BoundVersionCrashes(c, spec.path, text, defs[spec.schemaId]);
    hide BoundVersion, LoadRecords, ReadRecords;
  }

  lemma BoundVersionCrashes(c: Codec, path: string, text: string, d: Definition)
    ensures BoundVersion(c, path, text, d).Err? ==> BoundVersion(c, path, text, d).error == Crashed
  {}

  /** A file of one row whose text is one line holds that row, at the version that it states. */
  lemma OneRowFile(r: Record, d: Definition, id: string, v: string)
    requires IsOneLine(PlainJson.Dumps(r)) && IsAt(r, id, v) && v in d.models
    ensures var (c, text) := (PlainJson.BundleCodec(), FileOf(r));
            LoadRecords(c, Jsonl, text) == Ok([r]) && BoundVersion(c, "rows.jsonl", text, d) == Ok(v)
  {
    hide PlainJson.Dumps, JoinLines, SplitLines, LoadLines, IsOneLine;
    var (c, o) := (PlainJson.BundleCodec(), Instance(id, v, r));
    PlainJson.BundleCodecIsJson();
    assert Dumps(c, [o]) == [PlainJson.Dumps(r)] && Fields([o]) == [r];
    RewrittenRowsLoadBack(c, [o]);
    SplitOfJoin([PlainJson.Dumps(r)]);
    DumpIsSolid(c, r);
    OneRowVersion(c, PlainJson.Dumps(r), FileOf(r), r, d, v);
  }

  lemma OneRowVersion(c: Codec, line: string, text: string, r: Record, d: Definition, v: string)
    requires SplitLines(text) == [line] && !IsBlank(line) && c.loads(line) == Some(Object(r))
    requires ID in r && r[ID].Str? && VERSION in r && r[VERSION] == Str(v) && v in d.models
    ensures BoundVersion(c, "rows.jsonl", text, d) == Ok(v)
  {
    hide SplitLines, IsBlank;
    JsonlRows();
    assert FirstSolid([line]) == line;
  }

  lemma JsonlRows()
    ensures IsJsonlPath("rows.jsonl")
  {
    assert "rows.jsonl"[4..] == ".jsonl";
  }

  lemma OneRecordIsRead(defs: Definitions, id: string, v: string, r: Record, o: Instance)
    requires id in defs && IsAt(r, id, v) && ReadCurrent(defs, r) == Ok(o)
    ensures ReadRecords(defs, ContractReference(id, v), [r]) == Ok([o])
  {
    hide ReadCurrent;
    assert ReadAs(defs, id, r, Some(v)) == ReadCurrent(defs, r);
    var rows := [r];
    assert rows[..|rows| - 1] == [] && rows[|rows| - 1] == r && [] + [o] == [o];
    assert ReadRecords(defs, ContractReference(id, v), []) == Ok([]);
  }

  /** A row file that reads and is bound at an old version is rewritten. */
  lemma RowsAreRewritten(defs: Definitions, c: Codec, spec: MemberSpec, text: string, records: seq<Instance>)
    requires IsSpec(defs, spec) && spec.format.Jsonl? && ReadText(defs, c, spec, text) == Ok(records)
    requires BoundVersion(c, spec.path, text, defs[spec.schemaId]).Ok?
    requires BoundVersion(c, spec.path, text, defs[spec.schemaId]).value != defs[spec.schemaId].currentVersion
    ensures UpgradeText(defs, c, spec, text) == Ok(Some(JoinLines(Dumps(c, records))))
  {
    hide BoundVersion, LoadRecords, ReadRecords, JoinLines;
  }

  lemma OneDump(o: Instance)
    ensures JoinLines(Dumps(PlainJson.BundleCodec(), [o])) == FileOf(o.fields)
    ensures IsClean(PlainJson.BundleCodec(), [o]) <==> IsOneLine(PlainJson.Dumps(o.fields))
  {
    hide JoinLines, PlainJson.Dumps, IsOneLine;
    var c := PlainJson.BundleCodec();
    assert Dumps(c, [o]) == [PlainJson.Dumps(o.fields)];
    assert IsClean(c, [o]) <==> IsOneLine(c.dumps([o][0].fields));
  }

  lemma RowSpecIsSpec(defs: Definitions, id: string)
    requires id in defs && defs[id].schemaId == id && id != ""
    ensures IsSpec(defs, RowSpec(id))
  {
    JsonlRows();
  }

  /** The bundle of the note: its one old row is rewritten, and it comes back exactly if the note
      holds no U+0085, U+2028 or U+2029; otherwise the written file no longer reads. */
  lemma NoteComesBackIfUnbroken(id: string, v: string, w: string, s: string)
    requires v != w && Versioning.Parse(v).Some? && Versioning.Parse(w).Some? && id != ""
    requires PlainJson.IsUnbroken(id) && PlainJson.IsUnbroken(v) && PlainJson.IsUnbroken(w)
    ensures var (defs, c, spec) := (map[id := NoteFamily(id, v, w, s)], PlainJson.BundleCodec(), RowSpec(id));
            var (text, body, read) := (FileOf(OldRow(id, v)), FileOf(NewRow(id, w, s)), Ok([Instance(id, w, NewRow(id, w, s))]));
            && IsJson(c) && SoundSpec(defs, spec)
            && ReadText(defs, c, spec, text) == read && UpgradeText(defs, c, spec, text) == Ok(Some(body))
            && ReadText(defs, c, spec, body) == if PlainJson.IsUnbroken(s) then read else Err(Crashed)
  {
    var (d, c, spec) := (NoteFamily(id, v, w, s), PlainJson.BundleCodec(), RowSpec(id));
    var (defs, older, newer) := (map[id := d], OldRow(id, v), NewRow(id, w, s));
    var o := Instance(id, w, newer);
    OldRowIsAt(id, v);
    hide NoteFamily, OldRow, NewRow, PlainJson.BundleCodec, FileOf, IsSound, ReadText, UpgradeText, BoundVersion, LoadRecords,
         ReadRecords, IsJson, IsClean, IsOneLine, IsAt, ReadCurrent, PlainJson.Dumps, PlainJson.IsUnbroken, JoinLines, SplitLines, LoadLines;
    PlainJson.BundleCodecIsJson();
    NoteFamilyIsSound(id, v, w, s);
    RowSpecIsSpec(defs, id);
    OldRowIsOneLine(id, v);
    OldRowReads(id, v, w, s);
    OneRowFile(older, d, id, v);
    OneRecordIsRead(defs, id, v, older, o);
    ReadTextByParts(defs, c, spec, FileOf(older));
    RowsAreRewritten(defs, c, spec, FileOf(older), [o]);
    OneDump(o);
    NewRowIsOneLine(id, w, s);
    if PlainJson.IsUnbroken(s) {
      RewrittenComesBack(defs, c, spec, FileOf(older), FileOf(newer));
    } else {
      RewrittenRowsLoadBack(c, [o]);
      BrokenRows(c, FileOf(newer));
      ReadTextByParts(defs, c, spec, FileOf(newer));
    }
  }

  lemma OldRowIsAt(id: string, v: string)
    ensures IsAt(OldRow(id, v), id, v)
  {
    KeysDiffer();
  }

  lemma BrokenRows(c: Codec, text: string)
    requires LoadLines(c, SplitLines(text)) == Err(Crashed)
    ensures LoadRecords(c, Jsonl, text) == Err(Crashed)
  {}

  // --- a row file without a row --------------------------------------------------------------

  /** The family of the note, for files that are as old as `v` when they state no version. */
  function LegacyFamily(id: string, v: string, w: string): Definition {
    NoteFamily(id, v, w, "n").(legacyVersion := Some(v))
  }

  lemma LegacyFamilyIsSound(id: string, v: string, w: string)
    requires v != w && Versioning.Parse(v).Some? && Versioning.Parse(w).Some?
    ensures var d := LegacyFamily(id, v, w);
            ValidRegistry(map[id := d]) && IsSound(d) && d.schemaId == id && d.currentVersion == w && d.legacyVersion == Some(v)
  {
    var (older, d) := (NoteFamily(id, v, w, "n"), LegacyFamily(id, v, w));
    NoteFamilyIsSound(id, v, w, "n");
    OneStepDeclarations(id, v, w, AddNote(w, "n"), false);
    OneStepShape(id, v, w, AddNote(w, "n"), false);
    SoundWithLegacy(older, v);
    OneStepPaths(d, v);
    hide Migrations.MigrationPaths, VersionsAndModelsOk, DeclarationsOk, OldVersionsOk, ValidRegistry, DumpsFaithfully;
    OneOldVersion(d, v);
    OneFamily(d);
  }

  lemma SoundWithLegacy(d: Definition, v: string)
    requires IsSound(d) && DeclarationsOk(d) && v in d.models && !Refused(d, v)
    ensures var l := d.(legacyVersion := Some(v)); IsSound(l) && DeclarationsOk(l) && !Refused(l, v)
  {
    hide DumpsFaithfully;
    var l := d.(legacyVersion := Some(v));
    assert forall x | x in d.models :: ConstsMatch(d, x) && ConstsMatch(l, x);
  }

  /** The empty row file of an accepted family: it reads, an upgrade rewrites it as it is, and it
      stays bound at the legacy version. */
  lemma EmptyFileStaysLegacy(c: Codec, id: string, v: string, w: string)
    requires IsJson(c) && v != w && Versioning.Parse(v).Some? && Versioning.Parse(w).Some? && id != ""
    ensures var (defs, spec) := (map[id := LegacyFamily(id, v, w)], RowSpec(id));
            && ValidRegistry(defs) && SoundSpec(defs, spec)
            && ReadText(defs, c, spec, "") == Ok([]) && UpgradeText(defs, c, spec, "") == Ok(Some(""))
            && MemberOf(defs, c, spec, "").Ok? && VersionOf(MemberOf(defs, c, spec, "").value) == v
  {
    var (d, spec) := (LegacyFamily(id, v, w), RowSpec(id));
    var defs := map[id := d];
    LegacyFamilyIsSound(id, v, w);
    JsonlRows();
    RowlessIsLegacy(c, "rows.jsonl", "", d);
    RowSpecIsSpec(defs, id);
    hide LegacyFamily, ValidRegistry, IsSound, IsSpec, BoundVersion, LoadRecords, ReadRecords, ReadText, UpgradeText;
    NothingReads(c, ContractReference(id, v), defs);
    ReadTextByParts(defs, c, spec, "");
    RowsAreRewritten(defs, c, spec, "", []);
  }

  lemma NothingReads(c: Codec, contract: ContractReference, defs: Definitions)
    ensures LoadRecords(c, Jsonl, "") == Ok([]) && ReadRecords(defs, contract, []) == Ok([]) && JoinLines(Dumps(c, [])) == ""
  {
    assert Dumps(c, []) == [];
  }
}
