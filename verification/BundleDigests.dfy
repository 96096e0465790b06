/** What becomes of bundle files that changed after they were described. */
module BundleDigests {
  import opened Text
  import opened Contracts
  import opened Bundles
  import opened BundleUpgrade

  /** The file at `path` still holds what it held. */
  predicate IsIntact(files: Files, later: Files, path: string) {
    path in files && path in later && later[path] == files[path]
  }

  /** A member without a file refuses if it is required, and otherwise reads as nothing; one with a
      file reads only if its text is the one that the manifest's digest was taken of. An opaque member
      then reads as nothing, and any other one that names no contract does not read. */
  lemma ReadsOnlyItsText(defs: Definitions, c: Codec, files: Files, m: Member)
    ensures m.path !in files ==> ReadBoundMember(defs, c, files, m) == if m.required then Err(MemberRefused) else Ok([])
    ensures m.path in files && m.digest != Sha256(files[m.path]) ==> ReadBoundMember(defs, c, files, m) == Err(MemberRefused)
    ensures m.path in files && m.digest == Sha256(files[m.path]) && m.format == Opaque ==> ReadBoundMember(defs, c, files, m) == Ok([])
    ensures m.path in files && m.format != Opaque && m.contract == None ==> ReadBoundMember(defs, c, files, m).Err?
  {}

  lemma DescribedMember(defs: Definitions, c: Codec, spec: MemberSpec, text: string)
    requires MemberOf(defs, c, spec, text).Ok?
    ensures var m := MemberOf(defs, c, spec, text).value;
            && m.id == spec.id && m.path == spec.path && m.format == spec.format && m.required && m.digest == Sha256(text)
            && m.contract.Some? && m.contract.value.schemaId == spec.schemaId && spec.schemaId in defs
  {
    hide BoundVersion;
  }

  /** A described member whose file has changed since, or has gone, refuses. */
  lemma ChangedMemberRefuses(defs: Definitions, c: Codec, files: Files, later: Files, spec: MemberSpec, m: Member)
    requires IsMemberOf(defs, c, files, spec, m) && !IsIntact(files, later, m.path)
    ensures ReadBoundMember(defs, c, later, m) == Err(MemberRefused) && UpgradeMember(defs, c, later, m) == Ok(None)
  {
    hide MemberOf, ReadBoundMember;
    DescribedMember(defs, c, spec, files[spec.path]);
    ReadsOnlyItsText(defs, c, later, m);
  }

  /** A member reads only as long as its file holds the text that it was described with. */
  lemma DescribedReadsIntact(defs: Definitions, c: Codec, files: Files, specs: seq<MemberSpec>, members: seq<Member>, later: Files, i: nat)
    requires Describe(defs, c, files, specs) == Ok(members) && i < |members|
    ensures ReadBoundMember(defs, c, later, members[i]).Ok? ==> IsIntact(files, later, members[i].path)
    ensures !IsIntact(files, later, members[i].path) ==> ReadBoundMember(defs, c, later, members[i]) == Err(MemberRefused)
  {
    hide ReadBoundMember, UpgradeMember, MemberOf;
    DescribeLists(defs, c, files, specs);
    var present := Present(files, specs);
    assert IsMemberOf(defs, c, files, present[i], members[i]);
    if !IsIntact(files, later, members[i].path) {
      ChangedMemberRefuses(defs, c, files, later, present[i], members[i]);
    }
  }

  /** Every returned id is that of a member whose file has not changed. */
  ghost predicate AreIntact(files: Files, later: Files, members: seq<Member>, ids: seq<string>) {
    forall id | id in ids :: exists j :: 0 <= j < |members| && members[j].id == id && IsIntact(files, later, members[j].path)
  }

  /** No path comes or goes, and what has changed since the description stays as it is. */
  ghost predicate LeavesChanged(files: Files, later: Files, after: Files) {
    after.Keys == later.Keys && forall path | path in later && !IsIntact(files, later, path) :: after[path] == later[path]
  }

  /** An upgrade of files that changed since they were described leaves each of them byte-identical,
      whether it completes or not, and rewrites only members whose file is as it was. */
  lemma ChangedFilesAreLeft(defs: Definitions, c: Codec, files: Files, specs: seq<MemberSpec>, members: seq<Member>, later: Files)
    requires Describe(defs, c, files, specs) == Ok(members)
    ensures var (after, ids) := Upgrade(defs, c, later, members);
            LeavesChanged(files, later, after) && (ids.Ok? ==> AreIntact(files, later, members, ids.value))
  {
    DescribeLists(defs, c, files, specs);
    TurnsLeaveChanged(defs, c, files, Present(files, specs), members, later);
  }

  lemma {:induction false} TurnsLeaveChanged(defs: Definitions, c: Codec, files: Files, present: seq<MemberSpec>, members: seq<Member>, later: Files)
    requires Describes(defs, c, files, present, members)
    ensures var (after, ids) := Upgrade(defs, c, later, members);
            LeavesChanged(files, later, after) && (ids.Ok? ==> AreIntact(files, later, members, ids.value))
  {
    hide UpgradeMember, IsMemberOf, LeavesChanged, AreIntact;
    if members != [] {
      var n := |members| - 1;
      DescribesFront(defs, c, files, present, members, n);
      TurnsLeaveChanged(defs, c, files, present[..n], members[..n], later);
      var (before, ids) := Upgrade(defs, c, later, members[..n]);
      assert IsMemberOf(defs, c, files, present[n], members[n]);
      if ids.Ok? {
        OneTurnLeaves(defs, c, files, later, before, present[n], members, ids.value);
      }
    } else {
      NothingTurned(files, later);
    }
  }

  lemma NothingTurned(files: Files, later: Files)
    ensures LeavesChanged(files, later, later) && AreIntact(files, later, [], [])
  {}

  lemma OneTurnLeaves(defs: Definitions, c: Codec, files: Files, later: Files, before: Files, spec: MemberSpec,
                      members: seq<Member>, ids: seq<string>)
    requires members != [] && IsMemberOf(defs, c, files, spec, members[|members| - 1])
    requires LeavesChanged(files, later, before) && AreIntact(files, later, members[..|members| - 1], ids)
    ensures var m := members[|members| - 1];
            match UpgradeMember(defs, c, before, m)
            case Ok(Some(body)) => LeavesChanged(files, later, before[m.path := body]) && AreIntact(files, later, members, ids + [m.id])
            case Ok(None) => AreIntact(files, later, members, ids)
            case Err(_) => true
  {
    hide UpgradeMember, IsMemberOf;
    var (n, m) := (|members| - 1, members[|members| - 1]);
    if !IsIntact(files, before, m.path) {
      ChangedMemberRefuses(defs, c, files, before, spec, m);
    }
    forall id | id in ids ensures exists j :: 0 <= j < |members| && members[j].id == id && IsIntact(files, later, members[j].path) {
      var j :| 0 <= j < n && members[..n][j].id == id && IsIntact(files, later, members[..n][j].path);
      assert members[j] == members[..n][j];
    }
  }
}
