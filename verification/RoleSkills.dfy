/**
  Reconciling a role's skill directory with the skills selected for the role. What is
  mounted afterwards is a function of the selection and the skill sources alone.
 */
module RoleSkills {
  import opened Wrappers
  import opened SkillNames

  type Path = string

  datatype Kind = Symlink | Copy

  /** A line of the manifest. */
  datatype Entry = Entry(name: Name, target: Path, kind: Kind, broken: bool)

  datatype Wanted = Wanted(name: Name, target: Path, kind: Kind)

  /** What the directory holds under a name. */
  datatype Mounted = Link(target: Path) | DanglingLink | CopyOf(target: Path)

  /** The skill sources as the file system answers for them. */
  datatype Sources = Sources(
    resolve: Path -> Option<Path>,
    baseName: Path -> string,
    nameFits: (Path, Name) -> bool)

  function NamesOf(desired: seq<Wanted>): set<Name> {
    set d | d in desired :: d.name
  }

  ghost predicate DistinctNames(desired: seq<Wanted>) {
    forall i, j :: 0 <= i < j < |desired| ==> desired[i].name != desired[j].name
  }

  /** The entry for one more selected path, unless its source cannot be loaded. */
  function WithSelected(desired: seq<Wanted>, raw: Path, sources: Sources): seq<Wanted> {
    match sources.resolve(raw)
    case None => desired
    case Some(target) =>
      var name := Unique(Slug(sources.baseName(target)), NamesOf(desired));
      desired + [Wanted(name, target, if sources.nameFits(target, name) then Symlink else Copy)]
  }

  function Desired(selected: seq<Path>, sources: Sources): seq<Wanted> {
    if selected == [] then []
    else WithSelected(Desired(selected[..|selected| - 1], sources), selected[|selected| - 1], sources)
  }

  lemma {:induction false} DesiredNamesAreDistinct(selected: seq<Path>, sources: Sources)
    ensures DistinctNames(Desired(selected, sources))
    decreases |selected|
  {
    if selected != [] {
      var front := Desired(selected[..|selected| - 1], sources);
      DesiredNamesAreDistinct(selected[..|selected| - 1], sources);
      forall i | 0 <= i < |front| ensures front[i].name in NamesOf(front) {
        assert front[i] in front;
      }
    }
  }

  /** Every selected source that loads is mounted once, in order, and nothing else is. */
  function Loaded(selected: seq<Path>, sources: Sources): seq<Path> {
    if selected == [] then []
    else
      var last := sources.resolve(selected[|selected| - 1]);
      Loaded(selected[..|selected| - 1], sources) + if last.Some? then [last.value] else []
  }

  lemma {:induction false} DesiredCoversLoaded(selected: seq<Path>, sources: Sources)
    ensures |Desired(selected, sources)| == |Loaded(selected, sources)|
    ensures forall i :: 0 <= i < |Desired(selected, sources)| ==>
      Desired(selected, sources)[i].target == Loaded(selected, sources)[i]
    decreases |selected|
  {
    if selected != [] {
      DesiredCoversLoaded(selected[..|selected| - 1], sources);
    }
  }

  function OnDisk(d: Wanted): Mounted {
    if d.kind.Symlink? then Link(d.target) else CopyOf(d.target)
  }

  /** These skills stand under their names. */
  ghost predicate Shows(skills: map<Name, Mounted>, desired: seq<Wanted>) {
    forall d :: d in desired ==> Lookup(skills, d.name) == Some(OnDisk(d))
  }

  lemma NamesGrow(front: seq<Wanted>, last: Wanted)
    ensures NamesOf(front + [last]) == NamesOf(front) + {last.name}
  {
    forall name ensures name in NamesOf(front + [last]) <==> name in NamesOf(front) + {last.name} {
      if name in NamesOf(front) {
        var d :| d in front && d.name == name;
        assert d in front + [last];
      }
      assert last in front + [last];
    }
  }

  /** Only recorded names may be taken; what stands under a recorded name may have been damaged. */
  predicate OnlyRecorded(skills: map<Name, Mounted>, mirrors: set<Name>, existing: map<Name, Entry>, name: Name) {
    name in existing || (name !in skills && name !in mirrors)
  }

  function Lookup(skills: map<Name, Mounted>, name: Name): Option<Mounted> {
    if name in skills then Some(skills[name]) else None
  }

  predicate Kept(existing: map<Name, Entry>, d: Wanted) {
    d.name in existing && existing[d.name].target == d.target && existing[d.name].kind == d.kind
  }

  predicate Unreachable(skills: map<Name, Mounted>, name: Name) {
    name in skills ==> skills[name].DanglingLink?
  }

  /** What stands under `d` afterwards: a kept entry is touched only if its link leads nowhere. */
  function Standing(existing: map<Name, Entry>, skills: map<Name, Mounted>, d: Wanted): Option<Mounted> {
    if Kept(existing, d) && !(d.kind.Symlink? && Unreachable(skills, d.name)) then Lookup(skills, d.name)
    else Some(OnDisk(d))
  }

  /** Mirrors are made for new and replaced entries only. */
  function Rebuilt(existing: map<Name, Entry>, desired: seq<Wanted>): set<Name> {
    set d | d in desired && !Kept(existing, d) :: d.name
  }

  /** A role's directory: whether it has a manifest, the manifest's records, the mounted skills and their mirrors. */
  datatype Dir = Dir(hasManifest: bool, records: map<Name, Entry>, skills: map<Name, Mounted>, mirrors: set<Name>)

  const EMPTY := Dir(false, map[], map[], {})

  /** What is kept of `d` is whole: its mirror, and its copy or whatever its link leads to. */
  predicate Whole(a: Dir, d: Wanted) {
    && d.name in a.mirrors
    && if d.kind.Symlink?
       then d.name in a.skills && !a.skills[d.name].DanglingLink? ==> a.skills[d.name] == Link(d.target)
       else d.name in a.skills && a.skills[d.name] == CopyOf(d.target)
  }

  /** Kept entries are whole but for missing or dangling links, and flags stand on kept links only. */
  predicate Healthy(a: Dir, desired: seq<Wanted>) {
    forall d :: d in desired ==>
      && (Kept(a.records, d) ==> Whole(a, d))
      && (d.name in a.records && a.records[d.name].broken ==> Kept(a.records, d) && d.kind.Symlink?)
  }

  /** The directory is what this selection asks for. */
  ghost predicate Settled(a: Dir, desired: seq<Wanted>) {
    && a.hasManifest && Shows(a.skills, desired) && NamesOf(desired) <= a.mirrors
    && a.records.Keys == NamesOf(desired)
    && forall d :: d in desired ==> d.name in a.records && a.records[d.name] == Entry(d.name, d.target, d.kind, false)
  }

  /** What reconciling does: recorded names nobody wants go, unrecorded ones are left alone. */
  ghost predicate Reconciles(a: Dir, desired: seq<Wanted>, b: Dir) {
    && (forall d :: d in desired ==> Lookup(b.skills, d.name) == Standing(a.records, a.skills, d))
    && b.skills - NamesOf(desired) == a.skills - (a.records.Keys + NamesOf(desired))
    && b.mirrors == a.mirrors - (a.records.Keys - NamesOf(desired)) + Rebuilt(a.records, desired)
    && b.hasManifest && Records(b.records, a.records, desired)
  }

  /** The record of `d` after it was mounted: a kept link is healthy again, other flags stay. */
  function RecordAfter(existing: map<Name, Entry>, d: Wanted): Entry {
    Entry(d.name, d.target, d.kind,
      d.name in existing && existing[d.name].broken && !(Kept(existing, d) && d.kind.Symlink?))
  }

  function RecordsAfter(existing: map<Name, Entry>, desired: seq<Wanted>): (entries: seq<Entry>) {
    seq(|desired|, i requires 0 <= i < |desired| => RecordAfter(existing, desired[i]))
  }

  function ByName(entries: seq<Entry>): (byName: map<Name, Entry>)
    ensures forall name :: name in byName ==> byName[name].name == name
  {
    if entries == [] then map[]
    else ByName(entries[..|entries| - 1])[entries[|entries| - 1].name := entries[|entries| - 1]]
  }

  ghost predicate DistinctEntries(entries: seq<Entry>) {
    forall i, j :: 0 <= i < j < |entries| ==> entries[i].name != entries[j].name
  }

  lemma {:induction false} ByNameHolds(entries: seq<Entry>, k: nat)
    requires DistinctEntries(entries) && k < |entries|
    ensures entries[k].name in ByName(entries) && ByName(entries)[entries[k].name] == entries[k]
    decreases |entries|
  {
    if k < |entries| - 1 {
      ByNameHolds(entries[..|entries| - 1], k);
    }
  }

  lemma {:induction false} ByNameIsOnly(entries: seq<Entry>, name: Name)
    requires name in ByName(entries)
    ensures exists k :: 0 <= k < |entries| && entries[k].name == name
    decreases |entries|
  {
    var front, last := entries[..|entries| - 1], entries[|entries| - 1];
    if name != last.name {
      ByNameIsOnly(front, name);
      var k :| 0 <= k < |front| && front[k].name == name;
      assert entries[k].name == name;
    }
  }

  lemma RecordsByName(existing: map<Name, Entry>, desired: seq<Wanted>, name: Name)
    requires DistinctNames(desired)
    ensures name in ByName(RecordsAfter(existing, desired)) <==> name in NamesOf(desired)
    ensures forall d :: d in desired && d.name == name ==>
      name in ByName(RecordsAfter(existing, desired)) &&
      ByName(RecordsAfter(existing, desired))[name] == RecordAfter(existing, d)
  {
    var records := RecordsAfter(existing, desired);
    forall d | d in desired && d.name == name
      ensures name in ByName(records) && ByName(records)[name] == RecordAfter(existing, d)
    {
      var k :| 0 <= k < |desired| && desired[k] == d;
      ByNameHolds(records, k);
    }
    if name in ByName(records) {
      ByNameIsOnly(records, name);
      var k :| 0 <= k < |records| && records[k].name == name;
      assert desired[k] in desired;
    }
  }

  /** The manifest does not yet say of `d` what it will. */
  predicate Outdated(existing: map<Name, Entry>, d: Wanted) {
    d.name !in existing || existing[d.name] != RecordAfter(existing, d)
  }

  /** `records` is what the selection asks for, with the flags that `before` leaves. */
  ghost predicate Records(records: map<Name, Entry>, before: map<Name, Entry>, desired: seq<Wanted>) {
    && records.Keys == NamesOf(desired)
    && forall d :: d in desired ==> d.name in records && records[d.name] == RecordAfter(before, d)
  }

  lemma NameIsWanted(desired: seq<Wanted>, name: Name) returns (d: Wanted)
    requires name in NamesOf(desired)
    ensures d in desired && d.name == name
  {
    d :| d in desired && d.name == name;
  }

  /** What is mounted after reconciling is determined by the selection. */
  lemma ShowsIsUnique(a: map<Name, Mounted>, b: map<Name, Mounted>, desired: seq<Wanted>)
    requires Shows(a, desired) && Shows(b, desired)
    requires a - NamesOf(desired) == b - NamesOf(desired)
    ensures a == b
  {
    forall name ensures Lookup(a, name) == Lookup(b, name) {
      if name in NamesOf(desired) {
        var d := NameIsWanted(desired, name);
      } else {
        assert name in a <==> name in a - NamesOf(desired);
        assert name in b <==> name in b - NamesOf(desired);
        assert name in a ==> (a - NamesOf(desired))[name] == a[name];
      }
    }
    SameLookups(a, b);
  }

  lemma SameLookups(a: map<Name, Mounted>, b: map<Name, Mounted>)
    requires forall name :: Lookup(a, name) == Lookup(b, name)
    ensures a == b
  {
    forall name ensures (name in a <==> name in b) && (name in a ==> a[name] == b[name]) {
      assert Lookup(a, name) == Lookup(b, name);
    }
  }

  /** The first `i` entries are mounted, the names of the others are as they were. */
  ghost predicate MountedUpTo(
      before: map<Name, Mounted>, skills: map<Name, Mounted>, existing: map<Name, Entry>, desired: seq<Wanted>, i: nat)
    requires i <= |desired|
  {
    && skills - NamesOf(desired) == before - NamesOf(desired)
    && (forall j :: 0 <= j < i ==> Lookup(skills, desired[j].name) == Standing(existing, before, desired[j]))
    && forall j :: i <= j < |desired| ==> Lookup(skills, desired[j].name) == Lookup(before, desired[j].name)
  }

  lemma MountedOneMore(
      before: map<Name, Mounted>, skills: map<Name, Mounted>, after: map<Name, Mounted>,
      existing: map<Name, Entry>, desired: seq<Wanted>, i: nat)
    requires i < |desired| && DistinctNames(desired) && MountedUpTo(before, skills, existing, desired, i)
    requires Lookup(after, desired[i].name) == Standing(existing, skills, desired[i])
    requires forall name :: name != desired[i].name ==> Lookup(after, name) == Lookup(skills, name)
    ensures MountedUpTo(before, after, existing, desired, i + 1)
  {
    assert desired[i].name in NamesOf(desired) by { assert desired[i] in desired; }
    forall name | name !in NamesOf(desired) ensures Lookup(after, name) == Lookup(skills, name) {
    }
    SameOutside(after, skills, NamesOf(desired));
  }

  lemma SameOutside(a: map<Name, Mounted>, b: map<Name, Mounted>, names: set<Name>)
    requires forall name :: name !in names ==> Lookup(a, name) == Lookup(b, name)
    ensures a - names == b - names
  {
    forall name ensures (name in a - names <==> name in b - names) && (name in a - names ==> a[name] == b[name]) {
      assert name !in names ==> Lookup(a, name) == Lookup(b, name);
    }
  }

  lemma RebuiltOneMore(existing: map<Name, Entry>, desired: seq<Wanted>, i: nat)
    requires i < |desired|
    ensures Rebuilt(existing, desired[..i + 1]) ==
      Rebuilt(existing, desired[..i]) + if Kept(existing, desired[i]) then {} else {desired[i].name}
  {
    var front := desired[..i];
    assert desired[..i + 1] == front + [desired[i]];
    forall name ensures name in Rebuilt(existing, front + [desired[i]]) <==>
        name in Rebuilt(existing, front) || (!Kept(existing, desired[i]) && name == desired[i].name)
    {
      if name in Rebuilt(existing, front) {
        var d :| d in front && !Kept(existing, d) && d.name == name;
        assert d in front + [desired[i]];
      }
      assert desired[i] in front + [desired[i]];
    }
  }

  /** The names of the first `i` entries, in order. */
  ghost predicate NamesListed(names: seq<Name>, desired: seq<Wanted>, i: nat)
    requires i <= |desired|
  {
    |names| == i && forall j :: 0 <= j < i ==> names[j] == desired[j].name
  }

  /** The records of the first `i` entries say already what they will. */
  ghost predicate UpToDate(existing: map<Name, Entry>, desired: seq<Wanted>, i: nat)
    requires i <= |desired|
  {
    forall j :: 0 <= j < i ==> !Outdated(existing, desired[j])
  }

  lemma StillOnlyRecorded(
      before: map<Name, Mounted>, skills: map<Name, Mounted>, mirrorsBefore: set<Name>, mirrors: set<Name>,
      existing: map<Name, Entry>, desired: seq<Wanted>, i: nat)
    requires i < |desired| && DistinctNames(desired) && MountedUpTo(before, skills, existing, desired, i)
    requires MirroredUpTo(mirrorsBefore, mirrors, existing, desired, i)
    requires forall d :: d in desired ==> OnlyRecorded(before, mirrorsBefore, existing, d.name)
    ensures OnlyRecorded(skills, mirrors, existing, desired[i].name)
  {
    assert desired[i] in desired;
    forall d | d in desired[..i] ensures d.name != desired[i].name {
      var j :| 0 <= j < i && desired[..i][j] == d;
      assert desired[j].name != desired[i].name;
    }
  }

  ghost predicate MirroredUpTo(
      before: set<Name>, mirrors: set<Name>, existing: map<Name, Entry>, desired: seq<Wanted>, i: nat)
    requires i <= |desired|
  {
    mirrors == before + Rebuilt(existing, desired[..i])
  }

  lemma MirroredOneMore(
      before: set<Name>, mirrors: set<Name>, existing: map<Name, Entry>, desired: seq<Wanted>, i: nat)
    requires i < |desired| && MirroredUpTo(before, mirrors, existing, desired, i)
    ensures MirroredUpTo(
      before, mirrors + if Kept(existing, desired[i]) then {} else {desired[i].name}, existing, desired, i + 1)
  {
    RebuiltOneMore(existing, desired, i);
  }

  lemma AllMounted(
      before: map<Name, Mounted>, skills: map<Name, Mounted>, existing: map<Name, Entry>, desired: seq<Wanted>)
    requires MountedUpTo(before, skills, existing, desired, |desired|)
    ensures forall d :: d in desired ==> Lookup(skills, d.name) == Standing(existing, before, d)
  {
    forall d | d in desired ensures Lookup(skills, d.name) == Standing(existing, before, d) {
      var j :| 0 <= j < |desired| && desired[j] == d;
    }
  }

  /** What is left after the unwanted entries are gone, seen from the wanted ones. */
  lemma OnlyWantedLeft(
      skills: map<Name, Mounted>, mirrors: set<Name>, existing: map<Name, Entry>,
      skillsLeft: map<Name, Mounted>, left: map<Name, Entry>, desired: seq<Wanted>)
    requires forall d :: d in desired ==> OnlyRecorded(skills, mirrors, existing, d.name)
    requires left == existing - (existing.Keys - NamesOf(desired))
    requires skillsLeft == skills - (existing.Keys - NamesOf(desired))
    ensures skillsLeft - NamesOf(desired) == skills - (existing.Keys + NamesOf(desired))
    ensures forall d :: d in desired ==>
      && Standing(left, skillsLeft, d) == Standing(existing, skills, d) && Kept(left, d) == Kept(existing, d)
      && OnlyRecorded(skillsLeft, mirrors - (existing.Keys - NamesOf(desired)), left, d.name)
    ensures Rebuilt(left, desired) == Rebuilt(existing, desired)
  {
    forall d | d in desired
      ensures d.name in NamesOf(desired) && Kept(left, d) == Kept(existing, d)
    {
      assert OnlyRecorded(skills, mirrors, existing, d.name);
    }
  }

  lemma SameRecordAfter(existing: map<Name, Entry>, left: map<Name, Entry>, desired: seq<Wanted>, d: Wanted)
    requires left == existing - (existing.Keys - NamesOf(desired)) && d in desired
    ensures RecordAfter(left, d) == RecordAfter(existing, d) && Outdated(left, d) == Outdated(existing, d)
  {
    assert d.name in NamesOf(desired);
  }

  lemma RecordsAreRecords(existing: map<Name, Entry>, left: map<Name, Entry>, desired: seq<Wanted>)
    requires left == existing - (existing.Keys - NamesOf(desired)) && DistinctNames(desired)
    ensures Records(ByName(RecordsAfter(left, desired)), existing, desired)
  {
    var records := ByName(RecordsAfter(left, desired));
    forall name ensures name in records <==> name in NamesOf(desired) {
      RecordsByName(left, desired, name);
    }
    forall d | d in desired ensures d.name in records && records[d.name] == RecordAfter(existing, d) {
      RecordsByName(left, desired, d.name);
      SameRecordAfter(existing, left, desired, d);
    }
  }

  lemma UnchangedRecords(existing: map<Name, Entry>, left: map<Name, Entry>, desired: seq<Wanted>)
    requires left == existing - (existing.Keys - NamesOf(desired)) && existing.Keys - NamesOf(desired) == {}
    requires UpToDate(left, desired, |desired|)
    ensures Records(existing, existing, desired)
  {
    forall name | name in existing ensures name in NamesOf(desired) {
      assert name !in existing.Keys - NamesOf(desired);
    }
    forall d | d in desired ensures d.name in existing && existing[d.name] == RecordAfter(existing, d) {
      var j :| 0 <= j < |desired| && desired[j] == d;
      SameRecordAfter(existing, left, desired, d);
    }
    forall name | name in NamesOf(desired) ensures name in existing {
      var d := NameIsWanted(desired, name);
    }
  }

  lemma MirrorsExactly(existing: map<Name, Entry>, mirrors: set<Name>, desired: seq<Wanted>)
    requires DistinctNames(desired)
    ensures NamesOf(desired) <= mirrors - (existing.Keys - NamesOf(desired)) + Rebuilt(existing, desired) <==>
      forall d :: d in desired && Kept(existing, d) ==> d.name in mirrors
  {
    var after := mirrors - (existing.Keys - NamesOf(desired)) + Rebuilt(existing, desired);
    if NamesOf(desired) <= after {
      forall d | d in desired && Kept(existing, d) ensures d.name in mirrors {
        KeptIsNotRebuilt(existing, desired, d);
        assert d.name in NamesOf(desired);
      }
    }
    if forall d :: d in desired && Kept(existing, d) ==> d.name in mirrors {
      forall name | name in NamesOf(desired) ensures name in after {
        var d := NameIsWanted(desired, name);
      }
    }
  }

  lemma KeptIsNotRebuilt(existing: map<Name, Entry>, desired: seq<Wanted>, d: Wanted)
    requires DistinctNames(desired) && d in desired && Kept(existing, d)
    ensures d.name !in Rebuilt(existing, desired)
  {
    forall e | e in desired && e.name == d.name ensures e == d {
      var i :| 0 <= i < |desired| && desired[i] == d;
      var j :| 0 <= j < |desired| && desired[j] == e;
    }
  }

  lemma HealthyEntry(a: Dir, d: Wanted)
    ensures
      && (Kept(a.records, d) ==> Whole(a, d))
      && (d.name in a.records && a.records[d.name].broken ==> Kept(a.records, d) && d.kind.Symlink?) <==>
      && Standing(a.records, a.skills, d) == Some(OnDisk(d))
      && (Kept(a.records, d) ==> d.name in a.mirrors)
      && !RecordAfter(a.records, d).broken
  {
  }

  /** The directory that reconciling leaves is the one asked for exactly when the old one was healthy. */
  lemma SettlesExactly(a: Dir, desired: seq<Wanted>, b: Dir)
    requires DistinctNames(desired) && Reconciles(a, desired, b)
    ensures Settled(b, desired) <==> Healthy(a, desired)
  {
    MirrorsExactly(a.records, a.mirrors, desired);
    forall d | d in desired
      ensures
        && (Kept(a.records, d) ==> Whole(a, d))
        && (d.name in a.records && a.records[d.name].broken ==> Kept(a.records, d) && d.kind.Symlink?) <==>
        && Lookup(b.skills, d.name) == Some(OnDisk(d))
        && (Kept(a.records, d) ==> d.name in a.mirrors)
        && b.records[d.name] == Entry(d.name, d.target, d.kind, false)
    {
      HealthyEntry(a, d);
    }
  }

  /** Nothing is written when the directory is already what the selection asks for. */
  lemma SettledStays(a: Dir, left: map<Name, Entry>, desired: seq<Wanted>, skills: map<Name, Mounted>)
    requires Settled(a, desired) && left == a.records - (a.records.Keys - NamesOf(desired))
    requires forall d :: d in desired ==> Lookup(skills, d.name) == Standing(a.records, a.skills, d)
    requires skills - NamesOf(desired) == a.skills - (a.records.Keys + NamesOf(desired))
    ensures skills == a.skills && UpToDate(left, desired, |desired|)
    ensures Rebuilt(a.records, desired) == {}
  {
    assert a.records.Keys - NamesOf(desired) == {} && a.records.Keys + NamesOf(desired) == NamesOf(desired);
    forall d | d in desired ensures Kept(a.records, d) && Lookup(skills, d.name) == Some(OnDisk(d)) {
    }
    ShowsIsUnique(a.skills, skills, desired);
  }

  // ---- Runs of selections ----

  /** Between two reconciliations recorded links may break or vanish; nothing else changes. */
  ghost predicate Frays(a: Dir, b: Dir) {
    && b == a.(skills := b.skills)
    && forall name ::
         || Lookup(b.skills, name) == Lookup(a.skills, name)
         || (name in a.records && a.records[name].kind.Symlink? && Unreachable(b.skills, name))
  }

  /** A settled directory, its links frayed, is healthy for every other selection. */
  lemma SettledIsHealthy(a: Dir, before: seq<Wanted>, b: Dir, desired: seq<Wanted>)
    requires Settled(a, before) && Frays(a, b)
    ensures Healthy(b, desired)
  {
    forall d | d in desired && d.name in b.records
      ensures !b.records[d.name].broken && (Kept(b.records, d) ==> Whole(b, d))
    {
      var w := NameIsWanted(before, d.name);
      assert Lookup(a.skills, w.name) == Some(OnDisk(w));
    }
  }

  /** Each selection is reconciled with the directory the one before left, frayed in between. */
  ghost predicate IsRun(dirs: seq<Dir>, desireds: seq<seq<Wanted>>) {
    && |dirs| == |desireds| + 1 && dirs[0] == EMPTY
    && forall i :: 0 <= i < |desireds| ==> DistinctNames(desireds[i]) && Follows(dirs[i], desireds[i], dirs[i + 1])
  }

  ghost predicate Follows(a: Dir, desired: seq<Wanted>, b: Dir) {
    exists frayed :: Frays(a, frayed) && Reconciles(frayed, desired, b)
  }

  ghost predicate AllRecorded(a: Dir) { a.skills.Keys <= a.records.Keys && a.mirrors <= a.records.Keys }

  lemma ReconcilingKeepsRecorded(a: Dir, desired: seq<Wanted>, b: Dir)
    requires AllRecorded(a) && Reconciles(a, desired, b)
    ensures AllRecorded(b)
  {
    assert (a.skills - (a.records.Keys + NamesOf(desired))).Keys == {};
    assert (b.skills - NamesOf(desired)).Keys == b.skills.Keys - NamesOf(desired);
    assert a.mirrors - (a.records.Keys - NamesOf(desired)) <= NamesOf(desired);
    assert Rebuilt(a.records, desired) <= NamesOf(desired);
    assert b.mirrors <= NamesOf(desired);
  }

  lemma FrayingKeepsRecorded(a: Dir, b: Dir)
    requires AllRecorded(a) && Frays(a, b)
    ensures AllRecorded(b)
  {
    forall name | name in b.skills ensures name in b.records {
      assert Lookup(b.skills, name) == Lookup(a.skills, name) || name in a.records;
    }
  }

  /** The first selection finds an empty directory, a later one what the selection before it left. */
  lemma NextSettles(a: Dir, before: seq<Wanted>, desired: seq<Wanted>, b: Dir)
    requires a == EMPTY || (Settled(a, before) && AllRecorded(a))
    requires DistinctNames(desired) && Follows(a, desired, b)
    ensures Settled(b, desired) && AllRecorded(b)
  {
    var frayed :| Frays(a, frayed) && Reconciles(frayed, desired, b);
    if a != EMPTY { SettledIsHealthy(a, before, frayed, desired); }
    SettlesExactly(frayed, desired, b);
    FrayingKeepsRecorded(a, frayed);
    ReconcilingKeepsRecorded(frayed, desired, b);
  }

  /**
    From an empty directory every sequence of selections ends with exactly what the last
    one asks for, and nothing unrecorded ever stands in the way.
   */
  lemma {:induction false} RunsSettle(dirs: seq<Dir>, desireds: seq<seq<Wanted>>, i: nat)
    requires IsRun(dirs, desireds) && i < |desireds|
    ensures Settled(dirs[i + 1], desireds[i]) && AllRecorded(dirs[i + 1])
  {
    if i > 0 { RunsSettle(dirs, desireds, i - 1); }
    var before := if i > 0 then desireds[i - 1] else [];
    NextSettles(dirs[i], before, desireds[i], dirs[i + 1]);
  }

  /** A flag left on a replaced entry passes to the entry that takes its name. */
  lemma StaleFlagIsCarriedOver(name: Name, gone: Path, target: Path)
    requires gone != target
    ensures var existing := map[name := Entry(name, gone, Symlink, true)];
      && RecordAfter(existing, Wanted(name, target, Symlink)) == Entry(name, target, Symlink, true)
      && !Healthy(Dir(true, existing, map[], {name}), [Wanted(name, target, Symlink)])
  {
    assert Wanted(name, target, Symlink) in [Wanted(name, target, Symlink)];
  }

  /** The mirror of a kept entry is not made again when it is gone. */
  lemma MissingMirrorStaysMissing(name: Name, target: Path)
    ensures var existing := map[name := Entry(name, target, Symlink, false)];
      && Rebuilt(existing, [Wanted(name, target, Symlink)]) == {}
      && !Healthy(Dir(true, existing, map[name := Link(target)], {}), [Wanted(name, target, Symlink)])
  {
    assert Wanted(name, target, Symlink) in [Wanted(name, target, Symlink)];
  }

  /** The loop that names the selected skills and chooses how each is mounted. */
  method BuildDesired(selected: seq<Path>, sources: Sources) returns (desired: seq<Wanted>)
    ensures desired == Desired(selected, sources)
  {
    desired := [];
    var used: set<Name> := {};
    for i := 0 to |selected|
      invariant desired == Desired(selected[..i], sources) && used == NamesOf(desired)
    {
      assert selected[..i + 1][..i] == selected[..i];
      var source := sources.resolve(selected[i]);
      if source.Some? {
        var slug := SlugSkillName(sources.baseName(source.value));
        var name := UniqueSkillSlug(slug, used);
        var kind := if sources.nameFits(source.value, name) then Symlink else Copy;
        NamesGrow(desired, Wanted(name, source.value, kind));
        desired := desired + [Wanted(name, source.value, kind)];
        used := used + {name};
      }
    }
    assert selected[..|selected|] == selected;
  }

  lemma RemovedOneMore<V>(m: map<Name, V>, gone: set<Name>, name: Name)
    ensures m - gone - {name} == m - (gone + {name})
  {
  }

  lemma LeftOneMore(names: set<Name>, gone: set<Name>, name: Name)
    ensures names - gone - {name} == names - (gone + {name})
  {
  }

  lemma GoneGrows(all: set<Name>, waiting: set<Name>, want: set<Name>, name: Name)
    requires name in waiting && waiting <= all
    ensures all - (waiting - {name}) - want == all - waiting - want + if name in want then {} else {name}
    ensures all - waiting - want + {} == all - waiting - want
  {
  }

  class RoleDir {
    var manifest: Option<seq<Entry>>
    var skills: map<Name, Mounted>
    var mirrors: set<Name>

    function Existing(): map<Name, Entry>
      reads this`manifest
    {
      if manifest.Some? then ByName(manifest.value) else map[]
    }

    ghost function Value(): Dir
      reads this
    {
      Dir(manifest.Some?, Existing(), skills, mirrors)
    }

    /** Nothing unrecorded stands under a name of the selection. */
    ghost predicate FreeFor(desired: seq<Wanted>)
      reads this
    {
      forall d :: d in desired ==> OnlyRecorded(skills, mirrors, Existing(), d.name)
    }

    constructor ()
      ensures Value() == EMPTY
    {
      manifest, skills, mirrors := None, map[], {};
    }

    method RemoveMountEntry(name: Name)
      modifies this`skills, this`mirrors
      ensures skills == old(skills) - {name} && mirrors == old(mirrors) - {name}
    {
      skills, mirrors := skills - {name}, mirrors - {name};
    }

    method RemoveUnwanted(existing: map<Name, Entry>, want: set<Name>)
      returns (left: map<Name, Entry>, changed: bool)
      modifies this`skills, this`mirrors
      ensures left == existing - (existing.Keys - want)
      ensures skills == old(skills) - (existing.Keys - want) && mirrors == old(mirrors) - (existing.Keys - want)
      ensures changed <==> existing.Keys - want != {}
    {
      left, changed := existing, false;
      var waiting := existing.Keys;
      ghost var gone: set<Name> := {};
      while waiting != {}
        invariant waiting <= existing.Keys
        invariant gone == existing.Keys - waiting - want
        invariant left == existing - gone && skills == old(skills) - gone && mirrors == old(mirrors) - gone
        invariant changed <==> gone != {}
        decreases |waiting|
      {
        var name :| name in waiting;
        GoneGrows(existing.Keys, waiting, want, name);
        waiting := waiting - {name};
        if name !in want {
          RemovedOneMore(existing, gone, name);
          RemovedOneMore(old(skills), gone, name);
          LeftOneMore(old(mirrors), gone, name);
          RemoveMountEntry(name);
          left := left - {name};
          changed := true;
          gone := gone + {name};
        }
      }
      assert existing.Keys - {} - want == existing.Keys - want;
    }

    method MountOne(existing: map<Name, Entry>, d: Wanted) returns (record: Entry, changed: bool)
      requires OnlyRecorded(skills, mirrors, existing, d.name)
      requires d.name in existing ==> existing[d.name].name == d.name
      modifies this`skills, this`mirrors
      ensures Lookup(skills, d.name) == Standing(existing, old(skills), d)
      ensures forall name :: name != d.name ==> Lookup(skills, name) == Lookup(old(skills), name)
      ensures mirrors == old(mirrors) + if Kept(existing, d) then {} else {d.name}
      ensures record == RecordAfter(existing, d) && (changed <==> Outdated(existing, d))
    {
      record := RecordAfter(existing, d);
      if Kept(existing, d) {
        changed := false;
        if d.kind.Symlink? {
          if d.name !in skills || skills[d.name].DanglingLink? {
            skills := skills - {d.name};
            skills := skills[d.name := Link(d.target)];
          }
          changed := existing[d.name].broken;
        }
        return;
      }
      if d.name in existing {
        skills, mirrors := skills - {d.name}, mirrors - {d.name};
      }
      skills := skills[d.name := OnDisk(d)];
      mirrors := mirrors + {d.name};
      changed := true;
    }

    /** Mounts what is wanted; only names of the selection are left to look at. */
    method MountAll(existing: map<Name, Entry>, desired: seq<Wanted>) returns (mounted: seq<Name>, changed: bool)
      requires DistinctNames(desired)
      requires forall d :: d in desired ==> OnlyRecorded(skills, mirrors, existing, d.name)
      requires forall name :: name in existing ==> existing[name].name == name
      modifies this`skills, this`mirrors
      ensures MountedUpTo(old(skills), skills, existing, desired, |desired|)
      ensures mirrors == old(mirrors) + Rebuilt(existing, desired)
      ensures NamesListed(mounted, desired, |desired|)
      ensures changed <==> !UpToDate(existing, desired, |desired|)
    {
      mounted, changed := [], false;
      for i := 0 to |desired|
        invariant NamesListed(mounted, desired, i)
        invariant MountedUpTo(old(skills), skills, existing, desired, i)
        invariant MirroredUpTo(old(mirrors), mirrors, existing, desired, i)
        invariant changed <==> !UpToDate(existing, desired, i)
      {
        ghost var before, mirrorsBefore := skills, mirrors;
        StillOnlyRecorded(old(skills), skills, old(mirrors), mirrors, existing, desired, i);
        var record, touched := MountOne(existing, desired[i]);
        MountedOneMore(old(skills), before, skills, existing, desired, i);
        MirroredOneMore(old(mirrors), mirrorsBefore, existing, desired, i);
        mounted := mounted + [desired[i].name];
        changed := changed || touched;
      }
      assert desired[..|desired|] == desired;
    }

    method LoadManifest() returns (existing: map<Name, Entry>)
      ensures existing == Existing()
    {
      existing := map[];
      if manifest.None? { return; }
      var entries := manifest.value;
      for i := 0 to |entries|
        invariant existing == ByName(entries[..i])
      {
        assert entries[..i + 1][..i] == entries[..i];
        existing := existing[entries[i].name := entries[i]];
      }
      assert entries[..|entries|] == entries;
    }

    /**
      After reconciling, new and replaced skills stand as selected and kept ones as they
      were, but for repaired links.  The result is the directory the selection asks for,
      whatever was mounted before, exactly when the old one was healthy; a settled
      directory is left as it is.
     */
    method Reconcile(selected: seq<Path>, sources: Sources) returns (mounted: seq<Name>)
      requires FreeFor(Desired(selected, sources))
      modifies this
      ensures FreeFor(Desired(selected, sources))
      ensures Reconciles(old(Value()), Desired(selected, sources), Value())
      ensures NamesListed(mounted, Desired(selected, sources), |Desired(selected, sources)|)
      ensures Settled(Value(), Desired(selected, sources)) <==> Healthy(old(Value()), Desired(selected, sources))
      ensures old(Settled(Value(), Desired(selected, sources))) ==>
        manifest == old(manifest) && skills == old(skills) && mirrors == old(mirrors)
    {
      DesiredNamesAreDistinct(selected, sources);
      var existing := LoadManifest();
      var desired := BuildDesired(selected, sources);
      var left, removed, changed;
      mounted, left, removed, changed := Align(existing, desired);
      WriteManifest(existing, left, desired, removed, changed);
      SettlesExactly(old(Value()), desired, Value());
      if old(Settled(Value(), desired)) { SettledStays(old(Value()), left, desired, skills); }
    }

    /** The disk half: unwanted entries go, wanted ones are mounted. */
    method Align(existing: map<Name, Entry>, desired: seq<Wanted>)
      returns (mounted: seq<Name>, left: map<Name, Entry>, removed: bool, changed: bool)
      requires DistinctNames(desired) && existing == Existing() && FreeFor(desired)
      modifies this`skills, this`mirrors
      ensures forall d :: d in desired ==> Lookup(skills, d.name) == Standing(existing, old(skills), d)
      ensures skills - NamesOf(desired) == old(skills) - (existing.Keys + NamesOf(desired))
      ensures mirrors == old(mirrors) - (existing.Keys - NamesOf(desired)) + Rebuilt(existing, desired)
      ensures NamesListed(mounted, desired, |desired|)
      ensures left == existing - (existing.Keys - NamesOf(desired))
      ensures removed <==> existing.Keys - NamesOf(desired) != {}
      ensures changed <==> !UpToDate(left, desired, |desired|)
    {
      left, removed := RemoveUnwanted(existing, NamesOf(desired));
      OnlyWantedLeft(old(skills), old(mirrors), existing, skills, left, desired);
      ghost var remaining := skills;
      mounted, changed := MountAll(left, desired);
      AllMounted(remaining, skills, left, desired);
    }

    /** The manifest is rewritten only when something changed. */
    method WriteManifest(
        existing: map<Name, Entry>, left: map<Name, Entry>, desired: seq<Wanted>, removed: bool, changed: bool)
      requires DistinctNames(desired) && existing == Existing()
      requires left == existing - (existing.Keys - NamesOf(desired))
      requires removed <==> existing.Keys - NamesOf(desired) != {}
      requires changed <==> !UpToDate(left, desired, |desired|)
      modifies this`manifest
      ensures manifest.Some? && Records(Existing(), existing, desired)
      ensures old(manifest).Some? && !removed && !changed ==> manifest == old(manifest)
    {
      if manifest.None? || removed || changed {
        manifest := Some(RecordsAfter(left, desired));
        RecordsAreRecords(existing, left, desired);
      } else {
        UnchangedRecords(existing, left, desired);
      }
    }
  }
}
