/**
 Saving the list of SSH instances: the desktop host list and the default host are reconciled with it,
 starting from whatever the settings file holds.
 */
module SshHosts {
  import opened Text
  import opened Sorting
  import opened SshCommand

  const LOCAL_HOST_ID: string := "local"
  const PLACEHOLDER_URL: string := "http://127.0.0.1/"

  /** A stored value: a string, or anything else, of which only truthiness and `String(...)` matter. */
  datatype Raw = Str(s: string) | Other(truthy: bool, shown: string)

  predicate Truthy(v: Raw) {
    if v.Str? then v.s != "" else v.truthy
  }

  /** `String(v || '').trim()` */
  function TrimmedText(v: Raw): string {
    if !Truthy(v) then "" else Trim(if v.Str? then v.s else v.shown)
  }

  /** A stored host entry: an object with its fields, or something without fields. */
  datatype Entry = Junk(truthy: bool) | Row(id: Raw, name: Raw, url: Raw, rest: map<string, Raw>)

  function EntryId(e: Entry): string {
    if e.Junk? then "" else TrimmedText(e.id)
  }

  // ---------------------------------------------------------------- instances

  /** An instance as the caller supplies it, as far as the reconciliation looks at it. */
  datatype RawInstance = RawInstance(id: Raw, sshCommand: Raw, nickname: Raw)

  datatype Instance = Instance(id: string, nickname: Option<string>, sshCommand: string, parsed: Parsed)

  function StringTrim(v: Raw): string {
    if v.Str? then Trim(v.s) else ""
  }

  function Sanitize(raw: RawInstance): Result<Instance, string> {
    var id, command := StringTrim(raw.id), StringTrim(raw.sshCommand);
    if id == "" || id == LOCAL_HOST_ID then Err("SSH instance id is required")
    else if command == "" then Err("SSH command is required")
    else
      match ParseText(command)
      case Err(e) => Err(e)
      case Ok(parsed) =>
        var nickname := StringTrim(raw.nickname);
        Ok(Instance(id, if nickname == "" then None else Some(nickname), command, parsed))
  }

  function SanitizeAll(raws: seq<RawInstance>): Result<seq<Instance>, string> {
    if raws == [] then Ok([])
    else
      match Sanitize(raws[0])
      case Err(e) => Err(e)
      case Ok(first) =>
        match SanitizeAll(raws[1..])
        case Err(e) => Err(e)
        case Ok(rest) => Ok([first] + rest)
  }

  function Label(instance: Instance): string {
    if instance.nickname.Some? && Trim(instance.nickname.value) != "" then Trim(instance.nickname.value)
    else if instance.parsed.destination != "" then instance.parsed.destination
    else instance.id
  }

  predicate SavedInstance(instance: Instance) {
    instance.id != "" && instance.id != LOCAL_HOST_ID && Trimmed(instance.id)
  }

  lemma {:induction false} SanitizedInstances(raws: seq<RawInstance>)
    ensures SanitizeAll(raws).Ok? ==> forall i :: 0 <= i < |SanitizeAll(raws).value| ==> SavedInstance(SanitizeAll(raws).value[i])
  {
    if raws != [] {
      SanitizedInstances(raws[1..]);
      if raws[0].id.Str? {
        TrimIsTrimmed(raws[0].id.s);
      }
    }
  }

  // ---------------------------------------------------------------- the settings

  /** What was saved before: instances of this program, or entries of unknown shape. */
  datatype Stored = Saved(instance: Instance) | Foreign(entry: Entry)

  function StoredId(stored: Stored): string {
    match stored
    case Saved(instance) => Trim(instance.id)
    case Foreign(entry) => EntryId(entry)
  }

  function PreviousIds(stored: seq<Stored>): set<string> {
    set s | s in stored && StoredId(s) != "" && StoredId(s) != LOCAL_HOST_ID :: StoredId(s)
  }

  function NextIds(instances: seq<Instance>): set<string> {
    set instance | instance in instances :: instance.id
  }

  /** The instances that were saved before and are not any more. */
  function Dropped(stored: seq<Stored>, instances: seq<Instance>): set<string> {
    PreviousIds(stored) - NextIds(instances)
  }

  predicate Kept(e: Entry, dropped: set<string>) {
    EntryId(e) != "" && EntryId(e) != LOCAL_HOST_ID && EntryId(e) !in dropped
  }

  predicate IsTruthyEntry(e: Entry) {
    e.Row? || e.truthy
  }

  // ---------------------------------------------------------------- one instance

  /** The first row with exactly this id, or the length. */
  function FindRow(rows: seq<Entry>, id: string): (i: nat)
    ensures i <= |rows|
    ensures i < |rows| ==> rows[i].Row? && rows[i].id == Str(id)
    ensures forall j :: 0 <= j < i ==> !(rows[j].Row? && rows[j].id == Str(id))
  {
    if rows == [] || (rows[0].Row? && rows[0].id == Str(id)) then 0 else FindRow(rows[1..], id) + 1
  }

  function Touch(row: Entry, title: string): Entry
    requires row.Row?
  {
    row.(name := Str(title), url := if TrimmedText(row.url) == "" then Str(PLACEHOLDER_URL) else row.url)
  }

  function Upsert(rows: seq<Entry>, instance: Instance): seq<Entry> {
    var i := FindRow(rows, instance.id);
    if i < |rows| then rows[i := Touch(rows[i], Label(instance))]
    else rows + [Row(Str(instance.id), Str(Label(instance)), Str(PLACEHOLDER_URL), map[])]
  }

  function UpsertAll(rows: seq<Entry>, instances: seq<Instance>): seq<Entry> {
    if instances == [] then rows
    else
      var n := |instances| - 1;
      Upsert(UpsertAll(rows, instances[..n]), instances[n])
  }

  function KeptRows(hosts: seq<Entry>, dropped: set<string>): seq<Entry> {
    Filter(Filter(hosts, IsTruthyEntry), (e: Entry) => Kept(e, dropped))
  }

  function NextDefault(default: Raw, dropped: set<string>): Raw {
    if default.Str? && default.s in dropped then Str(LOCAL_HOST_ID) else default
  }

  function AllSaved(instances: seq<Instance>): seq<Stored> {
    seq(|instances|, i requires 0 <= i < |instances| => Saved(instances[i]))
  }

  class Settings {
    var sshInstances: seq<Stored>
    var hosts: seq<Entry>
    var defaultHost: Raw

    /** Nothing changes when an instance is refused. */
    method SetInstances(raws: seq<RawInstance>) returns (error: Option<string>)
      modifies this
      ensures error.Some? <==> SanitizeAll(raws).Err?
      ensures error.Some? ==> sshInstances == old(sshInstances) && hosts == old(hosts) && defaultHost == old(defaultHost)
      ensures error.None? ==>
                && var instances := SanitizeAll(raws).value;
                && var dropped := Dropped(old(sshInstances), instances);
                && sshInstances == AllSaved(instances)
                && hosts == UpsertAll(KeptRows(old(hosts), dropped), instances)
                && defaultHost == NextDefault(old(defaultHost), dropped)
    {
      var sanitized := SanitizeAll(raws);
      if sanitized.Err? { return Some(sanitized.error); }
      var instances := sanitized.value;
      var dropped := Dropped(sshInstances, instances);
      sshInstances := AllSaved(instances);
      var filtered := KeptRows(hosts, dropped);
      var rows := filtered;
      for i := 0 to |instances|
        invariant rows == UpsertAll(filtered, instances[..i])
      {
        assert instances[..i + 1][..i] == instances[..i];
        var title := Label(instances[i]);
        var existing := FindRow(rows, instances[i].id);
        if existing < |rows| {
          rows := rows[existing := Touch(rows[existing], title)];
        } else {
          rows := rows + [Row(Str(instances[i].id), Str(title), Str(PLACEHOLDER_URL), map[])];
        }
      }
      assert instances[..|instances|] == instances;
      hosts := rows;
      defaultHost := NextDefault(defaultHost, dropped);
      return None;
    }
  }

  // ---------------------------------------------------------------- what one instance changes

  /** The rows of no instance. */
  predicate Unmanaged(e: Entry, ids: set<string>) {
    e.Row? ==> !(e.id.Str? && e.id.s in ids)
  }

  lemma FindRowUnique(rows: seq<Entry>, id: string, i: nat)
    requires i < |rows| && rows[i].Row? && rows[i].id == Str(id)
    requires forall j :: 0 <= j < i ==> !(rows[j].Row? && rows[j].id == Str(id))
    ensures FindRow(rows, id) == i
  {}

  /** Ids stay where they are; at most one row is added, at the end. */
  lemma UpsertIds(rows: seq<Entry>, instance: Instance)
    ensures
      var r := Upsert(rows, instance);
      && |rows| <= |r| <= |rows| + 1
      && (|r| == |rows| <==> FindRow(rows, instance.id) < |rows|)
      && (forall i :: 0 <= i < |rows| && rows[i].Row? ==> r[i].Row? && r[i].id == rows[i].id)
      && (forall i :: 0 <= i < |rows| && rows[i].Junk? ==> r[i] == rows[i])
      && (|r| > |rows| ==> r[|rows|].Row? && r[|rows|].id == Str(instance.id))
  {}

  lemma UpsertFind(rows: seq<Entry>, instance: Instance, id: string)
    ensures
      var r := Upsert(rows, instance);
      FindRow(r, id) ==
      if id == instance.id || FindRow(rows, id) < |rows| then FindRow(rows, id) else |r|
  {
    var r := Upsert(rows, instance);
    UpsertIds(rows, instance);
    var i := FindRow(rows, id);
    if i < |r| && (id == instance.id || i < |rows|) {
      FindRowUnique(r, id, i);
    }
  }

  lemma {:induction false} FilterUpdate(rows: seq<Entry>, i: nat, e: Entry, keep: Entry -> bool)
    requires i < |rows| && !keep(rows[i]) && !keep(e)
    ensures Filter(rows[i := e], keep) == Filter(rows, keep)
  {
    if i > 0 {
      FilterUpdate(rows[1..], i - 1, e, keep);
      assert rows[i := e][1..] == rows[1..][i - 1 := e];
    } else {
      assert rows[i := e][1..] == rows[1..];
    }
  }

  lemma UpsertUnmanaged(rows: seq<Entry>, instance: Instance, ids: set<string>)
    requires instance.id in ids
    ensures Filter(Upsert(rows, instance), (e: Entry) => Unmanaged(e, ids)) == Filter(rows, (e: Entry) => Unmanaged(e, ids))
  {
    var keep := (e: Entry) => Unmanaged(e, ids);
    var i := FindRow(rows, instance.id);
    if i < |rows| {
      FilterUpdate(rows, i, Touch(rows[i], Label(instance)), keep);
    } else {
      var row := Row(Str(instance.id), Str(Label(instance)), Str(PLACEHOLDER_URL), map[]);
      FilterConcat(rows, [row], keep);
      FilterNone([row], keep);
    }
  }

  /** Rows that belong to no instance come through unchanged and in order. */
  lemma {:induction false} UpsertAllUnmanaged(rows: seq<Entry>, instances: seq<Instance>, ids: set<string>)
    requires NextIds(instances) <= ids
    ensures Filter(UpsertAll(rows, instances), (e: Entry) => Unmanaged(e, ids)) == Filter(rows, (e: Entry) => Unmanaged(e, ids))
  {
    if instances != [] {
      var n := |instances| - 1;
      assert NextIds(instances[..n]) <= NextIds(instances);
      UpsertAllUnmanaged(rows, instances[..n], ids);
      assert instances[n].id in NextIds(instances);
      UpsertUnmanaged(UpsertAll(rows, instances[..n]), instances[n], ids);
    }
  }

  // ---------------------------------------------------------------- which rows there are

  predicate IsRow(e: Entry) {
    e.Row?
  }

  function RowId(e: Entry): Raw {
    if e.Row? then e.id else Other(false, "undefined")
  }

  /** The rows, whatever stands between them, have pairwise different stored ids. */
  ghost predicate DistinctIds(rows: seq<Entry>) {
    DistinctBy(Filter(rows, IsRow), RowId)
  }

  lemma {:induction false} UpsertAllDistinct(rows: seq<Entry>, instances: seq<Instance>)
    requires (forall e :: e in rows ==> e.Row?) && DistinctBy(rows, RowId)
    ensures (forall e :: e in UpsertAll(rows, instances) ==> e.Row?) && DistinctBy(UpsertAll(rows, instances), RowId)
  {
    if instances != [] {
      var n := |instances| - 1;
      UpsertAllDistinct(rows, instances[..n]);
      UpsertDistinct(UpsertAll(rows, instances[..n]), instances[n]);
    }
  }

  lemma UpsertDistinct(rows: seq<Entry>, instance: Instance)
    requires (forall e :: e in rows ==> e.Row?) && DistinctBy(rows, RowId)
    ensures (forall e :: e in Upsert(rows, instance) ==> e.Row?) && DistinctBy(Upsert(rows, instance), RowId)
  {
    UpsertIds(rows, instance);
    forall i | 0 <= i < |rows| ensures rows[i].Row? { assert rows[i] in rows; }
  }

  /** Every row of the result is an earlier row, as far as its id goes, or the row of an instance. */
  lemma {:induction false} UpsertAllOrigin(rows: seq<Entry>, instances: seq<Instance>, e: Entry)
    requires e in UpsertAll(rows, instances)
    ensures
      || (exists prior :: prior in rows && EntryId(prior) == EntryId(e) && (prior.Row? <==> e.Row?))
      || (exists instance :: instance in instances && e.Row? && e.id == Str(instance.id))
  {
    if instances != [] {
      var n := |instances| - 1;
      var before := UpsertAll(rows, instances[..n]);
      UpsertIds(before, instances[n]);
      var i :| 0 <= i < |UpsertAll(rows, instances)| && UpsertAll(rows, instances)[i] == e;
      if i < |before| {
        UpsertAllOrigin(rows, instances[..n], before[i]);
      } else {
        assert instances[n] in instances;
      }
    }
  }

  // ---------------------------------------------------------------- after every save

  /** The host list after saving `instances` over what was stored. */
  function Reconciled(stored: seq<Stored>, hosts: seq<Entry>, instances: seq<Instance>): seq<Entry> {
    UpsertAll(KeptRows(hosts, Dropped(stored, instances)), instances)
  }

  predicate AllSavedInstances(instances: seq<Instance>) {
    forall i :: 0 <= i < |instances| ==> SavedInstance(instances[i])
  }

  /** The title of the last instance with this id. */
  function LastTitle(instances: seq<Instance>, id: string): string {
    if instances == [] then ""
    else if instances[|instances| - 1].id == id then Label(instances[|instances| - 1])
    else LastTitle(instances[..|instances| - 1], id)
  }

  predicate SettledRow(rows: seq<Entry>, instances: seq<Instance>, id: string) {
    var i := FindRow(rows, id);
    i < |rows| && rows[i].name == Str(LastTitle(instances, id)) && TrimmedText(rows[i].url) != ""
  }

  lemma PlaceholderShows()
    ensures TrimmedText(Str(PLACEHOLDER_URL)) == PLACEHOLDER_URL
  {
    TrimTrimmed(PLACEHOLDER_URL);
  }

  lemma UpsertSettles(rows: seq<Entry>, instance: Instance)
    ensures
      var r := Upsert(rows, instance);
      var i := FindRow(r, instance.id);
      i < |r| && r[i].name == Str(Label(instance)) && TrimmedText(r[i].url) != ""
  {
    PlaceholderShows();
    UpsertFind(rows, instance, instance.id);
    UpsertIds(rows, instance);
  }

  lemma UpsertKeepsOther(rows: seq<Entry>, instance: Instance, id: string)
    requires id != instance.id && FindRow(rows, id) < |rows|
    ensures
      var r := Upsert(rows, instance);
      FindRow(r, id) == FindRow(rows, id) < |r| && r[FindRow(r, id)] == rows[FindRow(rows, id)]
  {
    UpsertFind(rows, instance, id);
    UpsertIds(rows, instance);
  }

  /** Each saved instance has a row with its id, its title and a usable address. */
  lemma {:induction false} EveryInstanceHasRow(rows: seq<Entry>, instances: seq<Instance>, id: string)
    requires id in NextIds(instances)
    ensures SettledRow(UpsertAll(rows, instances), instances, id)
  {
    var n := |instances| - 1;
    var last, before := instances[n], UpsertAll(rows, instances[..n]);
    if id == last.id {
      UpsertSettles(before, last);
    } else {
      assert id in NextIds(instances[..n]) by {
        var instance :| instance in instances && instance.id == id;
        assert instances == instances[..n] + [last];
      }
      EveryInstanceHasRow(rows, instances[..n], id);
      UpsertKeepsOther(before, last, id);
    }
  }

  /** No row of a dropped instance is left, and no empty or local row. */
  lemma NoDroppedRow(stored: seq<Stored>, hosts: seq<Entry>, instances: seq<Instance>, e: Entry)
    requires AllSavedInstances(instances) && e in Reconciled(stored, hosts, instances)
    ensures e.Row? && Kept(e, Dropped(stored, instances))
  {
    var dropped := Dropped(stored, instances);
    UpsertAllOrigin(KeptRows(hosts, dropped), instances, e);
    if instance :| instance in instances && e.Row? && e.id == Str(instance.id) {
      assert SavedInstance(instance);
      TrimTrimmed(instance.id);
      assert instance.id in NextIds(instances);
    }
  }

  /** All other rows that are neither empty nor local survive unchanged and in order. */
  lemma OthersSurvive(stored: seq<Stored>, hosts: seq<Entry>, instances: seq<Instance>)
    ensures
      var ids, dropped := NextIds(instances), Dropped(stored, instances);
      Filter(Reconciled(stored, hosts, instances), (e: Entry) => Unmanaged(e, ids)) ==
      Filter(hosts, (e: Entry) => Kept(e, dropped) && Unmanaged(e, ids))
  {
    var ids, dropped := NextIds(instances), Dropped(stored, instances);
    UpsertAllUnmanaged(KeptRows(hosts, dropped), instances, ids);
    var kept := (e: Entry) => Kept(e, dropped);
    FilterTwice(hosts, IsTruthyEntry, kept, kept);
    FilterTwice(hosts, kept, (e: Entry) => Unmanaged(e, ids), (e: Entry) => Kept(e, dropped) && Unmanaged(e, ids));
  }

  lemma KeptDistinct(hosts: seq<Entry>, dropped: set<string>)
    requires DistinctIds(hosts)
    ensures DistinctBy(KeptRows(hosts, dropped), RowId)
  {
    var kept := (e: Entry) => Kept(e, dropped);
    FilterTwice(hosts, IsTruthyEntry, kept, kept);
    FilterTwice(hosts, IsRow, kept, kept);
    FilterDistinctBy(Filter(hosts, IsRow), RowId, kept);
  }

  /** Unique host ids stay unique. */
  lemma IdsStayUnique(stored: seq<Stored>, hosts: seq<Entry>, instances: seq<Instance>)
    requires DistinctIds(hosts)
    ensures DistinctIds(Reconciled(stored, hosts, instances))
  {
    var kept := KeptRows(hosts, Dropped(stored, instances));
    KeptDistinct(hosts, Dropped(stored, instances));
    UpsertAllDistinct(kept, instances);
    FilterAll(UpsertAll(kept, instances), IsRow);
  }

  // ---------------------------------------------------------------- ids as the filter reads them

  /** A kept row that the filter takes for an instance's, but whose stored id is not the instance's id. */
  ghost predicate Stray(e: Entry, instances: seq<Instance>) {
    e.Row? && EntryId(e) in NextIds(instances) && e.id != Str(EntryId(e))
  }

  /** Rows stay where they are with their ids; behind them stand rows with ids from `ids`. */
  ghost predicate InPlace(rows: seq<Entry>, ids: set<string>, r: seq<Entry>) {
    && |rows| <= |r|
    && (forall i :: 0 <= i < |rows| ==> r[i].Row? && rows[i].Row? && r[i].id == rows[i].id)
    && (forall i :: |rows| <= i < |r| ==> r[i].Row? && r[i].id.Str? && r[i].id.s in ids)
  }

  lemma UpsertInPlace(rows: seq<Entry>, ids: set<string>, r: seq<Entry>, last: Instance)
    requires InPlace(rows, ids, r)
    ensures InPlace(rows, ids + {last.id}, Upsert(r, last))
  {
    UpsertIds(r, last);
  }

  lemma {:induction false} UpsertAllPlaces(rows: seq<Entry>, instances: seq<Instance>)
    requires forall i :: 0 <= i < |rows| ==> rows[i].Row?
    ensures InPlace(rows, NextIds(instances), UpsertAll(rows, instances))
  {
    if instances != [] {
      var n := |instances| - 1;
      var front, last := instances[..n], instances[n];
      UpsertAllPlaces(rows, front);
      UpsertInPlace(rows, NextIds(front), UpsertAll(rows, front), last);
      assert instances == front + [last];
      NextIdsLast(instances, front, last);
    }
  }

  lemma SavedIdShows(instances: seq<Instance>, id: string)
    requires AllSavedInstances(instances) && id in NextIds(instances)
    ensures TrimmedText(Str(id)) == id
  {
    var instance :| instance in instances && instance.id == id;
    assert SavedInstance(instance);
    TrimTrimmed(id);
  }

  lemma DistinctEntriesAfter(rows: seq<Entry>, instances: seq<Instance>)
    requires AllSavedInstances(instances) && forall i :: 0 <= i < |rows| ==> rows[i].Row? && !Stray(rows[i], instances)
    requires DistinctBy(rows, EntryId)
    ensures DistinctBy(UpsertAll(rows, instances), EntryId)
  {
    var r := UpsertAll(rows, instances);
    UpsertAllPlaces(rows, instances);
    assert DistinctBy(rows, RowId) by {
      assert forall i, j :: 0 <= i < j < |rows| ==> EntryId(rows[i]) != EntryId(rows[j]);
    }
    UpsertAllDistinct(rows, instances);
    forall i, j | 0 <= i < j < |r| ensures EntryId(r[i]) != EntryId(r[j]) {
      assert RowId(r[i]) != RowId(r[j]);
      if j < |rows| {
        assert EntryId(rows[i]) != EntryId(rows[j]);
      } else {
        SavedIdShows(instances, r[j].id.s);
        if i < |rows| {
          assert !Stray(rows[i], instances);
        } else {
          SavedIdShows(instances, r[i].id.s);
        }
      }
    }
  }

  lemma StrayDoubles(rows: seq<Entry>, instances: seq<Instance>, i: nat)
    requires AllSavedInstances(instances) && forall j :: 0 <= j < |rows| ==> rows[j].Row?
    requires i < |rows| && Stray(rows[i], instances)
    ensures !DistinctBy(UpsertAll(rows, instances), EntryId)
  {
    var r, id := UpsertAll(rows, instances), EntryId(rows[i]);
    UpsertAllPlaces(rows, instances);
    EveryInstanceHasRow(rows, instances, id);
    SavedIdShows(instances, id);
    var k := FindRow(r, id);
    assert k != i && EntryId(r[k]) == id && EntryId(r[i]) == id;
    assert EntryId(r[if i < k then i else k]) == EntryId(r[if i < k then k else i]);
  }

  /**
   Ids as the filter reads them, trimmed: the saved rows have distinct ones if and only if the kept rows
   do and none of those has an instance's id only after trimming. Kept rows of distinct hosts are distinct.
   */
  lemma TrimmedIdsUniqueExactly(stored: seq<Stored>, hosts: seq<Entry>, instances: seq<Instance>)
    requires AllSavedInstances(instances)
    ensures
      var kept := KeptRows(hosts, Dropped(stored, instances));
      DistinctBy(Reconciled(stored, hosts, instances), EntryId) <==>
      DistinctBy(kept, EntryId) && forall i :: 0 <= i < |kept| ==> !Stray(kept[i], instances)
    ensures DistinctBy(hosts, EntryId) ==> DistinctBy(KeptRows(hosts, Dropped(stored, instances)), EntryId)
  {
    if DistinctBy(hosts, EntryId) {
      FilterDistinctBy(hosts, EntryId, IsTruthyEntry);
      FilterDistinctBy(Filter(hosts, IsTruthyEntry), EntryId, (e: Entry) => Kept(e, Dropped(stored, instances)));
    }
    var kept := KeptRows(hosts, Dropped(stored, instances));
    var r := Reconciled(stored, hosts, instances);
    forall i | 0 <= i < |kept| ensures kept[i].Row? { assert kept[i] in kept; }
    UpsertAllPlaces(kept, instances);
    if i :| 0 <= i < |kept| && Stray(kept[i], instances) {
      StrayDoubles(kept, instances, i);
    } else if DistinctBy(kept, EntryId) {
      DistinctEntriesAfter(kept, instances);
    } else {
      var i, j :| 0 <= i < j < |kept| && EntryId(kept[i]) == EntryId(kept[j]);
      assert EntryId(r[i]) == EntryId(r[j]);
    }
  }

  /** A stored id with a leading space: the row of instance `a` is added beside it, and both read as `a`. */
  lemma StrayExample(instance: Instance)
    requires instance.id == "a"
    ensures
      var hosts := [Row(Str(" a"), Str("A"), Str("http://a/"), map[])];
      var r := Reconciled([], hosts, [instance]);
      |r| == 2 && EntryId(r[0]) == EntryId(r[1]) == "a" && DistinctBy(hosts, EntryId)
  {
    var row := Row(Str(" a"), Str("A"), Str("http://a/"), map[]);
    TrimPadded(" a", "a");
    var kept := KeptRows([row], {});
    FilterAll([row], IsTruthyEntry);
    FilterAll([row], (e: Entry) => Kept(e, {}));
    assert kept == [row];
    assert Dropped([], [instance]) == {};
    assert [instance][..0] == [];
    assert UpsertAll(kept, [instance]) == Upsert(kept, instance);
  }

  /** The default never names a dropped instance. */
  lemma DefaultNotDropped(stored: seq<Stored>, instances: seq<Instance>, default: Raw)
    ensures
      var dropped := Dropped(stored, instances);
      var r := NextDefault(default, dropped);
      (r.Str? ==> r.s !in dropped) && (r == default || r == Str(LOCAL_HOST_ID))
  {
    assert LOCAL_HOST_ID !in PreviousIds(stored);
  }

  /**
   The default is read trimmed, though. Read so, it names a dropped instance if and only if it did
   before the call and only after trimming, so that the comparison of the raw text missed it.
   */
  lemma TrimmedDefaultExactly(stored: seq<Stored>, instances: seq<Instance>, default: Raw)
    ensures
      var dropped := Dropped(stored, instances);
      var r := NextDefault(default, dropped);
      r.Str? && Trim(r.s) in dropped <==> default.Str? && default.s !in dropped && Trim(default.s) in dropped
  {
    LocalNotDropped(LOCAL_HOST_ID, stored, instances);
  }

  lemma LocalNotDropped(id: string, stored: seq<Stored>, instances: seq<Instance>)
    requires id == LOCAL_HOST_ID
    ensures Trim(id) !in Dropped(stored, instances)
  {
    TrimTrimmed(id);
  }

  lemma TrimPadded(padded: string, id: string)
    requires id == "a" && padded == " a"
    ensures Trim(padded) == id && Trim(id) == id && padded != id
  {
    assert padded[1..] == id;
    assert TrimStart(padded) == TrimStart(id) == id;
  }

  /** A default with a leading space: instance `a` is dropped, and the default still reads as `a`. */
  lemma PaddedDefault(instance: Instance)
    requires instance.id == "a"
    ensures
      var dropped := Dropped([Saved(instance)], []);
      var r := NextDefault(Str(" a"), dropped);
      dropped == {"a"} && r == Str(" a") && Trim(r.s) in dropped
  {
    TrimPadded(" a", "a");
    assert Saved(instance) in [Saved(instance)];
    assert PreviousIds([Saved(instance)]) == {"a"};
  }

  // ---------------------------------------------------------------- saving again

  /** The row at `i` with the title a pass over `instances` gives it. */
  ghost function RetitledAt(rows: seq<Entry>, instances: seq<Instance>, i: nat): Entry
    requires i < |rows|
  {
    var e := rows[i];
    if e.Row? && e.id.Str? && e.id.s in NextIds(instances) && FindRow(rows, e.id.s) == i
    then e.(name := Str(LastTitle(instances, e.id.s)))
    else e
  }

  ghost predicate OnlyRetitled(rows: seq<Entry>, instances: seq<Instance>, r: seq<Entry>) {
    |r| == |rows| && forall i :: 0 <= i < |rows| ==> r[i] == RetitledAt(rows, instances, i)
  }

  lemma SameIdsSameFind(rows: seq<Entry>, r: seq<Entry>, id: string)
    requires |r| == |rows| && forall i :: 0 <= i < |rows| ==> (r[i].Row? <==> rows[i].Row?) && (rows[i].Row? ==> r[i].id == rows[i].id)
    ensures FindRow(r, id) == FindRow(rows, id)
  {
    if FindRow(rows, id) < |rows| {
      FindRowUnique(r, id, FindRow(rows, id));
    }
  }

  /** The row an instance finds gets its title; its address is usable already. */
  lemma RetitledRow(rows: seq<Entry>, front: seq<Instance>, instances: seq<Instance>, k: nat, e: Entry)
    requires |instances| > 0 && front == instances[..|instances| - 1]
    requires k < |rows| && rows[k].Row? && TrimmedText(rows[k].url) != ""
    requires
      var last := instances[|instances| - 1];
      rows[k].id == Str(last.id) && FindRow(rows, last.id) == k && last.id in NextIds(instances)
    requires e == RetitledAt(rows, front, k)
    ensures e.Row? && Touch(e, Label(instances[|instances| - 1])) == RetitledAt(rows, instances, k)
  {
  }

  /** The other rows keep theirs. */
  lemma OtherRow(rows: seq<Entry>, front: seq<Instance>, instances: seq<Instance>, k: nat, i: nat)
    requires |instances| > 0 && front == instances[..|instances| - 1]
    requires i < |rows| && FindRow(rows, instances[|instances| - 1].id) == k && i != k
    requires NextIds(instances) == NextIds(front) + {instances[|instances| - 1].id}
    ensures RetitledAt(rows, front, i) == RetitledAt(rows, instances, i)
  {
  }

  lemma NextIdsLast(instances: seq<Instance>, front: seq<Instance>, last: Instance)
    requires instances == front + [last]
    ensures NextIds(instances) == NextIds(front) + {last.id}
  {
    forall id | id in NextIds(front) + {last.id} ensures id in NextIds(instances) {
      if id == last.id {
        assert last in instances;
      } else {
        var instance :| instance in front && instance.id == id;
        assert instance in instances;
      }
    }
  }

  lemma RetitledFind(rows: seq<Entry>, instances: seq<Instance>, r: seq<Entry>, id: string)
    requires OnlyRetitled(rows, instances, r)
    ensures FindRow(r, id) == FindRow(rows, id)
  {
    SameIdsSameFind(rows, r, id);
  }

  lemma UpsertAt(r: seq<Entry>, last: Instance, k: nat)
    requires FindRow(r, last.id) == k < |r|
    ensures r[k].Row? && Upsert(r, last) == r[k := Touch(r[k], Label(last))]
  {}

  lemma OtherRows(rows: seq<Entry>, front: seq<Instance>, instances: seq<Instance>, last: Instance, k: nat)
    requires instances == front + [last] && FindRow(rows, last.id) == k
    ensures forall i :: 0 <= i < |rows| && i != k ==> RetitledAt(rows, front, i) == RetitledAt(rows, instances, i)
  {
    NextIdsLast(instances, front, last);
    forall i | 0 <= i < |rows| && i != k ensures RetitledAt(rows, front, i) == RetitledAt(rows, instances, i) {
      OtherRow(rows, front, instances, k, i);
    }
  }

  lemma RetitleStep(rows: seq<Entry>, front: seq<Instance>, instances: seq<Instance>, last: Instance, r: seq<Entry>, k: nat)
    requires instances == front + [last] && OnlyRetitled(rows, front, r)
    requires k == FindRow(rows, last.id) < |rows| && TrimmedText(rows[k].url) != ""
    ensures OnlyRetitled(rows, instances, Upsert(r, last))
  {
    RetitledFind(rows, front, r, last.id);
    UpsertAt(r, last, k);
    OtherRows(rows, front, instances, last, k);
    TouchedRow(rows, front, instances, last, k);
    Replaced(rows, front, instances, r, k, Touch(r[k], Label(last)));
  }

  lemma TouchedRow(rows: seq<Entry>, front: seq<Instance>, instances: seq<Instance>, last: Instance, k: nat)
    requires instances == front + [last]
    requires k == FindRow(rows, last.id) < |rows| && TrimmedText(rows[k].url) != ""
    ensures
      var e := RetitledAt(rows, front, k);
      e.Row? && Touch(e, Label(last)) == RetitledAt(rows, instances, k)
  {
    NextIdsLast(instances, front, last);
    RetitledRow(rows, front, instances, k, RetitledAt(rows, front, k));
  }

  lemma Replaced(rows: seq<Entry>, front: seq<Instance>, instances: seq<Instance>, r: seq<Entry>, k: nat, e: Entry)
    requires OnlyRetitled(rows, front, r) && k < |rows| && e == RetitledAt(rows, instances, k)
    requires forall i :: 0 <= i < |rows| && i != k ==> RetitledAt(rows, front, i) == RetitledAt(rows, instances, i)
    ensures OnlyRetitled(rows, instances, r[k := e])
  {}

  lemma {:induction false} SecondPass(rows: seq<Entry>, instances: seq<Instance>)
    requires forall id :: id in NextIds(instances) ==> FindRow(rows, id) < |rows| && TrimmedText(rows[FindRow(rows, id)].url) != ""
    ensures OnlyRetitled(rows, instances, UpsertAll(rows, instances))
  {
    if instances != [] {
      var n := |instances| - 1;
      assert forall id :: id in NextIds(instances[..n]) ==> id in NextIds(instances);
      SecondPass(rows, instances[..n]);
      assert instances[n].id in NextIds(instances);
      assert instances == instances[..n] + [instances[n]];
      RetitleStep(rows, instances[..n], instances, instances[n], UpsertAll(rows, instances[..n]), FindRow(rows, instances[n].id));
    }
  }

  lemma UpsertAllTwice(rows: seq<Entry>, instances: seq<Instance>)
    ensures UpsertAll(UpsertAll(rows, instances), instances) == UpsertAll(rows, instances)
  {
    var r := UpsertAll(rows, instances);
    forall id | id in NextIds(instances) ensures SettledRow(r, instances, id) {
      EveryInstanceHasRow(rows, instances, id);
    }
    SecondPass(r, instances);
    forall i | 0 <= i < |r| ensures RetitledAt(r, instances, i) == r[i] {
      if r[i].Row? && r[i].id.Str? && r[i].id.s in NextIds(instances) {
        assert SettledRow(r, instances, r[i].id.s);
      }
    }
  }

  lemma NothingDroppedAgain(instances: seq<Instance>)
    requires AllSavedInstances(instances)
    ensures Dropped(AllSaved(instances), instances) == {}
  {
    forall id | id in PreviousIds(AllSaved(instances)) ensures id in NextIds(instances) {
      var s :| s in AllSaved(instances) && StoredId(s) == id;
      assert SavedInstance(s.instance);
      TrimTrimmed(s.instance.id);
    }
  }

  /** Saving the same instances again changes neither the host list nor the default, from any earlier settings. */
  lemma RepeatChangesNothing(stored: seq<Stored>, hosts: seq<Entry>, instances: seq<Instance>, default: Raw)
    requires AllSavedInstances(instances)
    ensures
      var rows := Reconciled(stored, hosts, instances);
      && Reconciled(AllSaved(instances), rows, instances) == rows
      && NextDefault(NextDefault(default, Dropped(stored, instances)), Dropped(AllSaved(instances), instances))
         == NextDefault(default, Dropped(stored, instances))
  {
    var rows := Reconciled(stored, hosts, instances);
    NothingDroppedAgain(instances);
    forall e | e in rows ensures IsTruthyEntry(e) && Kept(e, {}) {
      NoDroppedRow(stored, hosts, instances, e);
    }
    FilterAll(rows, IsTruthyEntry);
    FilterAll(rows, (e: Entry) => Kept(e, {}));
    assert KeptRows(rows, {}) == rows;
    UpsertAllTwice(KeptRows(hosts, Dropped(stored, instances)), instances);
  }
}
