/**
 Saving SSH instances, in terms of what the caller supplies and what the settings held: which instances are
 accepted, which host rows stay, and what every row of the result is.
 */
module SshRows {
  import opened Text
  import opened Sorting
  import opened ShellWords
  import opened SshCommand
  import opened SshHosts

  // ---------------------------------------------------------------- reading instances

  /** A stored value shown as text: a string, or anything truthy as it prints; nothing otherwise. */
  lemma TextCases(s: string, shown: string)
    ensures TrimmedText(Str(s)) == Trim(s)
    ensures TrimmedText(Other(true, shown)) == Trim(shown) && TrimmedText(Other(false, shown)) == ""
  {
    TrimTrimmed("");
  }

  /** An instance is accepted, and as which, exactly as its fields read. */
  lemma SanitizeExactly(raw: RawInstance, instance: Instance)
    ensures Sanitize(raw) == Ok(instance) <==>
            && raw.id.Str? && instance.id == Trim(raw.id.s) && instance.id != "" && instance.id != "local"
            && raw.sshCommand.Str? && instance.sshCommand == Trim(raw.sshCommand.s) && instance.sshCommand != ""
            && ParseText(instance.sshCommand) == Ok(instance.parsed)
            && instance.nickname == (if raw.nickname.Str? && Trim(raw.nickname.s) != "" then Some(Trim(raw.nickname.s)) else None)
  {}

  /** A refused instance is refused for its id first, then for its command. */
  lemma SanitizeErrors(raw: RawInstance)
    ensures
      var id := if raw.id.Str? then Trim(raw.id.s) else "";
      var command := if raw.sshCommand.Str? then Trim(raw.sshCommand.s) else "";
      && (id == "" || id == "local" ==> Sanitize(raw) == Err("SSH instance id is required"))
      && (id != "" && id != "local" && command == "" ==> Sanitize(raw) == Err("SSH command is required"))
      && (id != "" && id != "local" && command != "" && ParseText(command).Err? ==> Sanitize(raw) == Err(ParseText(command).error))
  {}

  /** A list is accepted as the list of its instances, in order, or refused for the first that is refused. */
  lemma {:induction false} SanitizeAllExactly(raws: seq<RawInstance>)
    ensures
      match SanitizeAll(raws)
      case Ok(instances) => |instances| == |raws| && forall i :: 0 <= i < |raws| ==> Sanitize(raws[i]) == Ok(instances[i])
      case Err(e) => exists n :: 0 <= n < |raws| && Sanitize(raws[n]) == Err(e) && forall i :: 0 <= i < n ==> Sanitize(raws[i]).Ok?
  {
    if raws != [] {
      SanitizeAllExactly(raws[1..]);
      if Sanitize(raws[0]).Ok? {
        match SanitizeAll(raws[1..])
        case Ok(rest) =>
          forall i | 0 <= i < |raws| ensures Sanitize(raws[i]) == Ok(SanitizeAll(raws).value[i]) {
            assert i > 0 ==> raws[i] == raws[1..][i - 1];
          }
        case Err(e) =>
          var n :| 0 <= n < |raws[1..]| && Sanitize(raws[1..][n]) == Err(e) && forall i :: 0 <= i < n ==> Sanitize(raws[1..][i]).Ok?;
          forall i | 0 <= i < n + 1 ensures Sanitize(raws[i]).Ok? {
            assert i > 0 ==> raws[i] == raws[1..][i - 1];
          }
          assert raws[n + 1] == raws[1..][n];
      } else {
        assert Sanitize(raws[0]) == Err(SanitizeAll(raws).error);
      }
    }
  }

  /** The title of a row is the nickname, or else the destination of the command. */
  lemma LabelExactly(raw: RawInstance, instance: Instance)
    requires Sanitize(raw) == Ok(instance)
    ensures instance.parsed.destination != ""
    ensures Label(instance) ==
            if raw.nickname.Str? && !Blank(raw.nickname.s) then Trim(raw.nickname.s) else instance.parsed.destination
  {
    var tokens := Words(instance.sshCommand);
    assert tokens.Ok? && ParseTokens(tokens.value) == Ok(instance.parsed);
    HyphenExactly(tokens.value, instance.parsed);
    var rest := AfterProgram(tokens.value);
    var items, destination := ParsedDerives(rest);
    TrimBlank(destination);
    if raw.nickname.Str? {
      TrimBlank(raw.nickname.s);
      TrimIsTrimmed(raw.nickname.s);
      TrimTrimmed(Trim(raw.nickname.s));
    }
  }

  // ---------------------------------------------------------------- which rows stay

  /** A row that stays: its id, trimmed, is neither empty nor the local host's, and if it was an instance's, it still is. */
  ghost predicate Stays(e: Entry, stored: seq<Stored>, instances: seq<Instance>) {
    && e.Row? && TrimmedText(e.id) != "" && TrimmedText(e.id) != "local"
    && ((exists s :: s in stored && StoredId(s) == TrimmedText(e.id)) ==> exists instance :: instance in instances && instance.id == TrimmedText(e.id))
  }

  lemma KeptStays(e: Entry, stored: seq<Stored>, instances: seq<Instance>)
    ensures SshHosts.Kept(e, Dropped(stored, instances)) <==> Stays(e, stored, instances)
  {}

  /** Exactly those rows are kept, in order. */
  lemma RowsKept(stored: seq<Stored>, hosts: seq<Entry>, instances: seq<Instance>, kept: seq<Entry>)
    requires kept == KeptRows(hosts, Dropped(stored, instances))
    ensures forall e :: e in kept <==> e in hosts && Stays(e, stored, instances)
    ensures kept == Filter(hosts, (e: Entry) => SshHosts.Kept(e, Dropped(stored, instances)))
  {
    var dropped := Dropped(stored, instances);
    var keep := (e: Entry) => SshHosts.Kept(e, dropped);
    FilterTwice(hosts, IsTruthyEntry, keep, keep);
    forall e ensures SshHosts.Kept(e, dropped) <==> Stays(e, stored, instances) {
      KeptStays(e, stored, instances);
    }
  }

  // ---------------------------------------------------------------- what every row becomes

  const PLACE: string := "http://127.0.0.1/"

  /** The first row with the id of an instance gets its last title and, if it has none, an address; nothing else changes. */
  ghost function RowAfter(rows: seq<Entry>, instances: seq<Instance>, i: nat): Entry
    requires i < |rows|
  {
    var e := rows[i];
    if e.Row? && e.id.Str? && e.id.s in NextIds(instances) && FindRow(rows, e.id.s) == i then
      Row(e.id, Str(LastTitle(instances, e.id.s)), if TrimmedText(e.url) == "" then Str(PLACE) else e.url, e.rest)
    else e
  }

  /** The row of an instance that had none. */
  ghost function NewRow(instances: seq<Instance>, id: string): Entry {
    Row(Str(id), Str(LastTitle(instances, id)), Str(PLACE), map[])
  }

  /** The ids of instances without a row, in the order in which they come first. */
  ghost function NewIds(rows: seq<Entry>, instances: seq<Instance>): seq<string> {
    if instances == [] then []
    else
      var n := |instances| - 1;
      var before, id := NewIds(rows, instances[..n]), instances[n].id;
      if FindRow(rows, id) < |rows| || id in before then before else before + [id]
  }

  ghost predicate Described(rows: seq<Entry>, instances: seq<Instance>, r: seq<Entry>) {
    var ids := NewIds(rows, instances);
    && |r| == |rows| + |ids|
    && (forall i :: 0 <= i < |rows| ==> r[i] == RowAfter(rows, instances, i))
    && (forall j :: 0 <= j < |ids| ==> r[|rows| + j] == NewRow(instances, ids[j]))
  }

  lemma {:induction false} NewIdsShape(rows: seq<Entry>, instances: seq<Instance>)
    ensures Distinct(NewIds(rows, instances))
    ensures forall id :: id in NewIds(rows, instances) <==> id in NextIds(instances) && FindRow(rows, id) == |rows|
  {
    if instances != [] {
      var n := |instances| - 1;
      var front, last := instances[..n], instances[n];
      NewIdsShape(rows, front);
      assert instances == front + [last];
      NextIdsLast(instances, front, last);
    }
  }

  lemma TitleLast(front: seq<Instance>, instances: seq<Instance>, last: Instance, id: string)
    requires instances == front + [last]
    ensures LastTitle(instances, id) == if id == last.id then Label(last) else LastTitle(front, id)
  {
    assert instances[..|instances| - 1] == front;
  }

  lemma OtherAfter(rows: seq<Entry>, front: seq<Instance>, instances: seq<Instance>, last: Instance, i: nat)
    requires instances == front + [last] && i < |rows| && FindRow(rows, last.id) != i
    ensures RowAfter(rows, instances, i) == RowAfter(rows, front, i)
  {
    NextIdsLast(instances, front, last);
    if rows[i].Row? && rows[i].id.Str? {
      TitleLast(front, instances, last, rows[i].id.s);
    }
  }

  lemma TouchedAfter(rows: seq<Entry>, front: seq<Instance>, instances: seq<Instance>, last: Instance, k: nat)
    requires instances == front + [last] && k == FindRow(rows, last.id) < |rows|
    ensures RowAfter(rows, front, k).Row? && Touch(RowAfter(rows, front, k), Label(last)) == RowAfter(rows, instances, k)
  {
    NextIdsLast(instances, front, last);
    TitleLast(front, instances, last, last.id);
    PlaceholderShows();
    assert last.id in NextIds(instances);
  }

  lemma FindInPlace(rows: seq<Entry>, front: seq<Instance>, r: seq<Entry>, id: string)
    requires Described(rows, front, r)
    ensures
      var ids := NewIds(rows, front);
      && (FindRow(rows, id) < |rows| ==> FindRow(r, id) == FindRow(rows, id))
      && (forall j :: 0 <= j < |ids| && ids[j] == id ==> FindRow(r, id) == |rows| + j)
      && (FindRow(rows, id) == |rows| && id !in ids ==> FindRow(r, id) == |r|)
  {
    var ids := NewIds(rows, front);
    NewIdsShape(rows, front);
    SameIdsInFront(rows, front, r);
    if FindRow(rows, id) < |rows| {
      FindRowUnique(r, id, FindRow(rows, id));
    }
    forall j | 0 <= j < |ids| && ids[j] == id ensures FindRow(r, id) == |rows| + j {
      assert id in ids;
      BehindUnique(rows, front, r, j);
    }
    if FindRow(rows, id) == |rows| && id !in ids {
      NotThere(rows, front, r, id);
    }
  }

  lemma NotThere(rows: seq<Entry>, front: seq<Instance>, r: seq<Entry>, id: string)
    requires Described(rows, front, r) && FindRow(rows, id) == |rows| && id !in NewIds(rows, front)
    ensures FindRow(r, id) == |r|
  {
    var ids, n := NewIds(rows, front), FindRow(r, id);
    SameIdsInFront(rows, front, r);
    assert |rows| <= n < |r| ==> r[|rows| + (n - |rows|)] == NewRow(front, ids[n - |rows|]);
  }

  lemma SameIdsInFront(rows: seq<Entry>, front: seq<Instance>, r: seq<Entry>)
    requires Described(rows, front, r)
    ensures forall i :: 0 <= i < |rows| ==> (r[i].Row? <==> rows[i].Row?) && (rows[i].Row? ==> r[i].id == rows[i].id)
  {
    forall i | 0 <= i < |rows| ensures (r[i].Row? <==> rows[i].Row?) && (rows[i].Row? ==> r[i].id == rows[i].id) {
      assert r[i] == RowAfter(rows, front, i);
    }
  }

  lemma BehindUnique(rows: seq<Entry>, front: seq<Instance>, r: seq<Entry>, j: nat)
    requires Described(rows, front, r) && j < |NewIds(rows, front)|
    ensures FindRow(r, NewIds(rows, front)[j]) == |rows| + j
  {
    var ids := NewIds(rows, front);
    var id := ids[j];
    NewIdsShape(rows, front);
    SameIdsInFront(rows, front, r);
    assert id in ids && FindRow(rows, id) == |rows|;
    assert r[|rows| + j] == NewRow(front, id);
    forall i | 0 <= i < |rows| + j ensures !(r[i].Row? && r[i].id == Str(id)) {
      if i >= |rows| {
        assert r[|rows| + (i - |rows|)] == NewRow(front, ids[i - |rows|]);
        assert ids[i - |rows|] != ids[j];
      }
    }
    FindRowUnique(r, id, |rows| + j);
  }

  lemma FrontStep(rows: seq<Entry>, front: seq<Instance>, instances: seq<Instance>, last: Instance, r: seq<Entry>)
    requires instances == front + [last] && Described(rows, front, r) && FindRow(rows, last.id) < |rows|
    ensures Described(rows, instances, Upsert(r, last))
  {
    var k := FindRow(rows, last.id);
    FindInPlace(rows, front, r, last.id);
    UpsertAt(r, last, k);
    TouchedAfter(rows, front, instances, last, k);
    assert instances[..|instances| - 1] == front;
    NewIdsShape(rows, front);
    var after := Upsert(r, last);
    forall i | 0 <= i < |rows| ensures after[i] == RowAfter(rows, instances, i) {
      if i != k { OtherAfter(rows, front, instances, last, i); }
    }
    var ids := NewIds(rows, front);
    forall j | 0 <= j < |ids| ensures after[|rows| + j] == NewRow(instances, ids[j]) {
      assert ids[j] in ids;
      TitleLast(front, instances, last, ids[j]);
    }
  }

  lemma RowsUntouched(rows: seq<Entry>, front: seq<Instance>, instances: seq<Instance>, last: Instance)
    requires instances == front + [last] && FindRow(rows, last.id) == |rows|
    ensures forall i :: 0 <= i < |rows| ==> RowAfter(rows, instances, i) == RowAfter(rows, front, i)
  {
    forall i | 0 <= i < |rows| ensures RowAfter(rows, instances, i) == RowAfter(rows, front, i) {
      OtherAfter(rows, front, instances, last, i);
    }
  }

  lemma OtherNewRow(front: seq<Instance>, instances: seq<Instance>, last: Instance, id: string)
    requires instances == front + [last] && id != last.id
    ensures NewRow(instances, id) == NewRow(front, id)
  {
    TitleLast(front, instances, last, id);
  }

  /** An instance whose row was added for an earlier one retitles that row; ... */
  lemma BehindAgain(rows: seq<Entry>, front: seq<Instance>, instances: seq<Instance>, last: Instance, r: seq<Entry>, j: nat)
    requires instances == front + [last] && Described(rows, front, r) && FindRow(rows, last.id) == |rows|
    requires j < |NewIds(rows, front)| && NewIds(rows, front)[j] == last.id
    ensures Described(rows, instances, Upsert(r, last))
  {
    var ids, k := NewIds(rows, front), |rows| + j;
    FindInPlace(rows, front, r, last.id);
    UpsertAt(r, last, k);
    RowsUntouched(rows, front, instances, last);
    NewIdsShape(rows, front);
    assert instances[..|instances| - 1] == front && last.id in ids;
    assert NewIds(rows, instances) == ids;
    TouchedNew(front, instances, last);
    OtherNewRows(front, instances, last, ids, j);
    PutBehind(rows, front, instances, r, ids, j, NewRow(instances, last.id));
  }

  lemma OtherNewRows(front: seq<Instance>, instances: seq<Instance>, last: Instance, ids: seq<string>, j: nat)
    requires instances == front + [last] && Distinct(ids) && j < |ids| && ids[j] == last.id
    ensures forall i :: 0 <= i < |ids| && i != j ==> NewRow(instances, ids[i]) == NewRow(front, ids[i])
  {
    forall i | 0 <= i < |ids| && i != j ensures NewRow(instances, ids[i]) == NewRow(front, ids[i]) {
      assert ids[i] != ids[j];
      OtherNewRow(front, instances, last, ids[i]);
    }
  }

  lemma PutBehind(rows: seq<Entry>, front: seq<Instance>, instances: seq<Instance>, r: seq<Entry>, ids: seq<string>, j: nat, e: Entry)
    requires Described(rows, front, r) && ids == NewIds(rows, front) == NewIds(rows, instances) && j < |ids|
    requires forall i :: 0 <= i < |rows| ==> RowAfter(rows, instances, i) == RowAfter(rows, front, i)
    requires forall i :: 0 <= i < |ids| && i != j ==> NewRow(instances, ids[i]) == NewRow(front, ids[i])
    requires e == NewRow(instances, ids[j])
    ensures Described(rows, instances, r[|rows| + j := e])
  {}

  lemma TouchedNew(front: seq<Instance>, instances: seq<Instance>, last: Instance)
    requires instances == front + [last]
    ensures Touch(NewRow(front, last.id), Label(last)) == NewRow(instances, last.id)
  {
    PlaceholderShows();
    TitleLast(front, instances, last, last.id);
  }

  /** ... any other gets a row of its own at the end. */
  lemma BehindNew(rows: seq<Entry>, front: seq<Instance>, instances: seq<Instance>, last: Instance, r: seq<Entry>)
    requires instances == front + [last] && Described(rows, front, r) && FindRow(rows, last.id) == |rows|
    requires last.id !in NewIds(rows, front)
    ensures Described(rows, instances, Upsert(r, last))
  {
    var ids := NewIds(rows, front);
    FindInPlace(rows, front, r, last.id);
    RowsUntouched(rows, front, instances, last);
    assert instances[..|instances| - 1] == front;
    assert NewIds(rows, instances) == ids + [last.id];
    TitleLast(front, instances, last, last.id);
    assert Upsert(r, last) == r + [NewRow(instances, last.id)];
    forall i | 0 <= i < |ids| ensures r[|rows| + i] == NewRow(instances, ids[i]) {
      assert ids[i] in ids;
      OtherNewRow(front, instances, last, ids[i]);
    }
  }

  /**
   What the rows become, one by one: every row stays in its place, the first with an instance's id gets the last title
   for that id and an address if it had none, and instances without a row get one, in order.
   */
  lemma {:induction false} RowsDescribed(rows: seq<Entry>, instances: seq<Instance>)
    ensures Described(rows, instances, UpsertAll(rows, instances))
  {
    if instances != [] {
      var n := |instances| - 1;
      var front, last := instances[..n], instances[n];
      assert instances == front + [last];
      RowsDescribed(rows, front);
      if FindRow(rows, last.id) < |rows| {
        FrontStep(rows, front, instances, last, UpsertAll(rows, front));
      } else {
        var ids := NewIds(rows, front);
        if j :| 0 <= j < |ids| && ids[j] == last.id {
          BehindAgain(rows, front, instances, last, UpsertAll(rows, front), j);
        } else {
          BehindNew(rows, front, instances, last, UpsertAll(rows, front));
        }
      }
    }
  }
}
