/**
 Deduplicating native notifications with a table of claims that expire. The table forgets, yet over
 every run its decisions are those of the full history.
 */
module NotificationClaims {
  import opened Text
  import opened Sorting

  const TTL: int := 5000

  type Claims = map<string, int>

  /** The payload fields the key is made of; `None` for a field that is not a string. */
  datatype Payload = Payload(
    tag: Option<string>,
    sessionId: Option<string>,
    kind: Option<string>,
    title: Option<string>,
    body: Option<string>)

  function Present(fields: seq<Option<string>>): seq<string> {
    if fields == [] then []
    else (if fields[0].Some? && Trim(fields[0].value) != "" then [Trim(fields[0].value)] else []) + Present(fields[1..])
  }

  function ClaimKey(payload: Payload): string {
    var tag := if payload.tag.Some? then Trim(payload.tag.value) else "";
    if tag != "" then tag
    else Join(Present([payload.sessionId, payload.kind, payload.title, payload.body]), "|")
  }

  // ---------------------------------------------------------------- the key

  /** The text of a field, or nothing if it is missing or blank. */
  function Shown(field: Option<string>): string {
    if field.Some? then Trim(field.value) else ""
  }

  /** A tag that is not blank is the key, whatever else the payload says. */
  lemma TagIsKey(payload: Payload)
    requires Shown(payload.tag) != ""
    ensures ClaimKey(payload) == Shown(payload.tag)
  {}

  /** Two texts with a bar between them, unless one is empty. */
  function WithBar(a: string, b: string): string {
    if a == "" then b else if b == "" then a else a + "|" + b
  }

  lemma PresentStep(field: Option<string>, rest: seq<Option<string>>)
    ensures Join(Present([field] + rest), "|") == WithBar(Shown(field), Join(Present(rest), "|"))
  {
    var fields := [field] + rest;
    assert fields[1..] == rest;
    var tail := Present(rest);
    if Shown(field) == "" {
      assert Present(fields) == tail;
    } else {
      assert Present(fields) == [Shown(field)] + tail && Present(fields)[1..] == tail;
      PresentNotEmpty(rest);
      if tail != [] { JoinNotEmpty(tail); }
    }
  }

  lemma {:induction false} PresentNotEmpty(fields: seq<Option<string>>)
    ensures "" !in Present(fields)
  {
    if fields != [] {
      PresentNotEmpty(fields[1..]);
    }
  }

  lemma JoinNotEmpty(parts: seq<string>)
    requires parts != [] && "" !in parts
    ensures Join(parts, "|") != ""
  {
    assert parts[0] in parts;
  }

  /** Without a tag, the key is session, kind, title and body, in that order, each trimmed and the blank ones left out. */
  lemma KeyOfFields(payload: Payload)
    requires Shown(payload.tag) == ""
    ensures ClaimKey(payload) ==
            WithBar(Shown(payload.sessionId), WithBar(Shown(payload.kind), WithBar(Shown(payload.title), Shown(payload.body))))
  {
    var s, k, t, b := payload.sessionId, payload.kind, payload.title, payload.body;
    assert [s, k, t, b] == [s] + [k, t, b] && [k, t, b] == [k] + [t, b] && [t, b] == [t] + [b] && [b] == [b] + [];
    PresentStep(s, [k, t, b]);
    PresentStep(k, [t, b]);
    PresentStep(t, [b]);
    PresentStep(b, []);
  }

  /** Only a payload with nothing in any of its fields has no key. */
  lemma NoKeyExactly(payload: Payload)
    ensures ClaimKey(payload) == "" <==>
            Shown(payload.tag) == Shown(payload.sessionId) == Shown(payload.kind) == Shown(payload.title) == Shown(payload.body) == ""
  {
    if Shown(payload.tag) == "" {
      KeyOfFields(payload);
    }
  }

  // ---------------------------------------------------------------- one call

  function Purged(claims: Claims, now: int): Claims {
    map key | key in claims && now - claims[key] <= TTL :: claims[key]
  }

  datatype Call = Call(key: string, now: int)

  /** Whether a table lets a call through; a missing claim counts as made at time zero. */
  predicate Lets(claims: Claims, call: Call) {
    var claimedAt := if call.key in claims then claims[call.key] else 0;
    call.now - claimedAt >= TTL
  }

  /** `purging` is what the program does; without it the table would keep every claim. */
  predicate Accepts(claims: Claims, call: Call, purging: bool) {
    call.key == "" || Lets(if purging then Purged(claims, call.now) else claims, call)
  }

  function Next(claims: Claims, call: Call, purging: bool): Claims {
    if call.key == "" then claims
    else
      var kept := if purging then Purged(claims, call.now) else claims;
      if Lets(kept, call) then kept[call.key := call.now] else kept
  }

  class ClaimTable {
    var claims: Claims

    constructor ()
      ensures claims == map[]
    {
      claims := map[];
    }

    method Claim(payload: Payload, now: int) returns (accepted: bool)
      modifies this
      ensures accepted == Accepts(old(claims), Call(ClaimKey(payload), now), true)
      ensures claims == Next(old(claims), Call(ClaimKey(payload), now), true)
    {
      var key := ClaimKey(payload);
      if key == "" { return true; }
      var todo := claims.Keys;
      while todo != {}
        invariant todo <= old(claims).Keys
        invariant claims == map k | k in old(claims) && (k in todo || now - old(claims)[k] <= TTL) :: old(claims)[k]
        decreases todo
      {
        var claimKey :| claimKey in todo;
        todo := todo - {claimKey};
        if now - claims[claimKey] > TTL {
          claims := claims - {claimKey};
        }
      }
      assert claims == Purged(old(claims), now);
      var claimedAt := if key in claims then claims[key] else 0;
      if now - claimedAt < TTL { return false; }
      claims := claims[key := now];
      return true;
    }
  }

  // ---------------------------------------------------------------- runs

  ghost function After(calls: seq<Call>, purging: bool): Claims {
    if calls == [] then map[]
    else
      var n := |calls| - 1;
      Next(After(calls[..n], purging), calls[n], purging)
  }

  /** The decision on the call at `i`. */
  ghost predicate AcceptedAt(calls: seq<Call>, i: nat, purging: bool)
    requires i < |calls|
  {
    Accepts(After(calls[..i], purging), calls[i], purging)
  }

  ghost predicate ClockRuns(calls: seq<Call>) {
    forall i, j :: 0 <= i <= j < |calls| ==> calls[i].now <= calls[j].now
  }

  /** The same key was accepted less than the time to live before the call at `i`. */
  ghost predicate Recent(calls: seq<Call>, i: nat, purging: bool)
    requires i < |calls|
  {
    exists j :: 0 <= j < i && AcceptedFor(calls, j, calls[i].key, purging) && calls[i].now - calls[j].now < TTL
  }

  /** When the key was last accepted. */
  ghost function LastAccepted(calls: seq<Call>, key: string, purging: bool): Option<int> {
    if calls == [] then None
    else
      var n := |calls| - 1;
      if calls[n].key == key && AcceptedAt(calls, n, purging) then Some(calls[n].now)
      else LastAccepted(calls[..n], key, purging)
  }

  ghost predicate AcceptedFor(calls: seq<Call>, j: nat, key: string, purging: bool)
    requires j < |calls|
  {
    calls[j].key == key && AcceptedAt(calls, j, purging)
  }

  /** Decisions do not depend on later calls. */
  lemma PrefixDecision(calls: seq<Call>, n: nat, j: nat, key: string, purging: bool)
    requires j < n <= |calls|
    ensures AcceptedFor(calls[..n], j, key, purging) == AcceptedFor(calls, j, key, purging)
  {
    assert calls[..n][..j] == calls[..j];
  }

  lemma {:induction false} LastAcceptedIsLast(calls: seq<Call>, key: string, purging: bool)
    requires ClockRuns(calls)
    ensures
      var last := LastAccepted(calls, key, purging);
      && (forall j :: 0 <= j < |calls| && AcceptedFor(calls, j, key, purging) ==> last.Some? && calls[j].now <= last.value)
      && (last.Some? ==> exists j :: 0 <= j < |calls| && AcceptedFor(calls, j, key, purging) && calls[j].now == last.value)
  {
    if calls != [] {
      var n := |calls| - 1;
      LastAcceptedIsLast(calls[..n], key, purging);
      forall j | 0 <= j < n ensures AcceptedFor(calls[..n], j, key, purging) == AcceptedFor(calls, j, key, purging) {
        PrefixDecision(calls, n, j, key, purging);
      }
      if !AcceptedFor(calls, n, key, purging) {
        assert LastAccepted(calls, key, purging) == LastAccepted(calls[..n], key, purging);
      }
    }
  }

  lemma RecentIsLast(calls: seq<Call>, i: nat, purging: bool)
    requires ClockRuns(calls) && i < |calls|
    ensures
      var last := LastAccepted(calls[..i], calls[i].key, purging);
      Recent(calls, i, purging) <==> last.Some? && calls[i].now - last.value < TTL
  {
    var front := calls[..i];
    LastAcceptedIsLast(front, calls[i].key, purging);
    forall j | 0 <= j < i ensures AcceptedFor(front, j, calls[i].key, purging) == AcceptedFor(calls, j, calls[i].key, purging) {
      PrefixDecision(calls, i, j, calls[i].key, purging);
    }
  }

  /** A stored claim is the last acceptance of its key; a forgotten one had expired by the last call. */
  ghost predicate Remembers(calls: seq<Call>, purging: bool) {
    forall key :: key != "" ==> RemembersKey(calls, key, purging)
  }

  ghost predicate RemembersKey(calls: seq<Call>, key: string, purging: bool) {
    var claims := After(calls, purging);
    var last := LastAccepted(calls, key, purging);
    && (key in claims ==> last == Some(claims[key]))
    && (last.Some? ==> last.value >= TTL)
    && (last.Some? && key !in claims ==> calls != [] && calls[|calls| - 1].now - last.value > TTL)
  }

  lemma {:induction false} AlwaysRemembers(calls: seq<Call>, purging: bool)
    requires ClockRuns(calls)
    ensures Remembers(calls, purging)
  {
    if calls != [] {
      var n := |calls| - 1;
      var front := calls[..n];
      AlwaysRemembers(front, purging);
      forall key | key != "" ensures RemembersKey(calls, key, purging) {
        RemembersStep(calls, key, purging);
      }
    }
  }

  lemma RemembersStep(calls: seq<Call>, key: string, purging: bool)
    requires calls != [] && ClockRuns(calls) && key != ""
    requires RemembersKey(calls[..|calls| - 1], key, purging)
    ensures RemembersKey(calls, key, purging)
  {
    var n := |calls| - 1;
    var front := calls[..n];
    assert front != [] ==> front[n - 1].now <= calls[n].now;
    assert calls[..n] == front;
  }

  lemma RejectedIff(calls: seq<Call>, i: nat, purging: bool)
    requires ClockRuns(calls) && i < |calls| && calls[i].key != ""
    ensures !AcceptedAt(calls, i, purging) <==> calls[i].now < TTL || Recent(calls, i, purging)
  {
    var front := calls[..i];
    AlwaysRemembers(front, purging);
    assert RemembersKey(front, calls[i].key, purging);
    RecentIsLast(calls, i, purging);
    assert front != [] ==> front[i - 1].now <= calls[i].now;
  }

  /**
   Over every run with a clock that does not go back, a keyed notification is rejected exactly when
   the same key was accepted less than 5000 ms earlier, or when the clock itself is below 5000 ms.
   */
  lemma DecisionsFollowHistory(calls: seq<Call>, i: nat)
    requires ClockRuns(calls) && i < |calls| && calls[i].key != ""
    ensures !AcceptedAt(calls, i, true) <==>
            || calls[i].now < 5000
            || exists j :: 0 <= j < i && AcceptedFor(calls, j, calls[i].key, true) && calls[i].now - calls[j].now < 5000
  {
    RejectedIff(calls, i, true);
  }

  predicate Keyed(call: Call) {
    call.key != ""
  }

  lemma AfterOne(front: seq<Call>, last: Call, purging: bool)
    ensures After(front + [last], purging) == Next(After(front, purging), last, purging)
  {
    assert (front + [last])[..|front|] == front;
  }

  lemma KeyedFront(front: seq<Call>, last: Call)
    ensures Filter(front + [last], Keyed) == Filter(front, Keyed) + (if Keyed(last) then [last] else [])
  {
    FilterConcat(front, [last], Keyed);
    if Keyed(last) { FilterAll([last], Keyed); } else { FilterNone([last], Keyed); }
  }

  /** A call without a key leaves the table as it is, so it is as if it had not been made, ... */
  lemma {:induction false} KeylessInvisible(calls: seq<Call>, purging: bool)
    ensures After(calls, purging) == After(Filter(calls, Keyed), purging)
  {
    if calls != [] {
      var n := |calls| - 1;
      var front, last := calls[..n], calls[n];
      assert calls == front + [last];
      KeylessInvisible(front, purging);
      AfterOne(front, last, purging);
      KeyedFront(front, last);
      var kept := Filter(front, Keyed);
      if Keyed(last) {
        AfterOne(kept, last, purging);
      } else {
        assert kept + [] == kept;
      }
    }
  }

  /** ... and it is always let through. */
  lemma KeylessAccepted(calls: seq<Call>, i: nat, purging: bool)
    requires i < |calls| && calls[i].key == ""
    ensures AcceptedAt(calls, i, purging)
  {}

  /** Purging expired claims never changes a decision. */
  lemma {:induction false} PurgingInvisible(calls: seq<Call>, i: nat)
    requires ClockRuns(calls) && i < |calls|
    ensures AcceptedAt(calls, i, true) == AcceptedAt(calls, i, false)
    decreases i
  {
    if calls[i].key != "" {
      RejectedIff(calls, i, true);
      RejectedIff(calls, i, false);
      forall j | 0 <= j < i ensures AcceptedAt(calls, j, true) == AcceptedAt(calls, j, false) {
        PurgingInvisible(calls, j);
      }
    }
  }

  /** After a keyed call no stored claim is older than the time to live. */
  lemma NoStaleClaim(calls: seq<Call>, key: string)
    requires calls != [] && calls[|calls| - 1].key != "" && key in After(calls, true)
    ensures calls[|calls| - 1].now - After(calls, true)[key] <= 5000
  {}
}
