/** Normalising the port forwards of an SSH instance. */
module SshForwards {
  import opened Text
  import opened Sorting
  import opened SshHosts

  const LOOPBACK: string := "127.0.0.1"

  datatype Kind = Local | Remote | Dynamic

  /** A forward as supplied; a port is `None` when it is not a finite number. */
  datatype RawForward = RawForward(
    id: Raw,
    enabledIsFalse: bool,
    kind: Raw,
    localHost: Raw,
    localPort: Option<real>,
    remoteHost: Raw,
    remotePort: Option<real>)

  datatype Forward = Forward(
    id: string,
    enabled: bool,
    kind: Kind,
    localHost: Option<string>,
    localPort: Option<real>,
    remoteHost: Option<string>,
    remotePort: Option<real>)

  predicate IsBindHost(host: string) {
    host == LOOPBACK || host == "localhost" || host == "0.0.0.0"
  }

  function BindHost(raw: Raw): string {
    var host := StringTrim(raw);
    if IsBindHost(host) then host else LOOPBACK
  }

  function KindOf(raw: Raw): Kind {
    if raw == Str("remote") then Remote else if raw == Str("dynamic") then Dynamic else Local
  }

  predicate UsablePort(port: Option<real>) {
    port.Some? && port.value != 0.0
  }

  function HostOr(host: Option<string>, default: string): string {
    if host.Some? && host.value != "" then host.value else default
  }

  function SanitizeForward(raw: RawForward): Option<Forward> {
    var id := StringTrim(raw.id);
    var kind := KindOf(raw.kind);
    var localHost := if Truthy(raw.localHost) then Some(BindHost(raw.localHost)) else None;
    var remoteHost := if Truthy(raw.remoteHost) then Some(HostOr(Some(TrimmedText(raw.remoteHost)), LOOPBACK)) else None;
    if id == "" then None
    else if kind == Dynamic then
      if !UsablePort(raw.localPort) then None
      else Some(Forward(id, !raw.enabledIsFalse, kind, localHost, raw.localPort, remoteHost, raw.remotePort))
    else if !UsablePort(raw.localPort) || !UsablePort(raw.remotePort) then None
    else
      Some(Forward(id, !raw.enabledIsFalse, kind, Some(HostOr(localHost, LOOPBACK)), raw.localPort,
                   Some(HostOr(remoteHost, LOOPBACK)), raw.remotePort))
  }

  function IdOf(f: Forward): string {
    f.id
  }

  /** The usable forwards, in order. */
  function UsableForwards(raws: seq<RawForward>): seq<Forward> {
    if raws == [] then []
    else
      var f := SanitizeForward(raws[0]);
      (if f.Some? then [f.value] else []) + UsableForwards(raws[1..])
  }

  method SanitizeForwards(raws: seq<RawForward>) returns (kept: seq<Forward>)
    ensures kept == KeepFirst(UsableForwards(raws), IdOf, {})
  {
    var usable: seq<Forward> := [];
    assert raws[0..] == raws;
    for i := 0 to |raws|
      invariant usable + UsableForwards(raws[i..]) == UsableForwards(raws)
    {
      assert raws[i..][1..] == raws[i + 1..];
      var f := SanitizeForward(raws[i]);
      if f.Some? {
        usable := usable + [f.value];
      }
    }
    assert raws[|raws|..] == [] && usable + [] == usable;
    kept := KeepFirsts(usable, IdOf);
  }

  // ---------------------------------------------------------------- normal forms are fixed points

  function StoredHost(host: Option<string>): Raw {
    if host.Some? then Str(host.value) else Other(false, "undefined")
  }

  function KindName(kind: Kind): string {
    match kind
    case Local => "local"
    case Remote => "remote"
    case Dynamic => "dynamic"
  }

  /** A forward as it is read back from the settings. */
  function StoredForward(f: Forward): RawForward {
    RawForward(Str(f.id), !f.enabled, Str(KindName(f.kind)), StoredHost(f.localHost), f.localPort, StoredHost(f.remoteHost), f.remotePort)
  }

  predicate NormalHost(host: Option<string>) {
    host.Some? ==> host.value != "" && Trimmed(host.value)
  }

  predicate NormalForward(f: Forward) {
    && f.id != "" && Trimmed(f.id)
    && UsablePort(f.localPort)
    && NormalHost(f.localHost) && NormalHost(f.remoteHost)
    && (f.localHost.Some? ==> IsBindHost(f.localHost.value))
    && (f.kind != Dynamic ==> f.localHost.Some? && f.remoteHost.Some? && UsablePort(f.remotePort))
  }

  lemma BindHostNormal(host: string)
    requires IsBindHost(host)
    ensures host != "" && Trimmed(host) && BindHost(Str(host)) == host
  {
    TrimTrimmed(host);
  }

  lemma KindReadsBack(kind: Kind)
    ensures KindOf(Str(KindName(kind))) == kind
  {
    assert "local"[0] == 'l' && "remote"[0] == 'r' && "dynamic"[0] == 'd';
  }

  lemma RemoteHostNormal(raw: Raw)
    ensures NormalHost(Some(HostOr(Some(TrimmedText(raw)), LOOPBACK)))
  {
    TrimIsTrimmed(if raw.Str? then raw.s else raw.shown);
  }

  lemma SanitizedIsNormal(raw: RawForward)
    ensures SanitizeForward(raw).Some? ==> NormalForward(SanitizeForward(raw).value)
  {
    if raw.id.Str? {
      TrimIsTrimmed(raw.id.s);
    }
    BindHostNormal(BindHost(raw.localHost));
    BindHostNormal(LOOPBACK);
    RemoteHostNormal(raw.remoteHost);
  }

  /** Saving a sanitized forward and sanitizing it again changes nothing. */
  lemma SanitizeForwardAgain(raw: RawForward)
    requires SanitizeForward(raw).Some?
    ensures SanitizeForward(StoredForward(SanitizeForward(raw).value)) == SanitizeForward(raw)
  {
    SanitizedIsNormal(raw);
    var f := SanitizeForward(raw).value;
    KindReadsBack(f.kind);
    TrimTrimmed(f.id);
    if f.remoteHost.Some? {
      TrimTrimmed(f.remoteHost.value);
    }
    if f.localHost.Some? {
      BindHostNormal(f.localHost.value);
    }
  }

  /** Which forwards are accepted: an id, a kind that is local unless named otherwise, and the ports the kind needs. */
  ghost predicate Accepted(raw: RawForward) {
    && raw.id.Str? && !Blank(raw.id.s)
    && raw.localPort.Some? && raw.localPort.value != 0.0
    && (raw.kind != Str("dynamic") ==> raw.remotePort.Some? && raw.remotePort.value != 0.0)
  }

  /** The host to bind to: one of three names, or the loopback address. */
  function BindName(raw: Raw): string {
    if raw.Str? && (Trim(raw.s) == "localhost" || Trim(raw.s) == "0.0.0.0") then Trim(raw.s) else "127.0.0.1"
  }

  /** A forward is accepted exactly then, and what becomes of each of its fields. */
  lemma ForwardExactly(raw: RawForward)
    ensures SanitizeForward(raw).Some? <==> Accepted(raw)
    ensures
      Accepted(raw) ==>
        && var f := SanitizeForward(raw).value;
        && f.id == Trim(raw.id.s) && (f.enabled <==> !raw.enabledIsFalse)
        && f.kind == (if raw.kind == Str("remote") then Remote else if raw.kind == Str("dynamic") then Dynamic else Local)
        && f.localPort == raw.localPort && f.remotePort == raw.remotePort
        && f.localHost == (if Truthy(raw.localHost) then Some(BindName(raw.localHost)) else if f.kind == Dynamic then None else Some("127.0.0.1"))
        && f.remoteHost == (if TrimmedText(raw.remoteHost) != "" then Some(TrimmedText(raw.remoteHost))
                            else if f.kind == Dynamic && !Truthy(raw.remoteHost) then None else Some("127.0.0.1"))
  {
    if raw.id.Str? {
      TrimBlank(raw.id.s);
    }
    BindHosts(raw.localHost);
    assert "remote" != "dynamic" by { assert |"remote"| == 6 && |"dynamic"| == 7; }
  }

  lemma BindHosts(raw: Raw)
    ensures BindHost(raw) == BindName(raw) && BindHost(raw) != ""
  {}

  lemma {:induction false} UsableMembers(raws: seq<RawForward>, f: Forward)
    ensures f in UsableForwards(raws) <==> exists raw :: raw in raws && SanitizeForward(raw) == Some(f)
  {
    if raws != [] {
      UsableMembers(raws[1..], f);
      assert raws == [raws[0]] + raws[1..];
    }
  }

  /** Exactly the first usable forward of each id is kept, so ids are distinct, and what is kept is in normal form. */
  lemma KeptForwards(raws: seq<RawForward>, f: Forward)
    ensures
      var kept := KeepFirst(UsableForwards(raws), IdOf, {});
      && DistinctBy(kept, IdOf)
      && (f in kept <==> IsFirst(UsableForwards(raws), IdOf, f))
      && (f in kept ==> NormalForward(f) && exists raw :: raw in raws && SanitizeForward(raw) == Some(f))
      && (f in UsableForwards(raws) ==> exists g :: g in kept && g.id == f.id)
  {
    var usable := UsableForwards(raws);
    KeepFirstShape(usable, IdOf, {});
    UsableMembers(raws, f);
    if raw :| raw in raws && SanitizeForward(raw) == Some(f) {
      SanitizedIsNormal(raw);
    }
    if f in usable {
      var i :| 0 <= i < |usable| && usable[i] == f;
      var g := FirstWithKey(usable, IdOf, i);
      assert g.id == f.id;
    }
  }
}
