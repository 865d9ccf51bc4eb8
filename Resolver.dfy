/** get_latency: which latency, if any, a host applies to traffic towards an address. */
module Resolver {
  import opened Results
  import opened Documents
  import opened InventoryModel
  import opened LatencyPolicy

  /** (latency, mark, remote host): what get_latency returns when a rule applies. */
  type Shaping = (string, int, Option<string>)

  /** The rule that wins: inter-role over intra-role (same role only) over the default. */
  function Applicable(inter: Option<string>, sameRole: bool, intra: Option<string>, default: Option<string>): Option<string> {
    if inter.Some? then inter
    else if sameRole && intra.Some? then intra
    else default
  }

  /** get_latency(host, ip). */
  function Latency(doc: InventoryDoc, p: LatencyDoc, host: string, ip: string): Result<Option<Shaping>>
    requires WellFormed(doc) && HostHasVars(doc, host)
  {
    if ip in HostIps(doc, host) then Ok(None)
    else
      var allHosts :- Hosts(doc);
      var hostRole :- HostRole(doc, Some(host));
      var remoteHost :- IpHost(doc, ip);
      var remoteRole :- HostRole(doc, remoteHost);
      Choose(p, hostRole, remoteHost, remoteRole)
  }

  /** The policy half of get_latency, once both roles and the remote host are known. */
  function Choose(p: LatencyDoc, hostRole: Option<string>, remoteHost: Option<string>, remoteRole: Option<string>): Result<Option<Shaping>> {
    var latency := p.default;
    var intra := IntraRoleLatency(p, hostRole);
    var latency' := if hostRole == remoteRole && intra.Some? then intra else latency;
    var inter :- InterRoleLatency(p, hostRole, remoteRole);
    var latency'' := if inter.Some? then inter else latency';
    if latency''.None? then Ok(None)
    else
      var mark :- Mark(p, latency''.value);
      Ok(Some((latency''.value, mark, remoteHost)))
  }

  /** A host never shapes traffic to one of its own addresses. */
  lemma {:induction false} NoSelfShaping(doc: InventoryDoc, p: LatencyDoc, host: string, ip: string)
    requires WellFormed(doc) && HostHasVars(doc, host) && ip in HostIps(doc, host)
    ensures Latency(doc, p, host, ip).Ok? && Latency(doc, p, host, ip).value.None?
  {
  }

  /** The value a lookup of the policy returns is one the policy declares. */
  lemma {:induction false} LookupsRegistered(p: LatencyDoc, a: Option<string>, b: Option<string>)
    ensures IntraRoleLatency(p, a).Some? ==> Registered(p, IntraRoleLatency(p, a).value)
    ensures InterRoleLatency(p, a, b).Ok? && InterRoleLatency(p, a, b).value.Some? ==>
      Registered(p, InterRoleLatency(p, a, b).value.value)
    ensures p.default.Some? ==> Registered(p, p.default.value)
  {
    ConnectionCount(p.inter, PairKey(a, b), PairKey(b, a));
    var conn := Connection(p.inter, PairKey(a, b), PairKey(b, a));
    if |conn| == 1 {
      assert conn[0] in conn;
    }
  }

  /** Precedence, on the policy half: the winning rule with its mark and the
      remote host, none when no rule applies, and only an ambiguous inter-role
      declaration as an error. */
  lemma {:induction false} ChoosePrecedence(p: LatencyDoc, r1: Option<string>, rh: Option<string>, r2: Option<string>)
    ensures InterRoleLatency(p, r1, r2).Err? ==> Choose(p, r1, rh, r2) == Err(InterRoleLatency(p, r1, r2).error)
    ensures InterRoleLatency(p, r1, r2).Ok? ==>
      && Choose(p, r1, rh, r2).Ok?
      && var chosen := Applicable(InterRoleLatency(p, r1, r2).value, r1 == r2, IntraRoleLatency(p, r1), p.default);
         match Choose(p, r1, rh, r2).value
         case None => chosen.None?
         case Some(t) => chosen == Some(t.0) && Mark(p, t.0) == Ok(t.1) && t.2 == rh
  {
    LookupsRegistered(p, r1, r2);
  }

  /** Precedence: once the roles and the remote host are known, the result is the
      winning rule with its mark and the remote host, or none when no rule applies. */
  lemma {:induction false} Precedence(doc: InventoryDoc, p: LatencyDoc, host: string, ip: string,
                   r1: Option<string>, rh: Option<string>, r2: Option<string>, inter: Option<string>)
    requires WellFormed(doc) && HostHasVars(doc, host) && ip !in HostIps(doc, host)
    requires Hosts(doc).Ok?
    requires HostRole(doc, Some(host)) == Ok(r1)
    requires IpHost(doc, ip) == Ok(rh)
    requires HostRole(doc, rh) == Ok(r2)
    requires InterRoleLatency(p, r1, r2) == Ok(inter)
    ensures Latency(doc, p, host, ip).Ok?
    ensures
      var chosen := Applicable(inter, r1 == r2, IntraRoleLatency(p, r1), p.default);
      match Latency(doc, p, host, ip).value
      case None => chosen.None?
      case Some(t) => chosen == Some(t.0) && Mark(p, t.0) == Ok(t.1) && t.2 == rh
  {
    ChoosePrecedence(p, r1, rh, r2);
  }

  /** get_latency either stops at its own-address check, or is the policy half
      applied to the roles and the remote host; a failing step is its error. */
  lemma {:induction false} LatencySteps(doc: InventoryDoc, p: LatencyDoc, host: string, ip: string)
    requires WellFormed(doc) && HostHasVars(doc, host)
    requires ip !in HostIps(doc, host)
    ensures Latency(doc, p, host, ip).Ok? ==>
      && Hosts(doc).Ok? && HostRole(doc, Some(host)).Ok? && IpHost(doc, ip).Ok?
      && HostRole(doc, IpHost(doc, ip).value).Ok?
      && Latency(doc, p, host, ip) ==
         Choose(p, HostRole(doc, Some(host)).value, IpHost(doc, ip).value, HostRole(doc, IpHost(doc, ip).value).value)
  {
  }

  /** An inter-role value wins even between hosts of one role. */
  lemma {:induction false} InterRoleWins(doc: InventoryDoc, p: LatencyDoc, host: string, ip: string,
                      r1: Option<string>, rh: Option<string>, r2: Option<string>, v: string)
    requires WellFormed(doc) && HostHasVars(doc, host) && ip !in HostIps(doc, host)
    requires Hosts(doc).Ok?
    requires HostRole(doc, Some(host)) == Ok(r1)
    requires IpHost(doc, ip) == Ok(rh)
    requires HostRole(doc, rh) == Ok(r2)
    requires InterRoleLatency(p, r1, r2) == Ok(Some(v))
    ensures Latency(doc, p, host, ip).Ok? && Latency(doc, p, host, ip).value.Some?
    ensures Latency(doc, p, host, ip).value.value.0 == v
  {
    Precedence(doc, p, host, ip, r1, rh, r2, Some(v));
  }

  /** What a resolved rule carries: a declared value, its mark in the table, and
      the owner get_ip_host gives for the address; and the address is not the host's own. */
  lemma {:induction false} ResolvedShaping(doc: InventoryDoc, p: LatencyDoc, host: string, ip: string)
    requires WellFormed(doc) && HostHasVars(doc, host)
    requires Latency(doc, p, host, ip).Ok? && Latency(doc, p, host, ip).value.Some?
    ensures var t := Latency(doc, p, host, ip).value.value;
      && ip !in HostIps(doc, host)
      && Registered(p, t.0)
      && t.0 in MarkTable(p) && MarkTable(p)[t.0] == t.1
      && IpHost(doc, ip) == Ok(t.2)
  {
    var t := Latency(doc, p, host, ip).value.value;
    LatencySteps(doc, p, host, ip);
    var r1, rh := HostRole(doc, Some(host)).value, IpHost(doc, ip).value;
    var r2 := HostRole(doc, rh).value;
    ChoosePrecedence(p, r1, rh, r2);
    MarkTableKeys(p, t.0);
  }

  /** get_mark never fails inside get_latency: every error get_latency reports
      comes from the inventory or from an ambiguous inter-role declaration. */
  lemma {:induction false} MarkNeverMissing(doc: InventoryDoc, p: LatencyDoc, host: string, ip: string)
    requires WellFormed(doc) && HostHasVars(doc, host)
    ensures Latency(doc, p, host, ip).Err? ==>
      var e := Latency(doc, p, host, ip).error;
      e.HostCount? || e.SharedIp? || e.SeveralRoles? || e.BothOrders?
  {
    if ip !in HostIps(doc, host) {
      if Hosts(doc).Err? {
        HostsFail(doc);
        assert Latency(doc, p, host, ip) == Err(Hosts(doc).error);
      } else {
        HostRoleError(doc, Some(host));
        IpHostError(doc, ip);
        if HostRole(doc, Some(host)).Ok? && IpHost(doc, ip).Ok? {
          var r1, rh := HostRole(doc, Some(host)).value, IpHost(doc, ip).value;
          HostRoleError(doc, rh);
          if HostRole(doc, rh).Ok? {
            var r2 := HostRole(doc, rh).value;
            ChoosePrecedence(p, r1, rh, r2);
            assert Latency(doc, p, host, ip) == Choose(p, r1, rh, r2);
          }
        }
      }
    }
  }
}
