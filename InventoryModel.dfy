/** The inventory queries of generateqos.py as functions of the parsed
    inventory: roles, host groups, addresses, VIPs and the reverse lookups. */
module InventoryModel {
  import opened Results
  import opened Documents
  import opened Strings

  // ---------------------------------------------------------------- roles

  /** The names of the role groups, in document order. */
  function Roles(entries: InventoryDoc): seq<string> {
    if entries == [] then []
    else
      var (name, g) := entries[|entries| - 1];
      Roles(entries[..|entries| - 1]) + (if IsRole(g) then [name] else [])
  }

  lemma {:induction false} RolesAreRoleGroups(entries: InventoryDoc, r: string)
    ensures r in Roles(entries) <==> exists g :: (r, g) in entries && IsRole(g)
  {
    if entries != [] {
      var init, last := entries[..|entries| - 1], entries[|entries| - 1];
      RolesAreRoleGroups(init, r);
      assert entries == init + [last];
      assert Roles(entries) == Roles(init) + (if IsRole(last.1) then [last.0] else []);
      if exists g :: (r, g) in entries && IsRole(g) {
        var g :| (r, g) in entries && IsRole(g);
        if (r, g) != last {
          assert (r, g) in init;
        }
      }
      if r in Roles(entries) && r !in Roles(init) {
        assert last in entries;
      }
    }
  }

  lemma {:induction false} RolesDistinct(entries: InventoryDoc)
    requires DistinctKeys(entries)
    ensures Distinct(Roles(entries))
  {
    if entries != [] {
      var init, last := entries[..|entries| - 1], entries[|entries| - 1];
      RolesDistinct(init);
      RolesAreRoleGroups(init, last.0);
    }
  }

  predicate IsRoleName(doc: InventoryDoc, r: string) {
    Find(doc, r).Some? && IsRole(Find(doc, r).value)
  }

  lemma {:induction false} RolesAreRoleNames(doc: InventoryDoc)
    requires DistinctKeys(doc)
    ensures forall r :: r in Roles(doc) <==> IsRoleName(doc, r)
  {
    forall r ensures r in Roles(doc) <==> IsRoleName(doc, r) {
      RolesAreRoleGroups(doc, r);
    }
  }

  // ---------------------------------------------------------------- hosts

  predicate BadHostCount(g: Group) {
    g.hosts.Some? && |g.hosts.value| != 1
  }

  /** Each host group paired with its single host, in document order; the first
      group whose `hosts` has other than one entry is an error. */
  function Hosts(entries: InventoryDoc): Result<Mapping<string>> {
    if entries == [] then Ok([])
    else
      var last := entries[|entries| - 1];
      var done :- Hosts(entries[..|entries| - 1]);
      if last.1.hosts.None? then Ok(done)
      else if |last.1.hosts.value| != 1 then Err(HostCount(last.0, last.1.hosts.value))
      else Ok(done + [(last.0, last.1.hosts.value[0])])
  }

  lemma {:induction false} HostsFail(entries: InventoryDoc)
    ensures Hosts(entries).Err? <==> exists i :: 0 <= i < |entries| && BadHostCount(entries[i].1)
    ensures Hosts(entries).Err? ==>
      var e := Hosts(entries).error;
      e.HostCount? && |e.hosts| != 1 &&
      exists i :: 0 <= i < |entries| && entries[i] == (e.group, Group(entries[i].1.vars, Some(e.hosts), entries[i].1.children)) &&
        forall j :: 0 <= j < i ==> !BadHostCount(entries[j].1)
  {
    if entries != [] {
      var init, last := entries[..|entries| - 1], entries[|entries| - 1];
      HostsFail(init);
      assert forall i :: 0 <= i < |init| ==> entries[i] == init[i];
      if Hosts(init).Ok? && BadHostCount(last.1) {
        var i := |entries| - 1;
        assert entries[i] == (last.0, Group(last.1.vars, last.1.hosts, last.1.children));
      }
    }
  }

  lemma {:induction false} HostsPairs(entries: InventoryDoc, hs: Mapping<string>)
    requires Hosts(entries) == Ok(hs)
    ensures forall k, g :: (k, g) in entries && g.hosts.Some? ==> |g.hosts.value| == 1
    ensures forall k, h :: (k, h) in hs <==> exists g :: (k, g) in entries && g.hosts == Some([h])
    ensures DistinctKeys(entries) ==> DistinctKeys(hs)
  {
    if entries != [] {
      var init, last := entries[..|entries| - 1], entries[|entries| - 1];
      assert entries == init + [last];
      var done := Hosts(init).value;
      HostsPairs(init, done);
      if last.1.hosts.Some? {
        assert |last.1.hosts.value| == 1;
        var h := last.1.hosts.value[0];
        assert last.1.hosts.value == [h];
        assert hs == done + [(last.0, h)];
        if DistinctKeys(entries) {
          forall i, j | 0 <= i < j < |hs| ensures hs[i].0 != hs[j].0 {
            if j == |hs| - 1 {
              assert hs[i] in done;
              var g :| (hs[i].0, g) in init && g.hosts == Some([hs[i].1]);
              var m :| 0 <= m < |init| && init[m] == (hs[i].0, g);
              assert entries[m].0 == init[m].0;
              assert hs[j].0 == last.0 == entries[|entries| - 1].0;
            }
          }
        }
      }
    }
  }

  /** With distinct group names: the keys of the host table are exactly the
      host groups, and each is mapped to the one host it declares. */
  lemma {:induction false} HostGroups(doc: InventoryDoc, hs: Mapping<string>)
    requires DistinctKeys(doc) && Hosts(doc) == Ok(hs)
    ensures DistinctKeys(hs)
    ensures forall k :: k in Keys(hs) <==> IsHostGroup(doc, k)
    ensures forall k :: k in Keys(hs) ==>
      Find(doc, k).Some? && Find(hs, k).Some? && Find(doc, k).value.hosts == Some([Find(hs, k).value])
  {
    HostsPairs(doc, hs);
    forall k ensures k in Keys(hs) <==> IsHostGroup(doc, k) {
      InKeys(hs, k);
      if IsHostGroup(doc, k) {
        var g := Find(doc, k).value;
        assert (k, g) in doc && g.hosts.Some?;
        assert |g.hosts.value| == 1;
        var h := g.hosts.value[0];
        assert g.hosts.value == [h];
        assert (k, h) in hs;
      }
      if k in Keys(hs) {
        var h :| (k, h) in hs;
        var g :| (k, g) in doc && g.hosts == Some([h]);
        assert Find(doc, k) == Some(g);
      }
    }
  }

  /** A group with two hosts and no `vars` is a well-formed inventory on which
      get_hosts raises HostCount, as the source does before reading any `vars`. */
  lemma {:induction false} SeveralHostsNoVars()
    ensures var doc := [("overcloud", Group(None, None, None)), ("computes", Group(None, Some(["c0", "c1"]), None))];
      WellFormed(doc) && Hosts(doc) == Err(HostCount("computes", ["c0", "c1"]))
  {
    var doc := [("overcloud", Group(None, None, None)), ("computes", Group(None, Some(["c0", "c1"]), None))];
    assert doc[..1] == [doc[0]] && doc[..1][..0] == [];
    assert Find(doc, "overcloud") == Some(Group(None, None, None));
  }

  /** An error in a prefix of the groups is the error of the whole walk. */
  lemma {:induction false} HostsStop(entries: InventoryDoc, k: nat)
    requires k <= |entries| && Hosts(entries[..k]).Err?
    ensures Hosts(entries) == Hosts(entries[..k])
    decreases |entries| - k
  {
    if k < |entries| {
      var init := entries[..|entries| - 1];
      assert init[..k] == entries[..k];
      HostsStop(init, k);
    } else {
      assert entries[..k] == entries;
    }
  }

  // ------------------------------------------------------------ addresses

  function IpOf(v: Mapping<Value>, net: string): string
    requires IpDeclared(v, net)
  {
    Find(v, net + "_ip").value.text
  }

  /** The `n_ip` values of the networks, duplicates dropped, in network order. */
  function NetworkIps(v: Mapping<Value>, nets: seq<string>): (ips: seq<string>)
    requires forall n :: n in nets ==> IpDeclared(v, n)
    ensures Distinct(ips)
    ensures forall ip :: ip in ips <==> exists n :: n in nets && IpOf(v, n) == ip
  {
    if nets == [] then []
    else
      var init := nets[..|nets| - 1];
      assert forall n :: n in nets <==> n in init || n == nets[|nets| - 1];
      var ips := NetworkIps(v, init);
      var ip := IpOf(v, nets[|nets| - 1]);
      if ip in ips then ips else ips + [ip]
  }

  /** One more network: its address is added unless already listed. */
  lemma {:induction false} NetworkIpsStep(v: Mapping<Value>, nets: seq<string>, i: nat)
    requires forall n :: n in nets ==> IpDeclared(v, n)
    requires i < |nets|
    ensures IpDeclared(v, nets[i])
    ensures var ips := NetworkIps(v, nets[..i]);
      NetworkIps(v, nets[..i + 1]) == if IpOf(v, nets[i]) in ips then ips else ips + [IpOf(v, nets[i])]
  {
    assert nets[i] in nets;
    assert nets[..i + 1][..i] == nets[..i];
  }

  /** The networks the group enables; none when it declares no `enabled_networks`. */
  function EnabledNetworks(doc: InventoryDoc, name: string): (nets: seq<string>)
    requires WellFormed(doc) && HostHasVars(doc, name)
    ensures forall n :: n in nets ==> IpDeclared(VarsOf(doc, name), n)
  {
    GroupShape(doc, name);
    match Find(VarsOf(doc, name), "enabled_networks")
    case None => []
    case Some(nets) => nets.items
  }

  /** get_host_ips: the group's addresses over its enabled networks. */
  function HostIps(doc: InventoryDoc, name: string): seq<string>
    requires WellFormed(doc) && HostHasVars(doc, name)
  {
    NetworkIps(VarsOf(doc, name), EnabledNetworks(doc, name))
  }

  /** get_host_ip_network: the group's address on one network, if enabled. */
  function HostIpOnNetwork(doc: InventoryDoc, name: string, net: string): (r: Option<string>)
    requires WellFormed(doc) && HostHasVars(doc, name)
    ensures r.Some? <==> net in EnabledNetworks(doc, name)
    ensures r.Some? ==> (net + "_ip", Scalar(r.value)) in VarsOf(doc, name)
    ensures r.Some? ==> r.value in HostIps(doc, name)
  {
    GroupShape(doc, name);
    var v := VarsOf(doc, name);
    match Find(v, "enabled_networks")
    case None => None
    case Some(nets) => if net in nets.items then Some(IpOf(v, net)) else None
  }

  /** A group's address set is exactly its per-network addresses. */
  lemma {:induction false} HostIpsByNetwork(doc: InventoryDoc, name: string, ip: string)
    requires WellFormed(doc) && HostHasVars(doc, name)
    ensures ip in HostIps(doc, name) <==> exists n :: HostIpOnNetwork(doc, name, n) == Some(ip)
  {
    if ip in HostIps(doc, name) {
      var n :| n in EnabledNetworks(doc, name) && IpOf(VarsOf(doc, name), n) == ip;
      assert HostIpOnNetwork(doc, name, n) == Some(ip);
    }
  }

  // ----------------------------------------------------------------- VIPs

  function VipsOf(vars: Mapping<Value>): (vips: seq<string>)
    requires forall e :: e in vars ==> e.1.Scalar?
    ensures |vips| == |vars|
    ensures forall i :: 0 <= i < |vars| ==> vips[i] == vars[i].1.text
  {
    if vars == [] then []
    else VipsOf(vars[..|vars| - 1]) + [vars[|vars| - 1].1.text]
  }

  function OvercloudVars(doc: InventoryDoc): Mapping<Value>
    requires WellFormed(doc)
  {
    var oc := Find(doc, "overcloud").value;
    if oc.vars.None? then [] else oc.vars.value
  }

  /** get_all_vips: the values of the `overcloud` group's variables. */
  function AllVips(doc: InventoryDoc): seq<string>
    requires WellFormed(doc)
  {
    VipsOf(OvercloudVars(doc))
  }

  lemma {:induction false} AllVipsAreOvercloudValues(doc: InventoryDoc, ip: string)
    requires WellFormed(doc)
    ensures ip in AllVips(doc) <==> exists k :: (k, Scalar(ip)) in OvercloudVars(doc)
    ensures ip in AllVips(doc) ==> ControllerShaped(doc)
  {
    var v := OvercloudVars(doc);
    if ip in AllVips(doc) {
      var i :| 0 <= i < |v| && AllVips(doc)[i] == ip;
      assert v[i] == (v[i].0, Scalar(ip));
    }
    if exists k :: (k, Scalar(ip)) in v {
      var k :| (k, Scalar(ip)) in v;
      var i :| 0 <= i < |v| && v[i] == (k, Scalar(ip));
      assert AllVips(doc)[i] == ip;
    }
  }

  // ---------------------------------------------------------------- roles' hosts

  function GroupChildren(doc: InventoryDoc, name: string): seq<string>
    requires Find(doc, name).Some? && Find(doc, name).value.children.Some?
  {
    Find(doc, name).value.children.value
  }

  predicate HostsBelow(doc: InventoryDoc, name: string) {
    Find(doc, name).Some? && ChildrenAreHosts(doc, Find(doc, name).value)
  }

  /** get_role_hosts: each child of the group mapped to its single host. */
  function RoleHosts(doc: InventoryDoc, role: string): (r: Result<map<string, string>>)
    requires WellFormed(doc) && HostsBelow(doc, role)
    ensures r.Ok? <==> Hosts(doc).Ok?
    ensures r.Err? ==> r.error == Hosts(doc).error
    ensures r.Ok? ==> r.value.Keys == set c | c in GroupChildren(doc, role)
    ensures r.Ok? ==> forall c :: c in r.value ==> Find(doc, c).value.hosts == Some([r.value[c]])
  {
    var children := GroupChildren(doc, role);
    var hs :- Hosts(doc);
    HostGroups(doc, hs);
    Ok(map c | c in children :: Find(hs, c).value)
  }

  lemma {:induction false} RoleNameHasHosts(doc: InventoryDoc, r: string)
    requires WellFormed(doc) && IsRoleName(doc, r)
    ensures HostsBelow(doc, r)
  {
    GroupShape(doc, r);
  }

  // ---------------------------------------------------------------- host -> role

  /** The roles among `roles` that have `host` as a child, in order. */
  function RolesContaining(doc: InventoryDoc, roles: seq<string>, host: Option<string>): Result<seq<string>>
    requires WellFormed(doc) && forall r :: r in roles ==> IsRoleName(doc, r)
  {
    if roles == [] then Ok([])
    else
      var role := roles[|roles| - 1];
      var found :- RolesContaining(doc, roles[..|roles| - 1], host);
      RoleNameHasHosts(doc, role);
      var members :- RoleHosts(doc, role);
      Ok(found + (if host.Some? && host.value in members then [role] else []))
  }

  /** An error in a prefix of the roles is the error of the whole walk. */
  lemma {:induction false} RolesContainingStop(doc: InventoryDoc, roles: seq<string>, k: nat, host: Option<string>)
    requires WellFormed(doc) && forall r :: r in roles ==> IsRoleName(doc, r)
    requires k <= |roles| && RolesContaining(doc, roles[..k], host).Err?
    ensures RolesContaining(doc, roles, host) == RolesContaining(doc, roles[..k], host)
    decreases |roles| - k
  {
    if k < |roles| {
      var init := roles[..|roles| - 1];
      assert init[..k] == roles[..k];
      RolesContainingStop(doc, init, k, host);
    } else {
      assert roles[..k] == roles;
    }
  }

  /** One more role of the walk. */
  lemma {:induction false} RolesContainingStep(doc: InventoryDoc, roles: seq<string>, i: nat, host: Option<string>)
    requires WellFormed(doc) && forall r :: r in roles ==> IsRoleName(doc, r)
    requires i < |roles| && HostsBelow(doc, roles[i]) && RolesContaining(doc, roles[..i], host).Ok?
    ensures RoleHosts(doc, roles[i]).Err? ==>
      RolesContaining(doc, roles[..i + 1], host) == Err(RoleHosts(doc, roles[i]).error)
    ensures RoleHosts(doc, roles[i]).Ok? ==>
      RolesContaining(doc, roles[..i + 1], host) ==
        Ok(RolesContaining(doc, roles[..i], host).value
           + (if host.Some? && host.value in RoleHosts(doc, roles[i]).value then [roles[i]] else []))
  {
    var s := roles[..i + 1];
    assert s[..|s| - 1] == roles[..i];
  }

  /** get_host_role: the one role that has the host as a child. */
  function HostRole(doc: InventoryDoc, host: Option<string>): Result<Option<string>>
    requires WellFormed(doc)
  {
    RolesAreRoleNames(doc);
    var ret :- RolesContaining(doc, Roles(doc), host);
    if |ret| > 1 then Err(SeveralRoles(host, ret))
    else if |ret| == 1 then Ok(Some(ret[0]))
    else Ok(None)
  }

  /** `host` is a child of the role group `r`. */
  predicate InRole(doc: InventoryDoc, host: string, r: string) {
    IsRoleName(doc, r) && Find(doc, r).value.children.Some? && host in Find(doc, r).value.children.value
  }

  lemma {:induction false} DistinctCount(s: seq<string>)
    requires Distinct(s)
    ensures |s| > 1 <==> exists a, b :: a in s && b in s && a != b
  {
    if |s| > 1 {
      assert s[0] in s && s[1] in s && s[0] != s[1];
    }
  }

  lemma {:induction false} RolesContainingFilters(doc: InventoryDoc, roles: seq<string>, host: Option<string>)
    requires WellFormed(doc) && forall r :: r in roles ==> IsRoleName(doc, r)
    requires Hosts(doc).Ok?
    ensures RolesContaining(doc, roles, host).Ok?
    ensures forall r :: r in RolesContaining(doc, roles, host).value <==>
      r in roles && host.Some? && InRole(doc, host.value, r)
    ensures Distinct(roles) ==> Distinct(RolesContaining(doc, roles, host).value)
  {
    if roles != [] {
      var init, role := roles[..|roles| - 1], roles[|roles| - 1];
      assert forall r :: r in roles <==> r in init || r == role;
      RolesContainingFilters(doc, init, host);
      RoleNameHasHosts(doc, role);
      var members := RoleHosts(doc, role).value;
      assert host.Some? ==> (host.value in members <==> InRole(doc, host.value, role));
      if Distinct(roles) {
        assert Distinct(init) by {
          forall i, j | 0 <= i < j < |init| ensures init[i] != init[j] { assert init[i] == roles[i] && init[j] == roles[j]; }
        }
        assert role !in init by {
          forall i | 0 <= i < |init| ensures init[i] != role { assert init[i] == roles[i]; }
        }
      }
    }
  }

  lemma {:induction false} RolesContainingFails(doc: InventoryDoc, roles: seq<string>, host: Option<string>)
    requires WellFormed(doc) && forall r :: r in roles ==> IsRoleName(doc, r)
    requires Hosts(doc).Err?
    ensures RolesContaining(doc, roles, host) == if roles == [] then Ok([]) else Err(Hosts(doc).error)
  {
    if roles != [] {
      var init, role := roles[..|roles| - 1], roles[|roles| - 1];
      RolesContainingFails(doc, init, host);
      RoleNameHasHosts(doc, role);
    }
  }

  /** get_host_role over a well-formed host table: an error exactly when the host
      is a child of two roles, none exactly when it is a child of none, and
      otherwise a role that has it as a child. No host is in no role at all. */
  lemma {:induction false} HostRoleCases(doc: InventoryDoc, host: string)
    requires WellFormed(doc) && Hosts(doc).Ok?
    ensures HostRole(doc, Some(host)).Err? <==>
      exists r1, r2 :: r1 != r2 && InRole(doc, host, r1) && InRole(doc, host, r2)
    ensures HostRole(doc, Some(host)) == Ok(None) <==> forall r :: !InRole(doc, host, r)
    ensures HostRole(doc, Some(host)).Ok? && HostRole(doc, Some(host)).value.Some? ==>
      InRole(doc, host, HostRole(doc, Some(host)).value.value)
  {
    RolesAreRoleNames(doc);
    RolesDistinct(doc);
    RolesContainingFilters(doc, Roles(doc), Some(host));
    var rs := RolesContaining(doc, Roles(doc), Some(host)).value;
    assert forall r :: r in rs <==> InRole(doc, host, r);
    DistinctCount(rs);
    if |rs| == 1 {
      assert rs[0] in rs;
    }
    if |rs| > 0 {
      assert InRole(doc, host, rs[0]);
    }
  }

  lemma {:induction false} NoHostInNoRoles(doc: InventoryDoc, roles: seq<string>)
    requires WellFormed(doc) && Hosts(doc).Ok? && forall r :: r in roles ==> IsRoleName(doc, r)
    ensures RolesContaining(doc, roles, None).Ok? && RolesContaining(doc, roles, None).value == []
  {
    if roles != [] {
      var init, role := roles[..|roles| - 1], roles[|roles| - 1];
      assert forall r :: r in init ==> r in roles;
      NoHostInNoRoles(doc, init);
      RoleNameHasHosts(doc, role);
      assert RoleHosts(doc, role).Ok?;
    }
  }

  /** An absent host (an address nobody owns) has no role. */
  lemma {:induction false} NoHostNoRole(doc: InventoryDoc)
    requires WellFormed(doc) && Hosts(doc).Ok?
    ensures HostRole(doc, None) == Ok(None)
  {
    RolesAreRoleNames(doc);
    NoHostInNoRoles(doc, Roles(doc));
  }

  /** Over a well-formed host table the only error of get_host_role is the
      ambiguity one. */
  lemma {:induction false} HostRoleError(doc: InventoryDoc, host: Option<string>)
    requires WellFormed(doc) && Hosts(doc).Ok?
    ensures HostRole(doc, host).Err? ==> HostRole(doc, host).error.SeveralRoles?
  {
    RolesAreRoleNames(doc);
    RolesContainingFilters(doc, Roles(doc), host);
  }

  /** A failing host table makes get_host_role fail as soon as there is a role. */
  lemma {:induction false} HostRoleFails(doc: InventoryDoc, host: Option<string>)
    requires WellFormed(doc) && Hosts(doc).Err?
    ensures HostRole(doc, host) == if Roles(doc) == [] then Ok(None) else Err(Hosts(doc).error)
  {
    RolesAreRoleNames(doc);
    RolesContainingFails(doc, Roles(doc), host);
  }

  // ---------------------------------------------------------------- IP -> host

  /** The host groups among `names` whose address set holds `ip`, in order. */
  function Owners(doc: InventoryDoc, names: seq<string>, ip: string): seq<string>
    requires WellFormed(doc) && forall n :: n in names ==> HostHasVars(doc, n)
  {
    if names == [] then []
    else
      var last := names[|names| - 1];
      Owners(doc, names[..|names| - 1], ip) + (if ip in HostIps(doc, last) then [last] else [])
  }

  lemma {:induction false} OwnersFilter(doc: InventoryDoc, names: seq<string>, ip: string)
    requires WellFormed(doc) && forall n :: n in names ==> HostHasVars(doc, n)
    ensures forall g :: g in Owners(doc, names, ip) <==> g in names && ip in HostIps(doc, g)
    ensures Distinct(names) ==> Distinct(Owners(doc, names, ip))
  {
    if names != [] {
      var init, last := names[..|names| - 1], names[|names| - 1];
      assert forall n :: n in names <==> n in init || n == last;
      OwnersFilter(doc, init, ip);
      if Distinct(names) {
        assert Distinct(init) by {
          forall i, j | 0 <= i < j < |init| ensures init[i] != init[j] { assert init[i] == names[i] && init[j] == names[j]; }
        }
        assert last !in init by {
          forall i | 0 <= i < |init| ensures init[i] != last { assert init[i] == names[i]; }
        }
      }
    }
  }

  lemma {:induction false} HostGroupsHaveVars(doc: InventoryDoc, hs: Mapping<string>)
    requires WellFormed(doc) && Hosts(doc) == Ok(hs)
    ensures forall n :: n in Keys(hs) ==> HostHasVars(doc, n)
  {
    HostGroups(doc, hs);
    forall n | n in Keys(hs) ensures HostHasVars(doc, n) {
      assert |Find(doc, n).value.hosts.value| == 1;
      GroupShape(doc, n);
    }
  }

  /** get_ip_host: a VIP belongs to the least child of `Controller`; any other
      address to the one host group that claims it. */
  function IpHost(doc: InventoryDoc, ip: string): Result<Option<string>>
    requires WellFormed(doc)
  {
    AllVipsAreOvercloudValues(doc, ip);
    if ip in AllVips(doc) then
      var controller :- RoleHosts(doc, "Controller");
      Ok(Some(Least(GroupChildren(doc, "Controller"))))
    else
      var hs :- Hosts(doc);
      HostGroupsHaveVars(doc, hs);
      var owners := Owners(doc, Keys(hs), ip);
      if |owners| > 1 then Err(SharedIp(ip, owners))
      else if |owners| == 1 then Ok(Some(owners[0]))
      else Ok(None)
  }

  /** The host group `g` claims `ip` among its addresses. */
  predicate Owns(doc: InventoryDoc, g: string, ip: string)
    requires WellFormed(doc)
  {
    HostHasVars(doc, g) && ip in HostIps(doc, g)
  }

  /** get_ip_host on an address that is not a VIP: an error exactly when two host
      groups claim it, none exactly when no host group does, and otherwise the
      host group that claims it. */
  lemma {:induction false} IpHostCases(doc: InventoryDoc, ip: string)
    requires WellFormed(doc) && Hosts(doc).Ok? && ip !in AllVips(doc)
    ensures IpHost(doc, ip).Err? <==> exists g1, g2 :: g1 != g2 && Owns(doc, g1, ip) && Owns(doc, g2, ip)
    ensures IpHost(doc, ip) == Ok(None) <==> forall g :: !Owns(doc, g, ip)
    ensures IpHost(doc, ip).Ok? && IpHost(doc, ip).value.Some? ==> Owns(doc, IpHost(doc, ip).value.value, ip)
  {
    var hs := Hosts(doc).value;
    HostGroups(doc, hs);
    HostGroupsHaveVars(doc, hs);
    assert Distinct(Keys(hs)) by {
      forall i, j | 0 <= i < j < |Keys(hs)| ensures Keys(hs)[i] != Keys(hs)[j] { }
    }
    OwnersFilter(doc, Keys(hs), ip);
    var owners := Owners(doc, Keys(hs), ip);
    assert forall g :: g in owners <==> Owns(doc, g, ip);
    DistinctCount(owners);
    if |owners| > 0 {
      assert Owns(doc, owners[0], ip);
    }
  }

  /** get_ip_host on a VIP: the first of the `Controller` group's children in
      sorted order, whoever holds the address. */
  lemma {:induction false} VipHost(doc: InventoryDoc, ip: string)
    requires WellFormed(doc) && Hosts(doc).Ok? && ip in AllVips(doc)
    ensures ControllerShaped(doc) && IpHost(doc, ip).Ok? && IpHost(doc, ip).value.Some? &&
      var h := IpHost(doc, ip).value.value;
      h in GroupChildren(doc, "Controller") &&
      forall c :: c in GroupChildren(doc, "Controller") ==> LexLe(h, c)
  {
    AllVipsAreOvercloudValues(doc, ip);
  }

  /** Over a well-formed host table the only error of get_ip_host is the
      shared-address one. */
  lemma {:induction false} IpHostError(doc: InventoryDoc, ip: string)
    requires WellFormed(doc) && Hosts(doc).Ok?
    ensures IpHost(doc, ip).Err? ==> IpHost(doc, ip).error.SharedIp?
  {
    AllVipsAreOvercloudValues(doc, ip);
  }

  /** A failing host table makes get_ip_host fail on every address. */
  lemma {:induction false} IpHostFails(doc: InventoryDoc, ip: string)
    requires WellFormed(doc) && Hosts(doc).Err?
    ensures IpHost(doc, ip) == Err(Hosts(doc).error)
  {
    AllVipsAreOvercloudValues(doc, ip);
  }

  /** get_ip_role: `Controller` for every VIP, otherwise the role of the owner. */
  function IpRole(doc: InventoryDoc, ip: string): (r: Result<Option<string>>)
    requires WellFormed(doc)
    ensures ip in AllVips(doc) ==> r == Ok(Some("Controller"))
  {
    if ip in AllVips(doc) then Ok(Some("Controller"))
    else
      var host :- IpHost(doc, ip);
      if host.None? then Ok(None) else HostRole(doc, host)
  }

  // ---------------------------------------------------------------- role pairs

  /** itertools.combinations(s, 2): every (s[i], s[j]) with i < j, in order. */
  function Pairs(s: seq<string>): seq<(string, string)> {
    if |s| < 2 then []
    else seq(|s| - 1, k requires 0 <= k < |s| - 1 => (s[0], s[k + 1])) + Pairs(s[1..])
  }

  lemma {:induction false} PairsAreOrderedPairs(s: seq<string>, a: string, b: string)
    ensures (a, b) in Pairs(s) <==> exists i, j :: 0 <= i < j < |s| && s[i] == a && s[j] == b
  {
    if |s| >= 2 {
      var firsts := seq(|s| - 1, k requires 0 <= k < |s| - 1 => (s[0], s[k + 1]));
      PairsAreOrderedPairs(s[1..], a, b);
      if (a, b) in firsts {
        var k :| 0 <= k < |firsts| && firsts[k] == (a, b);
        assert s[0] == a && s[k + 1] == b;
      } else if (a, b) in Pairs(s[1..]) {
        var i, j :| 0 <= i < j < |s[1..]| && s[1..][i] == a && s[1..][j] == b;
        assert s[i + 1] == a && s[j + 1] == b;
      }
      if exists i, j :: 0 <= i < j < |s| && s[i] == a && s[j] == b {
        var i, j :| 0 <= i < j < |s| && s[i] == a && s[j] == b;
        if i == 0 {
          assert firsts[j - 1] == (a, b);
        } else {
          assert s[1..][i - 1] == a && s[1..][j - 1] == b;
        }
      }
    }
  }

  lemma {:induction false} PairsCount(s: seq<string>)
    ensures 2 * |Pairs(s)| == |s| * (|s| - 1)
  {
    if |s| >= 2 {
      PairsCount(s[1..]);
      assert |s| * (|s| - 1) == 2 * (|s| - 1) + (|s| - 1) * (|s| - 2);
    }
  }
}
