/** The generator: the Inventory object built over the two parsed documents,
    whose queries walk them entry by entry, and the two generation passes. Each
    query is proved equal to the function that specifies it; the properties the
    generator relies on are proved about those functions. */
module GenerateQos {
  import opened Results
  import opened Documents
  import opened Strings
  import opened InventoryModel
  import opened LatencyPolicy
  import opened Resolver
  import opened ScriptPlan

  class Inventory {
    /** The two input files' names and their parsed contents; none of them
        changes after construction. */
    const fname: string
    const inventory: Documents.Inventory
    const flatency: string
    const latency: Policy

    constructor (fname: string, inventory: Documents.Inventory, flatency: string, latency: Policy)
      ensures this.fname == fname && this.inventory == inventory
      ensures this.flatency == flatency && this.latency == latency
    {
      this.fname := fname;
      this.inventory := inventory;
      this.flatency := flatency;
      this.latency := latency;
    }

    /** get_roles */
    method GetRoles() returns (roles: seq<string>)
      ensures roles == Roles(inventory)
    {
      roles := [];
      var i := 0;
      while i < |inventory|
        invariant 0 <= i <= |inventory|
        invariant roles == Roles(inventory[..i])
      {
        var (name, g) := inventory[i];
        assert inventory[..i + 1][..i] == inventory[..i];
        if g.vars.Some? && "role_name" in Keys(g.vars.value) {
          roles := roles + [name];
        }
        i := i + 1;
      }
      assert inventory[..i] == inventory;
    }

    /** get_hosts */
    method GetHosts() returns (r: Result<Mapping<string>>)
      ensures r == Hosts(inventory)
    {
      var hosts: Mapping<string> := [];
      var i := 0;
      while i < |inventory|
        invariant 0 <= i <= |inventory|
        invariant Hosts(inventory[..i]) == Ok(hosts)
      {
        var (name, g) := inventory[i];
        assert inventory[..i + 1][..i] == inventory[..i];
        if g.hosts.Some? {
          var host := g.hosts.value;
          if |host| != 1 {
            HostsStop(inventory, i + 1);
            return Err(HostCount(name, host));
          }
          hosts := hosts + [(name, host[0])];
        }
        i := i + 1;
      }
      assert inventory[..i] == inventory;
      r := Ok(hosts);
    }

    /** get_all_vips */
    method GetAllVips() returns (vips: seq<string>)
      ensures vips == AllVips(inventory)
    {
      var overcloud := Find(inventory, "overcloud").value;
      if overcloud.vars.None? {
        return [];
      }
      var v := overcloud.vars.value;
      vips := [];
      var i := 0;
      while i < |v|
        invariant 0 <= i <= |v|
        invariant vips == VipsOf(v[..i])
      {
        assert v[..i + 1][..i] == v[..i];
        vips := vips + [v[i].1.text];
        i := i + 1;
      }
      assert v[..i] == v;
    }

    /** get_role_hosts */
    method GetRoleHosts(role: string) returns (r: Result<map<string, string>>)
      requires HostsBelow(inventory, role)
      ensures r == RoleHosts(inventory, role)
    {
      var children := Find(inventory, role).value.children.value;
      var hosts :- GetHosts();
      HostGroups(inventory, hosts);
      r := Ok(map c | c in children :: Find(hosts, c).value);
    }

    /** get_host_role */
    method GetHostRole(host: Option<string>) returns (r: Result<Option<string>>)
      ensures r == HostRole(inventory, host)
    {
      var roles := GetRoles();
      RolesAreRoleNames(inventory);
      var ret: seq<string> := [];
      var i := 0;
      while i < |roles|
        invariant 0 <= i <= |roles|
        invariant RolesContaining(inventory, roles[..i], host) == Ok(ret)
      {
        var role := roles[i];
        RoleNameHasHosts(inventory, role);
        RolesContainingStep(inventory, roles, i, host);
        var members := GetRoleHosts(role);
        if members.Err? {
          RolesContainingStop(inventory, roles, i + 1, host);
          return Err(members.error);
        }
        if host.Some? && host.value in members.value {
          ret := ret + [role];
        } else {
          assert ret + [] == ret;
        }
        i := i + 1;
      }
      assert roles[..i] == roles;
      assert RolesContaining(inventory, Roles(inventory), host) == Ok(ret);
      if |ret| > 1 {
        return Err(SeveralRoles(host, ret));
      }
      if |ret| == 1 {
        return Ok(Some(ret[0]));
      }
      r := Ok(None);
    }

    /** get_host_ips: the address set is built up network by network; a
        repeated address is not added again. */
    method GetHostIps(hostname: string) returns (ips: seq<string>)
      requires HostHasVars(inventory, hostname)
      ensures ips == HostIps(inventory, hostname)
    {
      var doc := inventory;
      GroupShape(doc, hostname);
      var v := VarsOf(doc, hostname);
      var given := Find(v, "enabled_networks");
      if given.None? {
        return [];
      }
      var networks := given.value.items;
      assert NetworksDeclared(v);
      ips := [];
      var i := 0;
      while i < |networks|
        invariant 0 <= i <= |networks|
        invariant ips == NetworkIps(v, networks[..i])
      {
        NetworkIpsStep(v, networks, i);
        var ip := Find(v, networks[i] + "_ip").value.text;
        if ip !in ips {
          ips := ips + [ip];
        }
        i := i + 1;
      }
      assert networks[..i] == networks;
    }

    /** get_ip_host */
    method GetIpHost(ip: string) returns (r: Result<Option<string>>)
      ensures r == IpHost(inventory, ip)
    {
      var vips := GetAllVips();
      AllVipsAreOvercloudValues(inventory, ip);
      if ip in vips {
        // The map's keys are the Controller group's children; the first in sorted order is their least.
        var h :- GetRoleHosts("Controller");
        return Ok(Some(Least(GroupChildren(inventory, "Controller"))));
      }
      var hosts :- GetHosts();
      HostGroupsHaveVars(inventory, hosts);
      var names := Keys(hosts);
      var owners: seq<string> := [];
      var i := 0;
      while i < |names|
        invariant 0 <= i <= |names|
        invariant owners == Owners(inventory, names[..i], ip)
      {
        var host := names[i];
        assert names[..i + 1][..i] == names[..i];
        var ips := GetHostIps(host);
        if ip in ips {
          owners := owners + [host];
        }
        i := i + 1;
      }
      assert names[..i] == names;
      if |owners| > 1 {
        return Err(SharedIp(ip, owners));
      }
      if |owners| == 1 {
        return Ok(Some(owners[0]));
      }
      r := Ok(None);
    }

    /** get_ip_role */
    method GetIpRole(ip: string) returns (r: Result<Option<string>>)
      ensures r == IpRole(inventory, ip)
    {
      var vips := GetAllVips();
      if ip in vips {
        return Ok(Some("Controller"));
      }
      var host :- GetIpHost(ip);
      if host.None? {
        return Ok(None);
      }
      r := GetHostRole(host);
    }

    /** get_roles_connections: every unordered pair of roles, once. */
    method GetRolesConnections() returns (ret: seq<(string, string)>)
      ensures ret == Pairs(Roles(inventory))
    {
      var roles := GetRoles();
      var combinations := Pairs(roles);
      ret := [];
      var i := 0;
      while i < |combinations|
        invariant 0 <= i <= |combinations|
        invariant ret == combinations[..i]
      {
        ret := ret + [combinations[i]];
        i := i + 1;
      }
    }

    /** get_inter_role_latency */
    method GetInterRoleLatency(role1: Option<string>, role2: Option<string>) returns (r: Result<Option<string>>)
      ensures r == InterRoleLatency(latency, role1, role2)
    {
      var setA := PairKey(role1, role2);
      var setB := PairKey(role2, role1);
      var inter := latency.inter;
      var connection: seq<string> := [];
      var i := 0;
      while i < |inter|
        invariant 0 <= i <= |inter|
        invariant connection == Connection(inter[..i], setA, setB)
      {
        var (k, v) := inter[i];
        assert inter[..i + 1][..i] == inter[..i];
        if k == setA || k == setB {
          connection := connection + [v];
        }
        i := i + 1;
      }
      assert inter[..i] == inter;
      if |connection| > 1 {
        return Err(BothOrders(connection));
      }
      if |connection| == 0 {
        return Ok(None);
      }
      r := Ok(Some(connection[0]));
    }

    /** get_all_latencies: marks are handed out from 10 in visiting order. */
    method GetAllLatencies() returns (latencies: map<string, int>)
      ensures latencies == MarkTable(latency)
    {
      var p := latency;
      var mark := 10;
      latencies := map[];
      var default := p.default;
      if default.Some? {
        latencies := latencies[default.value := mark];
      }
      mark := mark + 1;
      var intra := p.intra;
      var i := 0;
      while i < |intra|
        invariant 0 <= i <= |intra|
        invariant mark == 11 + i
        invariant latencies == Stored(StartMarks(p), intra[..i], 11)
      {
        StoredStep(StartMarks(p), intra, 11, i);
        latencies := latencies[intra[i].1 := mark];
        mark := mark + 1;
        i := i + 1;
      }
      assert intra[..i] == intra;
      var inter := p.inter;
      var j := 0;
      while j < |inter|
        invariant 0 <= j <= |inter|
        invariant mark == 11 + |intra| + j
        invariant latencies == Stored(Stored(StartMarks(p), intra, 11), inter[..j], 11 + |intra|)
      {
        StoredStep(Stored(StartMarks(p), intra, 11), inter, 11 + |intra|, j);
        latencies := latencies[inter[j].1 := mark];
        mark := mark + 1;
        j := j + 1;
      }
      assert inter[..j] == inter;
      MarksEnd(p);
    }

    /** get_mark */
    method GetMark(lat: string) returns (r: Result<int>)
      ensures r == Mark(latency, lat)
    {
      var latencies := GetAllLatencies();
      if lat !in latencies {
        return Err(UnknownLatency(lat));
      }
      r := Ok(latencies[lat]);
    }

    /** get_latency */
    method GetLatency(host: string, ip: string) returns (r: Result<Option<Shaping>>)
      requires HostHasVars(inventory, host)
      ensures r == Latency(inventory, latency, host, ip)
    {
      var own := GetHostIps(host);
      if ip in own {
        return Ok(None);
      }
      var allLatencies := GetAllLatencies();
      var allHosts :- GetHosts();
      var hostRole :- GetHostRole(Some(host));
      var remoteHost :- GetIpHost(ip);
      var remoteRole :- GetHostRole(remoteHost);
      var lat := latency.default;
      if hostRole == remoteRole {
        var l := IntraRoleLatency(latency, hostRole);
        if l.Some? {
          lat := l;
        }
      }
      var interLatency :- GetInterRoleLatency(hostRole, remoteRole);
      if interLatency.Some? {
        lat := interLatency;
      }
      if lat.Some? {
        var mark :- GetMark(lat.value);
        return Ok(Some((lat.value, mark, remoteHost)));
      }
      r := Ok(None);
    }
  }

  /** One address of generate_latencies's inner loop, debug line included. */
  method Trace(inv: Inventory, host: string, ip: string) returns (r: Result<Option<Shaping>>)
    requires HostHasVars(inv.inventory, host)
    ensures r == Traced(inv.inventory, inv.latency, host, ip)
  {
    var lat :- inv.GetLatency(host, ip);
    var hostRole :- inv.GetHostRole(Some(host));
    var remoteHost :- inv.GetIpHost(ip);
    var remoteRole :- inv.GetIpRole(ip);
    r := Ok(lat);
  }

  /** The bundle of one host: its remote addresses, their latencies, and the rest. */
  method Bundle(inv: Inventory, hosts: seq<string>, host: string) returns (r: Result<HostBundle>)
    requires AllHostsHaveVars(inv.inventory, hosts) && HostHasVars(inv.inventory, host)
    ensures r == PlanFor(inv.inventory, inv.latency, hosts, host)
  {
    ghost var doc, p := inv.inventory, inv.latency;
    var otherHosts := OtherHosts(hosts, host);
    var ips: seq<string> := [];
    var k := 0;
    while k < |hosts|
      invariant 0 <= k <= |hosts|
      invariant ips == RemoteIps(doc, hosts[..k], host)
    {
      var remote := hosts[k];
      RemoteIpsStep(doc, hosts, k, host);
      if remote != host {
        var tmp := inv.GetHostIps(remote);
        ips := ips + tmp;
      }
      k := k + 1;
    }
    assert hosts[..k] == hosts;
    var vips := inv.GetAllVips();
    ips := ips + vips;
    var latencies: map<string, Shaping> := map[];
    ghost var rs := Traces(doc, p, host, ips);
    var m := 0;
    while m < |ips|
      invariant 0 <= m <= |ips|
      invariant Collect(rs[..m]) == Ok(latencies)
    {
      var i := ips[m];
      var lat := Trace(inv, host, i);
      assert rs[m] == (i, lat);
      if lat.Err? {
        CollectStepErr(rs, m);
        CollectStop(rs, m + 1);
        return Err(lat.error);
      }
      CollectStepOk(rs, m);
      if lat.value.Some? {
        latencies := latencies[i := lat.value.value];
      }
      m := m + 1;
    }
    assert rs[..m] == rs;
    var allIps := ips;
    var own := inv.GetHostIps(host);
    allIps := allIps + own;
    var allLatencies := inv.GetAllLatencies();
    r := Ok(HostBundle(host, allIps, Join(ips, " "), otherHosts, latencies, allLatencies));
  }

  /** generate_latencies: the bundle of every host group but the undercloud's,
      in the order the scripts are written. */
  method GenerateLatencies(inv: Inventory) returns (r: Result<seq<HostBundle>>)
    ensures r == HostPlans(inv.inventory, inv.latency)
  {
    ghost var doc, p := inv.inventory, inv.latency;
    var hs :- inv.GetHosts();
    HostGroupsHaveVars(doc, hs);
    var hosts := Keys(hs);
    var bundles: seq<HostBundle> := [];
    ghost var rs := Candidates(doc, p, hosts, hosts);
    var n := 0;
    while n < |hosts|
      invariant 0 <= n <= |hosts|
      invariant Gather(rs[..n]) == Ok(bundles)
    {
      var host := hosts[n];
      GatherStepAt(rs, n);
      CandidateAt(doc, p, hosts, hosts, n);
      if !StartsWith(host, "undercloud") {
        var b := Bundle(inv, hosts, host);
        assert rs[n] == (host, b);
        if b.Err? {
          GatherStop(rs, n + 1);
          return Err(b.error);
        }
        bundles := bundles + [b.value];
      }
      n := n + 1;
    }
    assert rs[..n] == rs;
    r := Ok(bundles);
  }

  /** generate_distribution_script: the control-plane address of every host
      group but the undercloud's. */
  method GenerateDistributionScript(inv: Inventory) returns (r: Result<map<string, Option<string>>>)
    ensures r == DistributionHosts(inv.inventory)
  {
    ghost var doc := inv.inventory;
    var hs :- inv.GetHosts();
    HostGroupsHaveVars(doc, hs);
    var hosts := Keys(hs);
    var t: map<string, Option<string>> := map[];
    var i := 0;
    while i < |hosts|
      invariant 0 <= i <= |hosts|
      invariant t == Distribution(doc, hosts[..i])
    {
      var h := hosts[i];
      DistributionStep(doc, hosts, i);
      if !StartsWith(h, "undercloud") {
        t := t[h := HostIpOnNetwork(inv.inventory, h, "ctlplane")];
      }
      i := i + 1;
    }
    assert hosts[..i] == hosts;
    r := Ok(t);
  }
}
