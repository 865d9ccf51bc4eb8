/** The data generate_latencies and generate_distribution_script hand to the
    template renderer: one bundle per shaped host and one fleet-wide map. */
module ScriptPlan {
  import opened Results
  import opened Documents
  import opened Strings
  import opened InventoryModel
  import opened LatencyPolicy
  import opened Resolver

  /** The renderer's input for one host's script. */
  datatype HostBundle = HostBundle(
    host: string,
    allIps: seq<string>,
    otherIps: string,
    otherHosts: set<string>,
    latencies: map<string, Shaping>,
    allLatencies: map<string, int>)

  /** Administrative nodes get no script. */
  predicate Shaped(host: string) {
    !StartsWith(host, "undercloud")
  }

  predicate AllHostsHaveVars(doc: InventoryDoc, names: seq<string>) {
    forall n :: n in names ==> HostHasVars(doc, n)
  }

  /** The addresses of every group in `names` except `host`, group after group. */
  function RemoteIps(doc: InventoryDoc, names: seq<string>, host: string): seq<string>
    requires WellFormed(doc) && AllHostsHaveVars(doc, names)
  {
    if names == [] then []
    else
      var last := names[|names| - 1];
      RemoteIps(doc, names[..|names| - 1], host) + (if last == host then [] else HostIps(doc, last))
  }

  /** One address of generate_latencies's inner loop: get_latency, then the
      lookups the debug line evaluates for its arguments whatever the log level. */
  function Traced(doc: InventoryDoc, p: LatencyDoc, host: string, ip: string): Result<Option<Shaping>>
    requires WellFormed(doc) && HostHasVars(doc, host)
  {
    var lat :- Latency(doc, p, host, ip);
    var hostRole :- HostRole(doc, Some(host));
    var remoteHost :- IpHost(doc, ip);
    var remoteRole :- IpRole(doc, ip);
    Ok(lat)
  }

  /** Each address with what the inner loop computes for it. */
  function Traces(doc: InventoryDoc, p: LatencyDoc, host: string, ips: seq<string>): (rs: seq<(string, Result<Option<Shaping>>)>)
    requires WellFormed(doc) && HostHasVars(doc, host)
    ensures |rs| == |ips|
    ensures forall i :: 0 <= i < |ips| ==> rs[i] == (ips[i], Traced(doc, p, host, ips[i]))
  {
    seq(|ips|, i requires 0 <= i < |ips| => (ips[i], Traced(doc, p, host, ips[i])))
  }

  /** The inner loop over the looked-up addresses: each resolved rule is stored
      under its address; the first failing address stops the loop with its error. */
  function Collect(rs: seq<(string, Result<Option<Shaping>>)>): Result<map<string, Shaping>> {
    if rs == [] then Ok(map[])
    else
      var (ip, r) := rs[|rs| - 1];
      var done :- Collect(rs[..|rs| - 1]);
      var lat :- r;
      Ok(if lat.Some? then done[ip := lat.value] else done)
  }

  /** The latency table of one host, over its remote addresses. */
  function ResolveAll(doc: InventoryDoc, p: LatencyDoc, host: string, ips: seq<string>): Result<map<string, Shaping>>
    requires WellFormed(doc) && HostHasVars(doc, host)
  {
    Collect(Traces(doc, p, host, ips))
  }

  /** The remote addresses of `host`: the other host groups' addresses, then the VIPs. */
  function Targets(doc: InventoryDoc, names: seq<string>, host: string): seq<string>
    requires WellFormed(doc) && AllHostsHaveVars(doc, names)
  {
    RemoteIps(doc, names, host) + AllVips(doc)
  }

  /** Every group of `names` but `host`. */
  function OtherHosts(names: seq<string>, host: string): (r: set<string>)
    ensures forall h :: h in r <==> h in names && h != host
  {
    (set n | n in names) - {host}
  }

  /** The bundle of one host. */
  function PlanFor(doc: InventoryDoc, p: LatencyDoc, names: seq<string>, host: string): Result<HostBundle>
    requires WellFormed(doc) && AllHostsHaveVars(doc, names) && HostHasVars(doc, host)
  {
    var ips := Targets(doc, names, host);
    var latencies :- ResolveAll(doc, p, host, ips);
    Ok(HostBundle(host, ips + HostIps(doc, host), Join(ips, " "), OtherHosts(names, host),
                  latencies, MarkTable(p)))
  }

  /** Each host of `todo` with the bundle it would get. */
  function Candidates(doc: InventoryDoc, p: LatencyDoc, names: seq<string>, todo: seq<string>): (rs: seq<(string, Result<HostBundle>)>)
    requires WellFormed(doc) && AllHostsHaveVars(doc, names) && AllHostsHaveVars(doc, todo)
    ensures |rs| == |todo|
  {
    seq(|todo|, i requires 0 <= i < |todo| => (todo[i], PlanFor(doc, p, names, todo[i])))
  }

  /** The i-th candidate is the i-th host with its bundle. */
  lemma {:induction false} CandidateAt(doc: InventoryDoc, p: LatencyDoc, names: seq<string>, todo: seq<string>, i: nat)
    requires WellFormed(doc) && AllHostsHaveVars(doc, names) && AllHostsHaveVars(doc, todo) && i < |todo|
    ensures HostHasVars(doc, todo[i])
    ensures Candidates(doc, p, names, todo)[i] == (todo[i], PlanFor(doc, p, names, todo[i]))
  {
    assert todo[i] in todo;
  }

  /** The outer loop of generate_latencies: unshaped hosts are skipped, the
      others' bundles kept in order; the first failing bundle stops the pass. */
  function Gather(rs: seq<(string, Result<HostBundle>)>): Result<seq<HostBundle>> {
    if rs == [] then Ok([])
    else
      var (host, r) := rs[|rs| - 1];
      var done :- Gather(rs[..|rs| - 1]);
      if !Shaped(host) then Ok(done)
      else
        var b :- r;
        Ok(done + [b])
  }

  /** generate_latencies: a bundle for every shaped host group. */
  function HostPlans(doc: InventoryDoc, p: LatencyDoc): Result<seq<HostBundle>>
    requires WellFormed(doc)
  {
    var hs :- Hosts(doc);
    HostGroupsHaveVars(doc, hs);
    Gather(Candidates(doc, p, Keys(hs), Keys(hs)))
  }

  /** Each shaped group of `names` mapped to its control-plane address. */
  function Distribution(doc: InventoryDoc, names: seq<string>): map<string, Option<string>>
    requires WellFormed(doc) && AllHostsHaveVars(doc, names)
  {
    if names == [] then map[]
    else
      var last := names[|names| - 1];
      var t := Distribution(doc, names[..|names| - 1]);
      if Shaped(last) then t[last := HostIpOnNetwork(doc, last, "ctlplane")] else t
  }

  /** generate_distribution_script: the map handed to the renderer under `hosts`. */
  function DistributionHosts(doc: InventoryDoc): Result<map<string, Option<string>>>
    requires WellFormed(doc)
  {
    var hs :- Hosts(doc);
    HostGroupsHaveVars(doc, hs);
    Ok(Distribution(doc, Keys(hs)))
  }

  // ---------------------------------------------------------------- lemmas

  /** One more group's addresses. */
  lemma {:induction false} RemoteIpsStep(doc: InventoryDoc, names: seq<string>, k: nat, host: string)
    requires WellFormed(doc) && AllHostsHaveVars(doc, names) && k < |names|
    ensures HostHasVars(doc, names[k])
    ensures RemoteIps(doc, names[..k + 1], host) ==
      RemoteIps(doc, names[..k], host) + (if names[k] == host then [] else HostIps(doc, names[k]))
  {
    assert names[k] in names;
    var s := names[..k + 1];
    assert s[..|s| - 1] == names[..k];
  }

  /** One more address: a failing address ends the loop with its error. */
  lemma {:induction false} CollectStepErr(rs: seq<(string, Result<Option<Shaping>>)>, k: nat)
    requires k < |rs| && Collect(rs[..k]).Ok? && rs[k].1.Err?
    ensures Collect(rs[..k + 1]) == Err(rs[k].1.error)
  {
    var s := rs[..k + 1];
    assert s[..|s| - 1] == rs[..k];
  }

  /** One more address: its rule, if any, is added to the table. */
  lemma {:induction false} CollectStepOk(rs: seq<(string, Result<Option<Shaping>>)>, k: nat)
    requires k < |rs| && Collect(rs[..k]).Ok? && rs[k].1.Ok?
    ensures var done, lat := Collect(rs[..k]).value, rs[k].1.value;
      Collect(rs[..k + 1]) == Ok(if lat.Some? then done[rs[k].0 := lat.value] else done)
  {
    var s := rs[..k + 1];
    assert s[..|s| - 1] == rs[..k];
  }

  /** One more host of the pass: skipped, its error, or its bundle appended. */
  lemma {:induction false} GatherStepAt(rs: seq<(string, Result<HostBundle>)>, k: nat)
    requires k < |rs| && Gather(rs[..k]).Ok?
    ensures !Shaped(rs[k].0) ==> Gather(rs[..k + 1]) == Gather(rs[..k])
    ensures Shaped(rs[k].0) && rs[k].1.Err? ==> Gather(rs[..k + 1]) == Err(rs[k].1.error)
    ensures Shaped(rs[k].0) && rs[k].1.Ok? ==> Gather(rs[..k + 1]) == Ok(Gather(rs[..k]).value + [rs[k].1.value])
  {
    var s := rs[..k + 1];
    assert s[..|s| - 1] == rs[..k];
  }

  /** One more group of the distribution map. */
  lemma {:induction false} DistributionStep(doc: InventoryDoc, names: seq<string>, k: nat)
    requires WellFormed(doc) && AllHostsHaveVars(doc, names) && k < |names|
    ensures HostHasVars(doc, names[k])
    ensures Distribution(doc, names[..k + 1]) ==
      if Shaped(names[k]) then Distribution(doc, names[..k])[names[k] := HostIpOnNetwork(doc, names[k], "ctlplane")]
      else Distribution(doc, names[..k])
  {
    assert names[k] in names;
    var s := names[..k + 1];
    assert s[..|s| - 1] == names[..k];
  }

  /** An error at a prefix of the addresses is the error of the whole loop. */
  lemma {:induction false} CollectStop(rs: seq<(string, Result<Option<Shaping>>)>, k: nat)
    requires k <= |rs| && Collect(rs[..k]).Err?
    ensures Collect(rs) == Collect(rs[..k])
    decreases |rs| - k
  {
    if k < |rs| {
      var init := rs[..|rs| - 1];
      assert init[..k] == rs[..k];
      CollectStop(init, k);
    } else {
      assert rs[..k] == rs;
    }
  }

  /** An error at a prefix of the hosts is the error of the whole pass. */
  lemma {:induction false} GatherStop(rs: seq<(string, Result<HostBundle>)>, k: nat)
    requires k <= |rs| && Gather(rs[..k]).Err?
    ensures Gather(rs) == Gather(rs[..k])
    decreases |rs| - k
  {
    if k < |rs| {
      var init := rs[..|rs| - 1];
      assert init[..k] == rs[..k];
      GatherStop(init, k);
    } else {
      assert rs[..k] == rs;
    }
  }

  lemma {:induction false} RemoteIpsMembers(doc: InventoryDoc, names: seq<string>, host: string, ip: string)
    requires WellFormed(doc) && AllHostsHaveVars(doc, names)
    ensures ip in RemoteIps(doc, names, host) <==> exists r :: r in names && r != host && ip in HostIps(doc, r)
  {
    if names != [] {
      var init, last := names[..|names| - 1], names[|names| - 1];
      assert forall n :: n in names <==> n in init || n == last;
      RemoteIpsMembers(doc, init, host, ip);
    }
  }

  /** get_ip_role never fails once get_latency's own lookups of the address have succeeded. */
  lemma {:induction false} IpRoleAfterLatency(doc: InventoryDoc, ip: string)
    requires WellFormed(doc) && IpHost(doc, ip).Ok? && HostRole(doc, IpHost(doc, ip).value).Ok?
    ensures IpRole(doc, ip).Ok?
  {
  }

  lemma {:induction false} TracedOk(doc: InventoryDoc, p: LatencyDoc, host: string, ip: string)
    requires WellFormed(doc) && HostHasVars(doc, host)
    ensures Traced(doc, p, host, ip).Ok? ==> Traced(doc, p, host, ip) == Latency(doc, p, host, ip)
  {
    var lat := Latency(doc, p, host, ip);
    if lat.Ok? && HostRole(doc, Some(host)).Ok? && IpHost(doc, ip).Ok? && IpRole(doc, ip).Ok? {
      assert Traced(doc, p, host, ip) == Ok(lat.value);
    }
  }

  /** The debug line can only fail where get_latency stops at its own-address
      check: on any other address it repeats lookups get_latency has made. */
  lemma {:induction false} TracedIsLatency(doc: InventoryDoc, p: LatencyDoc, host: string, ip: string)
    requires WellFormed(doc) && HostHasVars(doc, host)
    ensures Traced(doc, p, host, ip).Ok? ==> Traced(doc, p, host, ip) == Latency(doc, p, host, ip)
    ensures ip !in HostIps(doc, host) ==> Traced(doc, p, host, ip) == Latency(doc, p, host, ip)
  {
    TracedOk(doc, p, host, ip);
    var lat := Latency(doc, p, host, ip);
    if ip !in HostIps(doc, host) && lat.Ok? {
      LatencySteps(doc, p, host, ip);
      IpRoleAfterLatency(doc, ip);
      assert Traced(doc, p, host, ip) == lat;
    }
  }

  /** The loop succeeds exactly when no address fails; the table then holds
      exactly the addresses with a rule, each with a rule computed for it. */
  lemma {:induction false} CollectTable(rs: seq<(string, Result<Option<Shaping>>)>)
    ensures Collect(rs).Ok? <==> forall i :: 0 <= i < |rs| ==> rs[i].1.Ok?
    ensures Collect(rs).Ok? ==> forall ip :: ip in Collect(rs).value <==>
      exists i :: 0 <= i < |rs| && rs[i].0 == ip && rs[i].1.Ok? && rs[i].1.value.Some?
    ensures Collect(rs).Ok? ==> forall ip :: ip in Collect(rs).value ==>
      exists i :: 0 <= i < |rs| && rs[i].0 == ip && rs[i].1 == Ok(Some(Collect(rs).value[ip]))
  {
    if rs != [] {
      var k := |rs| - 1;
      var init := rs[..k];
      assert rs[..k + 1] == rs;
      CollectTable(init);
      assert forall i :: 0 <= i < k ==> init[i] == rs[i];
      if Collect(init).Err? {
        CollectStop(rs, k);
      } else if rs[k].1.Err? {
        CollectStepErr(rs, k);
      } else {
        CollectStepOk(rs, k);
        var done, lat := Collect(init).value, rs[k].1.value;
        forall ip | ip in Collect(rs).value
          ensures exists i :: 0 <= i < |rs| && rs[i].0 == ip && rs[i].1 == Ok(Some(Collect(rs).value[ip]))
        {
          if lat.Some? && ip == rs[k].0 {
            assert rs[k].1 == Ok(Some(Collect(rs).value[ip]));
          } else {
            var i :| 0 <= i < k && init[i].0 == ip && init[i].1 == Ok(Some(done[ip]));
            assert rs[i] == init[i];
          }
        }
      }
    }
  }

  /** The latency table of a bundle holds exactly the addresses with a resolved
      rule, each with get_latency's result; it succeeds exactly when every
      address passes get_latency and the debug line without error. */
  lemma {:induction false} ResolveAllTable(doc: InventoryDoc, p: LatencyDoc, host: string, ips: seq<string>)
    requires WellFormed(doc) && HostHasVars(doc, host)
    ensures ResolveAll(doc, p, host, ips).Ok? <==> forall ip :: ip in ips ==> Traced(doc, p, host, ip).Ok?
    ensures ResolveAll(doc, p, host, ips).Ok? ==>
      forall ip :: ip in ResolveAll(doc, p, host, ips).value <==>
        ip in ips && Latency(doc, p, host, ip).Ok? && Latency(doc, p, host, ip).value.Some?
    ensures ResolveAll(doc, p, host, ips).Ok? ==>
      forall ip :: ip in ResolveAll(doc, p, host, ips).value ==>
        Latency(doc, p, host, ip) == Ok(Some(ResolveAll(doc, p, host, ips).value[ip]))
  {
    var rs := Traces(doc, p, host, ips);
    CollectTable(rs);
    forall ip | ip in ips ensures Traced(doc, p, host, ip).Ok? ==> Traced(doc, p, host, ip) == Latency(doc, p, host, ip) {
      TracedOk(doc, p, host, ip);
    }
    if Collect(rs).Ok? {
      var m := Collect(rs).value;
      forall ip ensures ip in m <==> ip in ips && Latency(doc, p, host, ip).Ok? && Latency(doc, p, host, ip).value.Some? {
        if ip in ips {
          var i :| 0 <= i < |ips| && ips[i] == ip;
          assert rs[i].1.Ok?;
        }
        if ip in m {
          var i :| 0 <= i < |rs| && rs[i].0 == ip && rs[i].1.Ok? && rs[i].1.value.Some?;
          assert ips[i] == ip;
        }
      }
      forall ip | ip in m ensures Latency(doc, p, host, ip) == Ok(Some(m[ip])) {
        var i :| 0 <= i < |rs| && rs[i].0 == ip && rs[i].1 == Ok(Some(m[ip]));
        assert ips[i] == ip;
      }
    } else {
      var i :| 0 <= i < |rs| && !rs[i].1.Ok?;
      assert ips[i] in ips;
    }
  }

  /** The remote addresses of a host are the other host groups' and the VIPs. */
  lemma {:induction false} TargetsMembers(doc: InventoryDoc, names: seq<string>, host: string)
    requires WellFormed(doc) && AllHostsHaveVars(doc, names)
    ensures forall ip :: ip in Targets(doc, names, host) <==>
      ip in AllVips(doc) || exists r :: r in names && r != host && ip in HostIps(doc, r)
  {
    forall ip ensures ip in Targets(doc, names, host) <==>
      ip in AllVips(doc) || exists r :: r in names && r != host && ip in HostIps(doc, r) {
      RemoteIpsMembers(doc, names, host, ip);
    }
  }

  /** The fields of a bundle: `all_ips` is the remote addresses followed by
      the host's own, `other_ips` the remote addresses joined by spaces,
      `other_hosts` every other group, and `all_latencies` the mark table. */
  lemma {:induction false} PlanForFields(doc: InventoryDoc, p: LatencyDoc, names: seq<string>, host: string)
    requires WellFormed(doc) && AllHostsHaveVars(doc, names) && HostHasVars(doc, host)
    ensures PlanFor(doc, p, names, host).Ok? <==> ResolveAll(doc, p, host, Targets(doc, names, host)).Ok?
    ensures PlanFor(doc, p, names, host).Ok? ==> PlanFor(doc, p, names, host).value.host == host
    ensures PlanFor(doc, p, names, host).Ok? ==> PlanFor(doc, p, names, host).value.allIps == Targets(doc, names, host) + HostIps(doc, host)
    ensures PlanFor(doc, p, names, host).Ok? ==> PlanFor(doc, p, names, host).value.otherIps == Join(Targets(doc, names, host), " ")
    ensures PlanFor(doc, p, names, host).Ok? ==> PlanFor(doc, p, names, host).value.latencies == ResolveAll(doc, p, host, Targets(doc, names, host)).value
    ensures PlanFor(doc, p, names, host).Ok? ==> PlanFor(doc, p, names, host).value.otherHosts == OtherHosts(names, host)
    ensures PlanFor(doc, p, names, host).Ok? ==> PlanFor(doc, p, names, host).value.allLatencies == MarkTable(p)
  {
  }

  /** A bundle's `other_hosts` is every group of the pass but the host itself. */
  lemma {:induction false} PlanForOtherHosts(doc: InventoryDoc, p: LatencyDoc, names: seq<string>, host: string)
    requires WellFormed(doc) && AllHostsHaveVars(doc, names) && HostHasVars(doc, host)
    requires PlanFor(doc, p, names, host).Ok?
    ensures forall h :: h in PlanFor(doc, p, names, host).value.otherHosts <==> h in names && h != host
  {
    PlanForFields(doc, p, names, host);
  }

  /** The latency table of a bundle covers exactly the remote addresses with a
      resolved rule, each with get_latency's answer, and never one of the
      host's own addresses. */
  lemma {:induction false} PlanForLatencies(doc: InventoryDoc, p: LatencyDoc, names: seq<string>, host: string)
    requires WellFormed(doc) && AllHostsHaveVars(doc, names) && HostHasVars(doc, host)
    requires PlanFor(doc, p, names, host).Ok?
    ensures forall ip :: ip in PlanFor(doc, p, names, host).value.latencies <==>
      ip in Targets(doc, names, host) && Latency(doc, p, host, ip).Ok? && Latency(doc, p, host, ip).value.Some?
    ensures forall ip :: ip in PlanFor(doc, p, names, host).value.latencies ==>
      Latency(doc, p, host, ip) == Ok(Some(PlanFor(doc, p, names, host).value.latencies[ip]))
    ensures forall ip :: ip in PlanFor(doc, p, names, host).value.latencies ==> ip !in HostIps(doc, host)
  {
    var ips := Targets(doc, names, host);
    PlanForFields(doc, p, names, host);
    ResolveAllTable(doc, p, host, ips);
    var m := ResolveAll(doc, p, host, ips).value;
    forall ip | ip in m ensures ip !in HostIps(doc, host) {
      if ip in HostIps(doc, host) {
        NoSelfShaping(doc, p, host, ip);
      }
    }
  }

  /** The host names of a run of bundles. */
  function BundleHosts(bs: seq<HostBundle>): seq<string> {
    seq(|bs|, i requires 0 <= i < |bs| => bs[i].host)
  }

  /** The groups of `names` that get a script, in order. */
  function ShapedOnly(names: seq<string>): (r: seq<string>)
    ensures forall h :: h in r <==> h in names && Shaped(h)
  {
    if names == [] then []
    else
      var last := names[|names| - 1];
      assert forall h :: h in names <==> h in names[..|names| - 1] || h == last;
      ShapedOnly(names[..|names| - 1]) + (if Shaped(last) then [last] else [])
  }

  lemma {:induction false} PlanForHost(doc: InventoryDoc, p: LatencyDoc, names: seq<string>, host: string)
    requires WellFormed(doc) && AllHostsHaveVars(doc, names) && HostHasVars(doc, host)
    requires PlanFor(doc, p, names, host).Ok?
    ensures PlanFor(doc, p, names, host).value.host == host
  {
  }

  lemma {:induction false} BundleHostsAppend(bs: seq<HostBundle>, b: HostBundle)
    ensures BundleHosts(bs + [b]) == BundleHosts(bs) + [b.host]
  {
  }

  /** Every bundle a candidate carries names the candidate's host. */
  predicate OwnBundles(rs: seq<(string, Result<HostBundle>)>) {
    forall i :: 0 <= i < |rs| && rs[i].1.Ok? ==> rs[i].1.value.host == rs[i].0
  }

  /** The pass fails exactly when some shaped host's bundle fails. */
  lemma {:induction false} GatherFails(rs: seq<(string, Result<HostBundle>)>)
    ensures Gather(rs).Err? <==> exists i :: 0 <= i < |rs| && Shaped(rs[i].0) && rs[i].1.Err?
  {
    if rs != [] {
      var k := |rs| - 1;
      var init := rs[..k];
      assert rs[..k + 1] == rs;
      GatherFails(init);
      assert forall i :: 0 <= i < k ==> init[i] == rs[i];
      if Gather(init).Err? {
        GatherStop(rs, k);
      } else {
        GatherStepAt(rs, k);
      }
    }
  }

  /** The bundles are those of the shaped hosts, one each, in order. */
  lemma {:induction false} GatherHosts(rs: seq<(string, Result<HostBundle>)>)
    requires OwnBundles(rs) && Gather(rs).Ok?
    ensures BundleHosts(Gather(rs).value) == ShapedOnly(Keys(rs))
  {
    if rs != [] {
      var k := |rs| - 1;
      var init := rs[..k];
      assert rs[..k + 1] == rs;
      assert OwnBundles(init) by {
        forall i | 0 <= i < k && init[i].1.Ok? ensures init[i].1.value.host == init[i].0 {
          assert init[i] == rs[i];
        }
      }
      GatherHosts(init);
      GatherStepAt(rs, k);
      assert Keys(rs)[..k] == Keys(init);
      var done := Gather(init).value;
      if Shaped(rs[k].0) {
        BundleHostsAppend(done, rs[k].1.value);
      } else {
        assert BundleHosts(done) + [] == BundleHosts(done);
      }
    }
  }

  /** Each bundle kept is the one of a shaped candidate. */
  lemma {:induction false} GatherBundles(rs: seq<(string, Result<HostBundle>)>)
    requires Gather(rs).Ok?
    ensures forall b :: b in Gather(rs).value ==> exists i :: 0 <= i < |rs| && Shaped(rs[i].0) && rs[i].1 == Ok(b)
  {
    if rs != [] {
      var k := |rs| - 1;
      var init := rs[..k];
      assert rs[..k + 1] == rs;
      GatherBundles(init);
      GatherStepAt(rs, k);
      var done := Gather(init).value;
      forall b | b in Gather(rs).value
        ensures exists i :: 0 <= i < |rs| && Shaped(rs[i].0) && rs[i].1 == Ok(b)
      {
        if b in done {
          var i :| 0 <= i < |init| && Shaped(init[i].0) && init[i].1 == Ok(b);
          assert rs[i] == init[i];
        } else {
          assert Shaped(rs[k].0) && rs[k].1 == Ok(b);
        }
      }
    }
  }

  /** The candidates of a pass carry their own hosts' bundles. */
  lemma {:induction false} CandidatesOwn(doc: InventoryDoc, p: LatencyDoc, names: seq<string>, todo: seq<string>)
    requires WellFormed(doc) && AllHostsHaveVars(doc, names) && AllHostsHaveVars(doc, todo)
    ensures OwnBundles(Candidates(doc, p, names, todo))
    ensures Keys(Candidates(doc, p, names, todo)) == todo
  {
    var rs := Candidates(doc, p, names, todo);
    forall i | 0 <= i < |rs| && rs[i].1.Ok? ensures rs[i].1.value.host == rs[i].0 {
      CandidateAt(doc, p, names, todo, i);
      PlanForHost(doc, p, names, todo[i]);
    }
    assert forall i :: 0 <= i < |rs| ==> Keys(rs)[i] == rs[i].0;
    forall i | 0 <= i < |rs| ensures Keys(rs)[i] == todo[i] {
      CandidateAt(doc, p, names, todo, i);
    }
  }

  /** generate_latencies produces one bundle per host group not named
      `undercloud...`, in inventory order, each that host's own bundle built
      against all host groups. */
  lemma {:induction false} HostPlansCover(doc: InventoryDoc, p: LatencyDoc)
    requires WellFormed(doc) && HostPlans(doc, p).Ok?
    ensures Hosts(doc).Ok?
    ensures BundleHosts(HostPlans(doc, p).value) == ShapedOnly(Keys(Hosts(doc).value))
    ensures forall h :: h in BundleHosts(HostPlans(doc, p).value) <==> IsHostGroup(doc, h) && Shaped(h)
    ensures forall b :: b in HostPlans(doc, p).value ==>
      && IsHostGroup(doc, b.host) && HostHasVars(doc, b.host) && AllHostsHaveVars(doc, Keys(Hosts(doc).value))
      && PlanFor(doc, p, Keys(Hosts(doc).value), b.host) == Ok(b)
  {
    var hs := Hosts(doc).value;
    HostGroups(doc, hs);
    HostGroupsHaveVars(doc, hs);
    var names := Keys(hs);
    var rs := Candidates(doc, p, names, names);
    assert HostPlans(doc, p) == Gather(rs);
    CandidatesOwn(doc, p, names, names);
    GatherHosts(rs);
    GatherBundles(rs);
    forall b | b in Gather(rs).value
      ensures IsHostGroup(doc, b.host) && HostHasVars(doc, b.host) && PlanFor(doc, p, names, b.host) == Ok(b)
    {
      var i :| 0 <= i < |rs| && Shaped(rs[i].0) && rs[i].1 == Ok(b);
      CandidateAt(doc, p, names, names, i);
      PlanForHost(doc, p, names, names[i]);
    }
  }

  /** generate_latencies fails with get_hosts's error when get_hosts fails, and
      otherwise exactly when the bundle of some host group not named
      `undercloud...` does. */
  lemma {:induction false} HostPlansFail(doc: InventoryDoc, p: LatencyDoc)
    requires WellFormed(doc)
    ensures Hosts(doc).Err? ==> HostPlans(doc, p) == Err(Hosts(doc).error)
    ensures Hosts(doc).Ok? ==> AllHostsHaveVars(doc, Keys(Hosts(doc).value))
    ensures Hosts(doc).Ok? && AllHostsHaveVars(doc, Keys(Hosts(doc).value)) ==>
      var names := Keys(Hosts(doc).value);
      HostPlans(doc, p).Err? <==> exists i :: 0 <= i < |names| && Shaped(names[i]) && PlanFor(doc, p, names, names[i]).Err?
  {
    if Hosts(doc).Ok? {
      var hs := Hosts(doc).value;
      HostGroupsHaveVars(doc, hs);
      var names := Keys(hs);
      var rs := Candidates(doc, p, names, names);
      assert HostPlans(doc, p) == Gather(rs);
      GatherFails(rs);
      forall i | 0 <= i < |names| ensures rs[i].0 == names[i] && rs[i].1 == PlanFor(doc, p, names, names[i]) {
        CandidateAt(doc, p, names, names, i);
      }
    }
  }


  lemma {:induction false} DistributionTable(doc: InventoryDoc, names: seq<string>)
    requires WellFormed(doc) && AllHostsHaveVars(doc, names)
    ensures forall h :: h in Distribution(doc, names) <==> h in names && Shaped(h)
    ensures forall h :: h in Distribution(doc, names) ==>
      HostHasVars(doc, h) && Distribution(doc, names)[h] == HostIpOnNetwork(doc, h, "ctlplane")
  {
    if names != [] {
      var init := names[..|names| - 1];
      assert forall n :: n in names <==> n in init || n == names[|names| - 1];
      DistributionTable(doc, init);
    }
  }

  /** generate_distribution_script maps exactly the shaped host groups, each to
      its control-plane address, and fails exactly when get_hosts does. */
  lemma {:induction false} DistributionCovers(doc: InventoryDoc)
    requires WellFormed(doc)
    ensures DistributionHosts(doc).Ok? <==> Hosts(doc).Ok?
    ensures DistributionHosts(doc).Ok? ==>
      var t := DistributionHosts(doc).value;
      && (forall h :: h in t <==> IsHostGroup(doc, h) && Shaped(h))
      && (forall h :: h in t ==> HostHasVars(doc, h) && t[h] == HostIpOnNetwork(doc, h, "ctlplane"))
  {
    if Hosts(doc).Ok? {
      var hs := Hosts(doc).value;
      HostGroups(doc, hs);
      HostGroupsHaveVars(doc, hs);
      DistributionTable(doc, Keys(hs));
    }
  }
}
