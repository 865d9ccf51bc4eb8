/** The two parsed configuration documents the generator reads: the cluster
    inventory and the latency policy. A parsed mapping keeps its entries in
    document order, so every iteration over it is deterministic. */
module Documents {
  import opened Results

  /** A variable's value: a scalar (an address, a name) or a list of names. */
  datatype Value = Scalar(text: string) | List(items: seq<string>)

  /** A parsed mapping from names to values, in document order. */
  type Mapping<V> = seq<(string, V)>

  /** One inventory group. Each part is absent when the group does not declare it;
      of `hosts` and `children` only the names matter. */
  datatype Group = Group(vars: Option<Mapping<Value>>, hosts: Option<seq<string>>, children: Option<seq<string>>)

  type InventoryDoc = Mapping<Group>

  /** The latency policy. A section the document leaves out is the empty mapping:
      every query treats an absent section and an empty one alike. */
  datatype LatencyDoc = LatencyDoc(default: Option<string>, intra: Mapping<string>, inter: Mapping<string>)

  function Keys<V>(m: Mapping<V>): seq<string> {
    seq(|m|, i requires 0 <= i < |m| => m[i].0)
  }

  lemma {:induction false} KeysAppend<V>(m: Mapping<V>, e: (string, V))
    ensures Keys(m + [e]) == Keys(m) + [e.0]
  {
  }

  lemma {:induction false} InKeys<V>(m: Mapping<V>, k: string)
    ensures k in Keys(m) <==> exists v :: (k, v) in m
  {
    if k in Keys(m) {
      var i :| 0 <= i < |m| && Keys(m)[i] == k;
      assert (k, m[i].1) == m[i];
    }
    if exists v :: (k, v) in m {
      var v :| (k, v) in m;
      var i :| 0 <= i < |m| && m[i] == (k, v);
      assert Keys(m)[i] == k;
    }
  }

  predicate DistinctKeys<V>(m: Mapping<V>) {
    forall i, j :: 0 <= i < j < |m| ==> m[i].0 != m[j].0
  }

  predicate Distinct(s: seq<string>) {
    forall i, j :: 0 <= i < j < |s| ==> s[i] != s[j]
  }

  /** Python's `m[k]` on a mapping, as an option: the value of the first entry named k. */
  function Find<V(!new)>(m: Mapping<V>, k: string): (r: Option<V>)
    ensures r.Some? <==> k in Keys(m)
    ensures r.Some? ==> (k, r.value) in m
    ensures DistinctKeys(m) ==> forall v :: (k, v) in m ==> r == Some(v)
  {
    if m == [] then None
    else if m[0].0 == k then
      assert DistinctKeys(m) ==> forall v :: (k, v) in m[1..] ==> false;
      assert Keys(m)[0] == k;
      Some(m[0].1)
    else
      assert Keys(m) == [m[0].0] + Keys(m[1..]);
      assert forall v :: (k, v) in m ==> (k, v) in m[1..];
      Find(m[1..], k)
  }

  /** A role is a group whose `vars` declare `role_name`. */
  predicate IsRole(g: Group) {
    g.vars.Some? && "role_name" in Keys(g.vars.value)
  }

  /** A host group is a group that declares `hosts`. */
  predicate IsHostGroup(doc: InventoryDoc, name: string) {
    var g := Find(doc, name);
    g.Some? && g.value.hosts.Some?
  }

  /** A host group with a single host that declares `vars`; once get_hosts has
      succeeded, every host group has one host and, under WellFormed, `vars`. */
  predicate HostHasVars(doc: InventoryDoc, name: string) {
    var g := Find(doc, name);
    g.Some? && g.value.hosts.Some? && |g.value.hosts.value| == 1 && g.value.vars.Some?
  }

  function VarsOf(doc: InventoryDoc, name: string): Mapping<Value>
    requires HostHasVars(doc, name)
  {
    Find(doc, name).value.vars.value
  }

  /** Every enabled network `n` has a scalar `n_ip` variable. */
  predicate NetworksDeclared(v: Mapping<Value>) {
    match Find(v, "enabled_networks")
    case None => true
    case Some(nets) =>
      nets.List? && forall n :: n in nets.items ==> IpDeclared(v, n)
  }

  predicate IpDeclared(v: Mapping<Value>, net: string) {
    var ip := Find(v, net + "_ip");
    ip.Some? && ip.value.Scalar?
  }

  /** Every child of g names a host group. */
  predicate ChildrenAreHosts(doc: InventoryDoc, g: Group) {
    g.children.Some? && forall c :: c in g.children.value ==> IsHostGroup(doc, c)
  }

  predicate WellShaped(doc: InventoryDoc, g: Group) {
    && (g.vars.Some? ==> DistinctKeys(g.vars.value))
    && (g.hosts.Some? ==> Distinct(g.hosts.value))
    && (g.hosts.Some? && |g.hosts.value| == 1 ==> g.vars.Some? && NetworksDeclared(g.vars.value))
    && (g.children.Some? ==> Distinct(g.children.value))
    && (IsRole(g) ==> ChildrenAreHosts(doc, g))
  }

  /** The `overcloud` group's variables are all scalars (they are the VIPs), and
      when there is one, the `Controller` group has at least one host child. */
  predicate OvercloudShaped(doc: InventoryDoc) {
    match Find(doc, "overcloud")
    case None => false
    case Some(oc) =>
      oc.vars.Some? && |oc.vars.value| > 0 ==>
        && (forall e :: e in oc.vars.value ==> e.1.Scalar?)
        && ControllerShaped(doc)
  }

  predicate ControllerShaped(doc: InventoryDoc) {
    match Find(doc, "Controller")
    case None => false
    case Some(g) => ChildrenAreHosts(doc, g) && |g.children.value| > 0
  }

  /** What the queries take for granted about the inventory. Only a host group
      with a single host must declare `vars` and the `<net>_ip` of each enabled
      network: a group with several hosts makes get_hosts fail before anything
      reads them. Where a required part is missing, the source stops with a
      KeyError or an IndexError. */
  predicate WellFormed(doc: InventoryDoc) {
    && DistinctKeys(doc)
    && (forall e :: e in doc ==> WellShaped(doc, e.1))
    && OvercloudShaped(doc)
  }

  /** A parsed policy: its two sections are mappings, so their keys are distinct. */
  predicate PolicyWellFormed(p: LatencyDoc) {
    DistinctKeys(p.intra) && DistinctKeys(p.inter)
  }

  type Inventory = doc: InventoryDoc | WellFormed(doc)
    witness [("overcloud", Group(None, None, None))]

  type Policy = p: LatencyDoc | PolicyWellFormed(p)
    witness LatencyDoc(None, [], [])

  lemma {:induction false} GroupShape(doc: InventoryDoc, name: string)
    requires WellFormed(doc) && Find(doc, name).Some?
    ensures WellShaped(doc, Find(doc, name).value)
  {
  }
}
