/** The latency-policy queries of generateqos.py: the per-role and per-role-pair
    lookups and the table that assigns a traffic-control mark to each latency value. */
module LatencyPolicy {
  import opened Results
  import opened Documents

  // ---------------------------------------------------------------- lookups

  /** get_intra_role_latency: the latency declared for the role itself; a missing
      role (a host in no role) has none. */
  function IntraRoleLatency(p: LatencyDoc, role: Option<string>): (r: Option<string>)
    ensures r.Some? ==> role.Some? && (role.value, r.value) in p.intra
    ensures role.Some? && (exists v :: (role.value, v) in p.intra) ==> r.Some?
    ensures role.Some? && DistinctKeys(p.intra) ==> forall v :: (role.value, v) in p.intra ==> r == Some(v)
  {
    if role.None? then None
    else
      InKeys(p.intra, role.value);
      Find(p.intra, role.value)
  }

  /** Python's "%s" of a role: a missing role prints as `None`. */
  function RoleText(role: Option<string>): string {
    if role.None? then "None" else role.value
  }

  /** The policy key "role1_role2". */
  function PairKey(a: Option<string>, b: Option<string>): string {
    RoleText(a) + "_" + RoleText(b)
  }

  /** The values of the entries whose key is `ka` or `kb`, in document order. */
  function Connection(m: Mapping<string>, ka: string, kb: string): seq<string> {
    if m == [] then []
    else
      var last := m[|m| - 1];
      Connection(m[..|m| - 1], ka, kb) + (if last.0 == ka || last.0 == kb then [last.1] else [])
  }

  /** get_inter_role_latency: the latency declared for the pair under either order
      of its key; declaring both orders is an error. */
  function InterRoleLatency(p: LatencyDoc, a: Option<string>, b: Option<string>): Result<Option<string>> {
    var conn := Connection(p.inter, PairKey(a, b), PairKey(b, a));
    if |conn| > 1 then Err(BothOrders(conn))
    else if |conn| == 1 then Ok(Some(conn[0]))
    else Ok(None)
  }

  lemma {:induction false} ConnectionSymmetric(m: Mapping<string>, ka: string, kb: string)
    ensures Connection(m, ka, kb) == Connection(m, kb, ka)
  {
    if m != [] {
      ConnectionSymmetric(m[..|m| - 1], ka, kb);
    }
  }

  /** The inter-role lookup does not depend on the order of its arguments, not
      even in the error it reports. */
  lemma {:induction false} InterRoleSymmetric(p: LatencyDoc, a: Option<string>, b: Option<string>)
    ensures InterRoleLatency(p, a, b) == InterRoleLatency(p, b, a)
  {
    ConnectionSymmetric(p.inter, PairKey(a, b), PairKey(b, a));
  }

  /** How many entries of m have key k. */
  function KeyCount(m: Mapping<string>, k: string): nat {
    if m == [] then 0
    else KeyCount(m[..|m| - 1], k) + (if m[|m| - 1].0 == k then 1 else 0)
  }

  lemma {:induction false} ConnectionCount(m: Mapping<string>, ka: string, kb: string)
    ensures |Connection(m, ka, kb)| == KeyCount(m, ka) + (if kb != ka then KeyCount(m, kb) else 0)
    ensures forall v :: v in Connection(m, ka, kb) <==> (ka, v) in m || (kb, v) in m
  {
    if m != [] {
      var init, last := m[..|m| - 1], m[|m| - 1];
      ConnectionCount(init, ka, kb);
      assert m == init + [last];
      assert forall e :: e in m <==> e in init || e == last;
    }
  }

  lemma {:induction false} KeyCountDistinct(m: Mapping<string>, k: string)
    requires DistinctKeys(m)
    ensures KeyCount(m, k) == if k in Keys(m) then 1 else 0
  {
    if m != [] {
      var init, last := m[..|m| - 1], m[|m| - 1];
      KeyCountDistinct(init, k);
      KeysAppend(init, last);
      assert m == init + [last];
      if last.0 == k {
        assert k !in Keys(init) by {
          forall i | 0 <= i < |init| ensures init[i].0 != k { assert m[i] == init[i]; }
        }
      }
    }
  }

  /** get_inter_role_latency on a parsed policy: an error exactly when both
      orders of the key are declared (and differ), none exactly when neither is,
      and otherwise the value declared under one of them. */
  lemma {:induction false} InterRoleCases(p: LatencyDoc, a: Option<string>, b: Option<string>)
    requires PolicyWellFormed(p)
    ensures InterRoleLatency(p, a, b).Err? <==>
      PairKey(a, b) != PairKey(b, a) && PairKey(a, b) in Keys(p.inter) && PairKey(b, a) in Keys(p.inter)
    ensures InterRoleLatency(p, a, b).Ok? && InterRoleLatency(p, a, b).value.None? <==>
      PairKey(a, b) !in Keys(p.inter) && PairKey(b, a) !in Keys(p.inter)
    ensures InterRoleLatency(p, a, b).Ok? && InterRoleLatency(p, a, b).value.Some? ==>
      var v := InterRoleLatency(p, a, b).value.value;
      (PairKey(a, b), v) in p.inter || (PairKey(b, a), v) in p.inter
  {
    var ka, kb := PairKey(a, b), PairKey(b, a);
    ConnectionCount(p.inter, ka, kb);
    KeyCountDistinct(p.inter, ka);
    KeyCountDistinct(p.inter, kb);
    var conn := Connection(p.inter, ka, kb);
    if |conn| == 1 {
      assert conn[0] in conn;
    }
  }

  // ---------------------------------------------------------------- marks

  /** The slots get_all_latencies visits, each with the mark it assigns: the
      default at 10, the i-th intra-role entry at 11 + i, the j-th inter-role
      entry at 11 + |intra| + j. The default's slot is used up even without a
      default. */
  function Visits(p: LatencyDoc): seq<(string, int)> {
    (if p.default.Some? then [(p.default.value, 10)] else [])
    + Entries(p.intra, 11)
    + Entries(p.inter, 11 + |p.intra|)
  }

  /** The values of a section's entries, numbered from `base` in order. */
  function Entries(m: Mapping<string>, base: int): seq<(string, int)> {
    seq(|m|, i requires 0 <= i < |m| => (m[i].1, base + i))
  }

  /** Storing the visits one after another into a map: a later visit of a value
      overwrites an earlier one. */
  function Overwrite(vs: seq<(string, int)>): map<string, int> {
    if vs == [] then map[]
    else
      var last := vs[|vs| - 1];
      Overwrite(vs[..|vs| - 1])[last.0 := last.1]
  }

  /** The value -> mark table of get_all_latencies. */
  function MarkTable(p: LatencyDoc): map<string, int> {
    Overwrite(Visits(p))
  }

  /** A value is in the table exactly when it is visited. */
  lemma {:induction false} OverwriteKeys(vs: seq<(string, int)>, k: string)
    ensures k in Overwrite(vs) <==> exists i :: 0 <= i < |vs| && vs[i].0 == k
  {
    if vs != [] {
      var init := vs[..|vs| - 1];
      OverwriteKeys(init, k);
      assert forall i :: 0 <= i < |init| ==> vs[i] == init[i];
    }
  }

  /** ... and its mark is that of its last visit. */
  lemma {:induction false} OverwriteLast(vs: seq<(string, int)>, k: string)
    ensures k in Overwrite(vs) <==> exists i :: 0 <= i < |vs| && vs[i].0 == k
    ensures k in Overwrite(vs) ==>
      exists i :: 0 <= i < |vs| && vs[i] == (k, Overwrite(vs)[k]) && forall j :: i < j < |vs| ==> vs[j].0 != k
  {
    OverwriteKeys(vs, k);
    if vs != [] {
      var init, last := vs[..|vs| - 1], vs[|vs| - 1];
      if last.0 == k {
        assert vs[|vs| - 1] == (k, Overwrite(vs)[k]);
      } else if k in Overwrite(init) {
        OverwriteLast(init, k);
        var i :| 0 <= i < |init| && init[i] == (k, Overwrite(init)[k]) && forall j :: i < j < |init| ==> init[j].0 != k;
        assert vs[i] == init[i];
        assert vs[i] == (k, Overwrite(vs)[k]);
        assert forall j :: i < j < |vs| ==> vs[j].0 != k by {
          forall j | i < j < |vs| ensures vs[j].0 != k {
            if j < |init| { assert vs[j] == init[j]; }
          }
        }
      }
    }
  }

  /** One more visit stored. */
  lemma {:induction false} OverwriteStep(vs: seq<(string, int)>, k: nat)
    requires k < |vs|
    ensures Overwrite(vs[..k + 1]) == Overwrite(vs[..k])[vs[k].0 := vs[k].1]
  {
    assert vs[..k + 1][..k] == vs[..k];
  }

  /** The visit at `idx` is the last visit of its value, so its mark is the value's mark. */
  lemma {:induction false} OverwriteAt(vs: seq<(string, int)>, idx: int)
    requires 0 <= idx < |vs|
    requires forall j :: idx < j < |vs| ==> vs[j].0 != vs[idx].0
    ensures vs[idx].0 in Overwrite(vs) && Overwrite(vs)[vs[idx].0] == vs[idx].1
  {
    var k := vs[idx].0;
    OverwriteLast(vs, k);
  }

  lemma {:induction false} OverwriteInjective(vs: seq<(string, int)>)
    requires forall i, j :: 0 <= i < j < |vs| ==> vs[i].1 < vs[j].1
    ensures forall a, b :: a in Overwrite(vs) && b in Overwrite(vs) && a != b ==> Overwrite(vs)[a] != Overwrite(vs)[b]
  {
    forall a, b | a in Overwrite(vs) && b in Overwrite(vs) && a != b
      ensures Overwrite(vs)[a] != Overwrite(vs)[b]
    {
      OverwriteLast(vs, a);
      OverwriteLast(vs, b);
      var ia :| 0 <= ia < |vs| && vs[ia] == (a, Overwrite(vs)[a]) && forall j :: ia < j < |vs| ==> vs[j].0 != a;
      var ib :| 0 <= ib < |vs| && vs[ib] == (b, Overwrite(vs)[b]) && forall j :: ib < j < |vs| ==> vs[j].0 != b;
      assert ia != ib;
    }
  }

  function DefaultSlots(p: LatencyDoc): nat {
    if p.default.Some? then 1 else 0
  }

  lemma {:induction false} VisitsLength(p: LatencyDoc)
    ensures |Visits(p)| == DefaultSlots(p) + |p.intra| + |p.inter|
  {
  }

  /** What the k-th visit is: the default, an intra-role entry or an inter-role
      entry, and its mark 11 + k less the default's slot. */
  lemma {:induction false} VisitAt(p: LatencyDoc, k: int)
    requires 0 <= k < |Visits(p)|
    ensures Visits(p)[k].1 == 11 + k - DefaultSlots(p)
    ensures k < DefaultSlots(p) ==> k == 0 && Visits(p)[k].0 == p.default.value
    ensures DefaultSlots(p) <= k < DefaultSlots(p) + |p.intra| ==> Visits(p)[k].0 == p.intra[k - DefaultSlots(p)].1
    ensures DefaultSlots(p) + |p.intra| <= k ==>
      k - DefaultSlots(p) - |p.intra| < |p.inter| && Visits(p)[k].0 == p.inter[k - DefaultSlots(p) - |p.intra|].1
  {
  }

  /** The table before any entry: the default alone, at mark 10. */
  function StartMarks(p: LatencyDoc): map<string, int> {
    if p.default.Some? then map[p.default.value := 10] else map[]
  }

  /** A section's loop of get_all_latencies: its entries' values stored into
      `m` one after another, at marks counting up from `base`. */
  function Stored(m: map<string, int>, entries: Mapping<string>, base: int): map<string, int> {
    if entries == [] then m
    else
      var last := entries[|entries| - 1];
      Stored(m, entries[..|entries| - 1], base)[last.1 := base + |entries| - 1]
  }

  /** One more entry of a section's loop. */
  lemma {:induction false} StoredStep(m: map<string, int>, entries: Mapping<string>, base: int, i: nat)
    requires i < |entries|
    ensures Stored(m, entries[..i + 1], base) == Stored(m, entries[..i], base)[entries[i].1 := base + i]
  {
    var s := entries[..i + 1];
    assert s[..|s| - 1] == entries[..i];
  }

  /** Storing a section's entries after some visits is storing them into the
      table those visits leave. */
  lemma {:induction false} OverwriteEntries(vs: seq<(string, int)>, m: Mapping<string>, base: int)
    ensures Overwrite(vs + Entries(m, base)) == Stored(Overwrite(vs), m, base)
  {
    if m == [] {
      assert vs + Entries(m, base) == vs;
    } else {
      var init := m[..|m| - 1];
      OverwriteEntries(vs, init, base);
      var all := vs + Entries(m, base);
      assert all[..|all| - 1] == vs + Entries(init, base);
    }
  }

  /** The two loops of get_all_latencies, run after the default, build the
      whole table. */
  lemma {:induction false} MarksEnd(p: LatencyDoc)
    ensures Stored(Stored(StartMarks(p), p.intra, 11), p.inter, 11 + |p.intra|) == MarkTable(p)
  {
    var d := if p.default.Some? then [(p.default.value, 10)] else [];
    if p.default.Some? {
      assert d[..0] == [];
    }
    assert Overwrite(d) == StartMarks(p);
    OverwriteEntries(d, p.intra, 11);
    OverwriteEntries(d + Entries(p.intra, 11), p.inter, 11 + |p.intra|);
  }

  /** Marks strictly increase along the visits. */
  lemma {:induction false} VisitsIncreasing(p: LatencyDoc)
    ensures forall i, j :: 0 <= i < j < |Visits(p)| ==> Visits(p)[i].1 < Visits(p)[j].1
  {
    forall i, j | 0 <= i < j < |Visits(p)| ensures Visits(p)[i].1 < Visits(p)[j].1 {
      VisitAt(p, i);
      VisitAt(p, j);
    }
  }

  /** A value is registered when the policy declares it somewhere. */
  ghost predicate Registered(p: LatencyDoc, v: string) {
    p.default == Some(v) || (exists r :: (r, v) in p.intra) || (exists r :: (r, v) in p.inter)
  }

  /** The table holds exactly the declared values. */
  lemma {:induction false} MarkTableKeys(p: LatencyDoc, v: string)
    ensures v in MarkTable(p) <==> Registered(p, v)
  {
    if Registered(p, v) {
      RegisteredVisited(p, v);
    }
    if v in MarkTable(p) {
      VisitedRegistered(p, v);
    }
  }

  lemma {:induction false} RegisteredVisited(p: LatencyDoc, v: string)
    requires Registered(p, v)
    ensures v in MarkTable(p)
  {
    VisitsLength(p);
    OverwriteKeys(Visits(p), v);
    var d := DefaultSlots(p);
    if p.default == Some(v) {
      VisitAt(p, 0);
    } else if exists r :: (r, v) in p.intra {
      var r :| (r, v) in p.intra;
      var i :| 0 <= i < |p.intra| && p.intra[i] == (r, v);
      VisitAt(p, d + i);
    } else {
      var r :| (r, v) in p.inter;
      var j :| 0 <= j < |p.inter| && p.inter[j] == (r, v);
      VisitAt(p, d + |p.intra| + j);
    }
  }

  lemma {:induction false} VisitedRegistered(p: LatencyDoc, v: string)
    requires v in MarkTable(p)
    ensures Registered(p, v)
  {
    OverwriteKeys(Visits(p), v);
    var d := DefaultSlots(p);
    var k :| 0 <= k < |Visits(p)| && Visits(p)[k].0 == v;
    VisitAt(p, k);
    if k >= d + |p.intra| {
      assert p.inter[k - d - |p.intra|] == (p.inter[k - d - |p.intra|].0, v);
    } else if k >= d {
      assert p.intra[k - d] == (p.intra[k - d].0, v);
    }
  }


  /** Every mark lies in [10, 10 + |intra| + |inter|], distinct values get distinct
      marks, and only the default can get mark 10. */
  lemma {:induction false} MarkTableBoundsAndInjective(p: LatencyDoc)
    ensures forall v :: v in MarkTable(p) ==> 10 <= MarkTable(p)[v] <= 10 + |p.intra| + |p.inter|
    ensures forall a, b :: a in MarkTable(p) && b in MarkTable(p) && a != b ==> MarkTable(p)[a] != MarkTable(p)[b]
    ensures forall v :: v in MarkTable(p) && MarkTable(p)[v] == 10 ==> p.default == Some(v)
  {
    VisitsLength(p);
    VisitsIncreasing(p);
    OverwriteInjective(Visits(p));
    forall v | v in MarkTable(p)
      ensures 10 <= MarkTable(p)[v] <= 10 + |p.intra| + |p.inter|
      ensures MarkTable(p)[v] == 10 ==> p.default == Some(v)
    {
      OverwriteLast(Visits(p), v);
      var k :| 0 <= k < |Visits(p)| && Visits(p)[k] == (v, MarkTable(p)[v]);
      VisitAt(p, k);
    }
  }

  /** The default keeps mark 10 unless some entry repeats its value. */
  lemma {:induction false} MarkOfDefault(p: LatencyDoc)
    requires p.default.Some?
    requires forall r :: (r, p.default.value) !in p.intra && (r, p.default.value) !in p.inter
    ensures p.default.value in MarkTable(p) && MarkTable(p)[p.default.value] == 10
  {
    VisitsLength(p);
    var vs, d := Visits(p), p.default.value;
    forall j | 0 < j < |vs| ensures vs[j].0 != d {
      VisitAt(p, j);
      if j >= 1 + |p.intra| {
        assert p.inter[j - 1 - |p.intra|] in p.inter;
      } else {
        assert p.intra[j - 1] in p.intra;
      }
    }
    VisitAt(p, 0);
    OverwriteAt(vs, 0);
  }

  /** The i-th intra-role entry gets mark 11 + i, default or not, unless a later
      entry repeats its value. In particular the first one gets 11. */
  lemma {:induction false} MarkOfIntra(p: LatencyDoc, i: int)
    requires 0 <= i < |p.intra|
    requires forall k :: i < k < |p.intra| ==> p.intra[k].1 != p.intra[i].1
    requires forall r :: (r, p.intra[i].1) !in p.inter
    ensures p.intra[i].1 in MarkTable(p) && MarkTable(p)[p.intra[i].1] == 11 + i
  {
    VisitsLength(p);
    var vs, d, v := Visits(p), DefaultSlots(p), p.intra[i].1;
    forall j | d + i < j < |vs| ensures vs[j].0 != v {
      VisitAt(p, j);
      if j >= d + |p.intra| {
        assert p.inter[j - d - |p.intra|] in p.inter;
      }
    }
    VisitAt(p, d + i);
    OverwriteAt(vs, d + i);
  }

  /** The j-th inter-role entry gets mark 11 + |intra| + j unless a later
      inter-role entry repeats its value. */
  lemma {:induction false} MarkOfInter(p: LatencyDoc, j: int)
    requires 0 <= j < |p.inter|
    requires forall k :: j < k < |p.inter| ==> p.inter[k].1 != p.inter[j].1
    ensures p.inter[j].1 in MarkTable(p) && MarkTable(p)[p.inter[j].1] == 11 + |p.intra| + j
  {
    VisitsLength(p);
    var vs, d := Visits(p), DefaultSlots(p);
    forall k | d + |p.intra| + j < k < |vs| ensures vs[k].0 != p.inter[j].1 {
      VisitAt(p, k);
    }
    VisitAt(p, d + |p.intra| + j);
    OverwriteAt(vs, d + |p.intra| + j);
  }

  /** get_mark: the mark of a value; a value the table does not hold is an error. */
  function Mark(p: LatencyDoc, latency: string): (r: Result<int>)
    ensures r.Ok? <==> Registered(p, latency)
    ensures r.Err? ==> r.error == UnknownLatency(latency)
    ensures r.Ok? ==> 10 <= r.value <= 10 + |p.intra| + |p.inter|
  {
    MarkTableKeys(p, latency);
    MarkTableBoundsAndInjective(p);
    if latency in MarkTable(p) then Ok(MarkTable(p)[latency]) else Err(UnknownLatency(latency))
  }
}
