/** The accessory model: numbering services and characteristics when a server is
    created, and finding a characteristic by its ids. */
module AccessoryModel {
  import opened Options

  /** What carries an instance id: a service or a characteristic. */
  class Node {
    var id: nat

    constructor (id: nat)
      ensures this.id == id
    {
      this.id := id;
    }
  }

  datatype Service = Service(node: Node, cs: seq<Node>)

  class Accessory {
    var id: nat
    const name: string
    var services: seq<Service>

    constructor (id: nat, name: string, services: seq<Service>)
      ensures this.id == id && this.name == name && this.services == services
    {
      this.id, this.name, this.services := id, name, services;
    }

    method AddService(s: Service)
      modifies this`services
      ensures services == old(services) + [s]
    {
      services := services + [s];
    }
  }

  // ---- Numbering, on ids alone ----

  function Zeros(ids: seq<nat>, i: nat): nat
    requires i <= |ids|
  {
    if i == 0 then 0 else Zeros(ids, i - 1) + if ids[i - 1] == 0 then 1 else 0
  }

  /** Set ids stay; the k-th missing one becomes k. */
  function Numbered(ids: seq<nat>): (r: seq<nat>)
    ensures |r| == |ids|
  {
    seq(|ids|, (i: int) requires 0 <= i < |ids| => if ids[i] != 0 then ids[i] else 1 + Zeros(ids, i))
  }

  ghost predicate Distinct<T(!new)>(s: seq<T>) {
    forall i, j :: 0 <= i < j < |s| ==> s[i] != s[j]
  }

  predicate AllZero(ids: seq<nat>) {
    forall i :: 0 <= i < |ids| ==> ids[i] == 0
  }

  lemma {:induction false} ZerosWithin(ids: seq<nat>, i: nat)
    requires i <= |ids|
    ensures Zeros(ids, i) <= i && (AllZero(ids) ==> Zeros(ids, i) == i)
  {
    if i > 0 {
      ZerosWithin(ids, i - 1);
    }
  }

  /** Ids that all start at zero become 1, 2, ... in order, and are distinct. */
  lemma {:induction false} FreshNumbering(ids: seq<nat>)
    requires AllZero(ids)
    ensures forall i :: 0 <= i < |ids| ==> Numbered(ids)[i] == i + 1
    ensures Distinct(Numbered(ids))
  {
    forall i | 0 <= i < |ids|
      ensures Numbered(ids)[i] == i + 1
    {
      ZerosWithin(ids, i);
    }
  }

  /** Set ids stay as they are; the first missing one becomes 1, and each later one the
      successor of the missing one before it. */
  lemma {:induction false} MissingInOrder(ids: seq<nat>, j: nat, i: nat)
    requires i < |ids| && j <= i && (forall k :: j <= k < i ==> ids[k] != 0)
    ensures ids[i] != 0 ==> Numbered(ids)[i] == ids[i]
    ensures ids[i] == 0 && j == 0 ==> Numbered(ids)[i] == 1
    ensures ids[i] == 0 && j > 0 && ids[j - 1] == 0 ==> Numbered(ids)[i] == Numbered(ids)[j - 1] + 1
  {
    SameZeros(ids, j, i);
  }

  lemma {:induction false} SameZeros(ids: seq<nat>, j: nat, i: nat)
    requires j <= i <= |ids| && forall k :: j <= k < i ==> ids[k] != 0
    ensures Zeros(ids, i) == Zeros(ids, j)
    decreases i
  {
    if j < i {
      SameZeros(ids, j, i - 1);
    }
  }

  lemma {:induction false} ZerosPrefix(xs: seq<nat>, ys: seq<nat>, i: nat)
    requires i <= |xs|
    ensures Zeros(xs + ys, i) == Zeros(xs, i)
  {
    if i > 0 {
      ZerosPrefix(xs, ys, i - 1);
    }
  }

  /** Appending services leaves the ids of the earlier ones as they were. */
  lemma {:induction false} AppendKeepsIds(xs: seq<nat>, ys: seq<nat>)
    ensures Numbered(xs + ys)[..|xs|] == Numbered(xs)
  {
    forall i | 0 <= i < |xs|
      ensures Numbered(xs + ys)[i] == Numbered(xs)[i]
    {
      ZerosPrefix(xs, ys, i);
    }
  }

  lemma {:induction false} ZerosAfterSet(xs: seq<nat>, ys: seq<nat>, i: nat)
    requires i <= |ys| && (forall j :: 0 <= j < |xs| ==> xs[j] != 0)
    ensures Zeros(xs + ys, |xs| + i) == Zeros(ys, i)
    decreases i
  {
    if i > 0 {
      assert (xs + ys)[|xs| + i - 1] == ys[i - 1];
      ZerosAfterSet(xs, ys, i - 1);
    } else {
      NoZeros(xs + ys, |xs|);
    }
  }

  lemma {:induction false} NoZeros(ids: seq<nat>, n: nat)
    requires n <= |ids| && forall j :: 0 <= j < n ==> ids[j] != 0
    ensures Zeros(ids, n) == 0
  {
    if n > 0 {
      NoZeros(ids, n - 1);
    }
  }

  lemma {:induction false} FirstZero(ids: seq<nat>, k: nat) returns (m: nat)
    requires k < |ids| && ids[k] == 0
    ensures m <= k && ids[m] == 0 && Zeros(ids, m) == 0
    decreases k
  {
    if z :| 0 <= z < k && ids[z] == 0 {
      m := FirstZero(ids, z);
    } else {
      m := k;
      NoZeros(ids, k);
    }
  }

  lemma {:induction false} DistinctTail(xs: seq<nat>, ys: seq<nat>)
    requires Distinct(xs)
    ensures Distinct(xs + ys) <==> Distinct(ys) && forall j :: 0 <= j < |ys| ==> ys[j] !in xs
  {
    var all := xs + ys;
    if Distinct(all) {
      forall i, j | 0 <= i < j < |ys|
        ensures ys[i] != ys[j]
      {
        assert all[|xs| + i] != all[|xs| + j];
      }
      forall j | 0 <= j < |ys|
        ensures ys[j] !in xs
      {
        assert all[|xs| + j] == ys[j];
        assert forall i :: 0 <= i < |xs| ==> all[i] == xs[i] && all[i] != all[|xs| + j];
      }
    }
    if Distinct(ys) && forall j :: 0 <= j < |ys| ==> ys[j] !in xs {
      forall i, j | 0 <= i < j < |all|
        ensures all[i] != all[j]
      {
        assert i < |xs| <= j ==> ys[j - |xs|] !in xs && xs[i] in xs;
      }
    }
  }

  lemma {:induction false} SetIdsStay(ids: seq<nat>)
    requires forall i :: 0 <= i < |ids| ==> ids[i] != 0
    ensures Numbered(ids) == ids
  {
  }

  /** Behind ids that are all set the count starts over at one. */
  lemma {:induction false} CountStartsOver(xs: seq<nat>, ys: seq<nat>)
    requires forall j :: 0 <= j < |xs| ==> xs[j] != 0
    ensures Numbered(xs + ys) == xs + Numbered(ys)
  {
    var all := xs + ys;
    forall i | 0 <= i < |all|
      ensures Numbered(all)[i] == (xs + Numbered(ys))[i]
    {
      if i >= |xs| {
        ZerosAfterSet(xs, ys, i - |xs|);
      }
    }
  }

  /** The first missing id becomes one, and no id stays missing. */
  lemma {:induction false} FirstIsOne(ids: seq<nat>)
    ensures 0 !in Numbered(ids)
    ensures 0 in ids ==> 1 in Numbered(ids)
  {
    if k :| 0 <= k < |ids| && ids[k] == 0 {
      var m := FirstZero(ids, k);
      assert Numbered(ids)[m] == 1;
    }
  }

  /** An accessory that was numbered before can be added again, with services appended,
      exactly when the completed ids of what was there and, counted from one again, of
      what is new are distinct and have none in common. So if an id was missing the
      first time none may be now, and if all were, the new ones must be set, distinct
      and beyond the old ones. */
  lemma {:induction false} AddAgainIff(ids: seq<nat>, ys: seq<nat>)
    ensures Distinct(Numbered(Numbered(ids) + ys))
            <==> Distinct(Numbered(ids)) && Distinct(Numbered(ys)) && Beside(Numbered(ys), Numbered(ids))
    ensures 0 in ids ==>
              (Distinct(Numbered(Numbered(ids) + ys))
               <==> Distinct(Numbered(ids)) && 0 !in ys && Distinct(ys) && Beside(ys, Numbered(ids)))
    ensures AllZero(ids) && ids != [] ==>
              (Distinct(Numbered(Numbered(ids) + ys))
               <==> Distinct(ys) && forall j :: 0 <= j < |ys| ==> ys[j] > |ids|)
  {
    var xs := Numbered(ids);
    FirstIsOne(ids);
    FirstIsOne(ys);
    if AllZero(ids) {
      FreshNumbering(ids);
      assert ids != [] ==> ids[0] == 0;
    }
    if 0 !in ys {
      SetIdsStay(ys);
    }
    hide Numbered;
    CountStartsOver(xs, ys);
    DistinctAppend(xs, Numbered(ys));
    if AllZero(ids) && 0 !in ys {
      forall j | 0 <= j < |ys|
        ensures ys[j] !in xs <==> ys[j] > |ids|
      {
        assert ys[j] <= |ids| ==> xs[ys[j] - 1] == ys[j];
      }
    }
  }

  /** No id of the first list is one of the second. */
  predicate Beside(ys: seq<nat>, xs: seq<nat>) {
    forall j :: 0 <= j < |ys| ==> ys[j] !in xs
  }

  lemma {:induction false} DistinctAppend(xs: seq<nat>, ys: seq<nat>)
    ensures Distinct(xs + ys) <==> Distinct(xs) && Distinct(ys) && Beside(ys, xs)
  {
    var all := xs + ys;
    if Distinct(all) {
      forall i, j | 0 <= i < j < |xs|
        ensures xs[i] != xs[j]
      {
        assert all[i] == xs[i] && all[j] == xs[j];
      }
    }
    if Distinct(xs) {
      DistinctTail(xs, ys);
    }
  }

  // ---- Numbering the objects ----

  /** Services and characteristics in traversal order. */
  function Nodes(ss: seq<Service>): seq<Node> {
    if ss == [] then [] else [ss[0].node] + ss[0].cs + Nodes(ss[1..])
  }

  function Ids(ns: seq<Node>): (ids: seq<nat>)
    reads ns
    ensures |ids| == |ns| && forall i :: 0 <= i < |ns| ==> ids[i] == ns[i].id
  {
    if ns == [] then [] else [ns[0].id] + Ids(ns[1..])
  }

  ghost predicate Separate(ns: seq<Node>) {
    forall i, j :: 0 <= i < j < |ns| ==> ns[i] != ns[j]
  }

  lemma {:induction false} NodesAppend(xs: seq<Service>, ys: seq<Service>)
    ensures Nodes(xs + ys) == Nodes(xs) + Nodes(ys)
  {
    if xs == [] {
      assert xs + ys == ys;
    } else {
      assert (xs + ys)[1..] == xs[1..] + ys;
      NodesAppend(xs[1..], ys);
    }
  }

  /** Service `i` and its characteristics follow the nodes of the earlier ones. */
  lemma {:induction false} NodesSplit(ss: seq<Service>, i: nat)
    requires i < |ss|
    ensures Nodes(ss) == Nodes(ss[..i]) + ([ss[i].node] + ss[i].cs) + Nodes(ss[i + 1..])
    ensures Nodes(ss[..i + 1]) == Nodes(ss[..i]) + ([ss[i].node] + ss[i].cs)
  {
    NodesAppend(ss[..i], ss[i..]);
    assert ss == ss[..i] + ss[i..];
    assert ss[i..][1..] == ss[i + 1..];
    NodesAppend(ss[..i], [ss[i]]);
    assert ss[..i + 1] == ss[..i] + [ss[i]];
    assert [ss[i]][1..] == [];
    assert Nodes([ss[i]]) == [ss[i].node] + ss[i].cs + [];
  }

  lemma {:induction false} NoNodes()
    ensures Nodes([]) == []
  {
  }

  lemma {:induction false} NodesAt(ss: seq<Service>, i: nat)
    requires i < |ss|
    ensures var ns, base := Nodes(ss), |Nodes(ss[..i])|;
            && base + 1 + |ss[i].cs| == |Nodes(ss[..i + 1])| <= |ns|
            && ns[base] == ss[i].node
            && forall j :: 0 <= j < |ss[i].cs| ==> ns[base + 1 + j] == ss[i].cs[j]
  {
    NodesSplit(ss, i);
  }

  /** The first `k` nodes are numbered and differ, the others are untouched. */
  ghost predicate Progress(ns: seq<Node>, was: seq<nat>, k: nat, next: nat, seen: set<nat>)
    requires k <= |ns| == |was|
    reads ns
  {
    ProgressOf(ns, Ids(ns), was, k, next, seen)
  }

  ghost predicate ProgressOf(ns: seq<Node>, ids: seq<nat>, was: seq<nat>, k: nat, next: nat, seen: set<nat>)
    requires k <= |ns| == |was| == |ids|
  {
    && next == 1 + Zeros(was, k)
    && (forall i :: 0 <= i < k ==> ids[i] == Numbered(was)[i])
    && (forall i :: k <= i < |ns| && ns[i] !in ns[..k] ==> ids[i] == was[i])
    && (forall x :: x in seen <==> exists i :: 0 <= i < k && ids[i] == x)
    && (forall i, j :: 0 <= i < j < k ==> ids[i] != ids[j])
  }

  predicate AllSet(ids: seq<nat>) {
    forall i :: 0 <= i < |ids| ==> ids[i] != 0
  }

  /** Nodes that have an id keep it. */
  twostate predicate SetKept(ns: seq<Node>)
    reads ns
  {
    forall i :: 0 <= i < |ns| ==> old(ns[i].id) != 0 ==> ns[i].id == old(ns[i].id)
  }

  /** Numbers one node; `false` if its id is taken. */
  method Take(n: Node, iid: nat, iids: set<nat>) returns (ok: bool, next: nat, seen: set<nat>)
    modifies n
    ensures n.id == if old(n.id) == 0 then iid else old(n.id)
    ensures next == if old(n.id) == 0 then iid + 1 else iid
    ensures ok == (n.id !in iids) && seen == iids + {n.id}
  {
    next := iid;
    if n.id == 0 {
      n.id := next;
      next := next + 1;
    }
    ok := n.id !in iids;
    seen := iids + {n.id};
  }

  lemma {:induction false} NumberedAt(was: seq<nat>, k: nat)
    requires k < |was|
    ensures Numbered(was)[k] == if was[k] == 0 then 1 + Zeros(was, k) else was[k]
    ensures Zeros(was, k + 1) == Zeros(was, k) + if was[k] == 0 then 1 else 0
  {
  }

  /** The id a node gets or has. */
  function Due(id: nat, iid: nat): nat {
    if id == 0 then iid else id
  }

  /** An id that is taken belongs to an earlier node. */
  lemma {:induction false} Taken(ns: seq<Node>, ids: seq<nat>, was: seq<nat>, k: nat, iid: nat, iids: set<nat>)
    requires k < |ns| == |was| == |ids| && ProgressOf(ns, ids, was, k, iid, iids)
    requires Due(ids[k], iid) in iids
    ensures !(Separate(ns) && Distinct(Numbered(was)))
  {
    NumberedAt(was, k);
    hide Numbered, Zeros;
    var i :| 0 <= i < k && ids[i] == Due(ids[k], iid);
    if Separate(ns) {
      assert ns[k] !in ns[..k];
      assert Numbered(was)[i] == Numbered(was)[k];
    }
  }

  /** A free id is the one that the node is due, and no other node changes. */
  lemma {:induction false} Given(
      ns: seq<Node>, ids: seq<nat>, ids': seq<nat>, was: seq<nat>, k: nat, iid: nat, iids: set<nat>)
    requires k < |ns| == |was| == |ids| == |ids'| && ProgressOf(ns, ids, was, k, iid, iids)
    requires Due(ids[k], iid) !in iids && ids'[k] == Due(ids[k], iid)
    requires forall i :: 0 <= i < |ns| && ns[i] != ns[k] ==> ids'[i] == ids[i]
    requires forall i :: 0 <= i < k && ns[i] == ns[k] ==> ids[i] == ids[k]
    ensures ProgressOf(ns, ids', was, k + 1, if ids[k] == 0 then iid + 1 else iid, iids + {ids'[k]})
  {
  }

  /** Numbers the node at position `k`. On failure the node occurs twice, or its id
      clashes with an earlier one. */
  method TakeAt(ghost ns: seq<Node>, ghost was: seq<nat>, ghost k: nat, n: Node, iid: nat, iids: set<nat>)
    returns (ok: bool, next: nat, seen: set<nat>)
    requires k < |ns| == |was| && ns[k] == n && Progress(ns, was, k, iid, iids)
    modifies n
    ensures ok ==> Progress(ns, was, k + 1, next, seen)
    ensures !ok ==> !(Separate(ns) && Distinct(Numbered(was)))
    ensures SetKept(ns)
  {
    hide ProgressOf, Separate, Distinct, Numbered;
    ghost var ids := Ids(ns);
    if Due(ids[k], iid) in iids {
      Taken(ns, ids, was, k, iid, iids);
    }
    ok, next, seen := Take(n, iid, iids);
    if ok {
      Given(ns, ids, Ids(ns), was, k, iid, iids);
    }
  }

  lemma {:induction false} NothingDone(ns: seq<Node>)
    ensures Progress(ns, Ids(ns), 0, 1, {})
  {
  }

  lemma {:induction false} AllDone(ns: seq<Node>, was: seq<nat>, next: nat, seen: set<nat>)
    requires |ns| == |was| && Progress(ns, was, |ns|, next, seen)
    ensures Ids(ns) == Numbered(was) && Separate(ns) && Distinct(Numbered(was))
  {
    hide Numbered;
    assert Ids(ns) == Numbered(was);
    forall i, j | 0 <= i < j < |ns|
      ensures ns[i] != ns[j]
    {
      assert ns[i].id != ns[j].id;
    }
  }

  /** Numbers one service and its characteristics. */
  method NumberService(
      ghost ns: seq<Node>, ghost was: seq<nat>, ghost base: nat, s: Service, iid: nat, iids: set<nat>)
    returns (ok: bool, next: nat, seen: set<nat>)
    requires |ns| == |was| && base + 1 + |s.cs| <= |ns|
    requires ns[base] == s.node && forall j :: 0 <= j < |s.cs| ==> ns[base + 1 + j] == s.cs[j]
    requires Progress(ns, was, base, iid, iids)
    modifies ns
    ensures ok ==> Progress(ns, was, base + 1 + |s.cs|, next, seen)
    ensures !ok ==> !(Separate(ns) && Distinct(Numbered(was)))
    ensures SetKept(ns)
  {
    hide Progress, Numbered, Separate, Distinct;
    ok, next, seen := TakeAt(ns, was, base, s.node, iid, iids);
    if !ok {
      return;
    }
    for j := 0 to |s.cs|
      invariant ok && Progress(ns, was, base + 1 + j, next, seen)
      invariant SetKept(ns)
    {
      ok, next, seen := TakeAt(ns, was, base + 1 + j, s.cs[j], next, seen);
      if !ok {
        return;
      }
    }
  }

  /** Numbers all services of an accessory. It succeeds exactly when no object
      occurs twice and the completed ids are pairwise distinct, and then these are
      the ids. */
  method NumberServices(ss: seq<Service>) returns (ok: bool)
    modifies Nodes(ss)
    ensures var ns := Nodes(ss);
            var ids := Numbered(old(Ids(ns)));
            && (ok <==> Separate(ns) && Distinct(ids))
            && (ok ==> Ids(ns) == ids)
    ensures SetKept(Nodes(ss))
  {
    hide Progress, Numbered, Separate, Distinct, Nodes, Ids;
    ghost var ns := Nodes(ss);
    ghost var was := Ids(ns);
    NothingDone(ns);
    assert ss[..0] == [] && |Nodes([])| == 0 by { NoNodes(); }
    var next, seen := 1, {};
    ok := true;
    ghost var base := 0;
    for i := 0 to |ss|
      invariant ok && base == |Nodes(ss[..i])| <= |ns|
      invariant Progress(ns, was, base, next, seen)
      invariant SetKept(ns)
    {
      NodesAt(ss, i);
      ok, next, seen := NumberService(ns, was, base, ss[i], next, seen);
      if !ok {
        return;
      }
      base := base + 1 + |ss[i].cs|;
    }
    assert ss[..|ss|] == ss;
    AllDone(ns, was, next, seen);
  }

  // ---- Adding accessories ----

  function NodesOf(a: Accessory): seq<Node>
    reads a
  {
    Nodes(a.services)
  }

  function AllNodes(group: seq<Accessory>): set<Node>
    reads group
  {
    set a, n | a in group && n in NodesOf(a) :: n
  }

  /** The accessories are different objects that share no service or characteristic. */
  ghost predicate Apart(group: seq<Accessory>)
    reads group
  {
    && (forall i, j :: 0 <= i < j < |group| ==> group[i] != group[j])
    && (forall i, j :: 0 <= i < j < |group| ==> forall n :: n in NodesOf(group[i]) ==> n !in NodesOf(group[j]))
  }

  function AccessoryIds(group: seq<Accessory>): (ids: seq<nat>)
    reads group
    ensures |ids| == |group| && forall i :: 0 <= i < |group| ==> ids[i] == group[i].id
  {
    if group == [] then [] else [group[0].id] + AccessoryIds(group[1..])
  }

  function NodeLists(group: seq<Accessory>): (ns: seq<seq<Node>>)
    reads group
    ensures |ns| == |group| && forall i :: 0 <= i < |group| ==> ns[i] == NodesOf(group[i])
  {
    if group == [] then [] else [NodesOf(group[0])] + NodeLists(group[1..])
  }

  /** One accessory can be numbered. */
  ghost predicate Acceptable(a: Accessory, ids: seq<nat>)
    reads a
  {
    a.name != "" && Separate(NodesOf(a)) && Distinct(Numbered(ids))
  }

  /** Checks and numbers one accessory. */
  method AddOne(a: Accessory, aid: nat) returns (ok: bool, next: nat)
    modifies a`id, NodesOf(a)
    ensures ok <==> Acceptable(a, old(Ids(NodesOf(a))))
    ensures ok ==> Ids(NodesOf(a)) == Numbered(old(Ids(NodesOf(a))))
    ensures ok ==> a.id == if old(a.id) == 0 then aid else old(a.id)
    ensures ok ==> next == if old(a.id) == 0 then aid + 1 else aid
    ensures SetKept(NodesOf(a)) && (old(a.id) != 0 ==> a.id == old(a.id))
  {
    hide Nodes, Numbered, Distinct, Separate;
    next := aid;
    if a.name == "" {
      return false, next;
    }
    if a.id == 0 {
      a.id := next;
      next := next + 1;
    }
    ok := NumberServices(a.services);
  }

  /** Numbering one of several accessories keeps the ids that are set, and if the
      accessories share nothing, leaves the others alone. */
  method AddAt(ghost group: seq<Accessory>, ghost ns: seq<seq<Node>>, ghost i: nat, a: Accessory, aid: nat)
    returns (ok: bool, next: nat)
    requires i < |group| && group[i] == a && ns == NodeLists(group)
    modifies a`id, ns[i]
    ensures ns == NodeLists(group)
    ensures ok <==> Acceptable(a, old(Ids(ns[i])))
    ensures ok ==> Ids(ns[i]) == Numbered(old(Ids(ns[i])))
    ensures ok ==> a.id == if old(a.id) == 0 then aid else old(a.id)
    ensures ok ==> next == if old(a.id) == 0 then aid + 1 else aid
    ensures forall j :: 0 <= j < |group| ==>
      SetKept(ns[j]) && (old(group[j].id) != 0 ==> group[j].id == old(group[j].id))
    ensures forall j :: 0 <= j < |group| && AllSet(old(Ids(ns[j]))) ==> Ids(ns[j]) == old(Ids(ns[j]))
    ensures old(Apart(group)) ==>
      forall j :: 0 <= j < |group| && j != i ==> group[j].id == old(group[j].id) && Ids(ns[j]) == old(Ids(ns[j]))
  {
    hide Numbered, Separate, Distinct, Nodes, Ids, Acceptable, NodeLists, Apart;
    if Apart(group) {
      EachApart(group, ns, i);
    }
    ok, next := AddOne(a, aid);
    assert NodeLists(group) == ns;
    forall j | 0 <= j < |group|
      ensures SetKept(ns[j])
    {
      forall m | 0 <= m < |ns[j]| && old(ns[j][m].id) != 0
        ensures ns[j][m].id == old(ns[j][m].id)
      {
        if ns[j][m] in ns[i] {
          var k :| 0 <= k < |ns[i]| && ns[i][k] == ns[j][m];
        }
      }
    }
    forall j | 0 <= j < |group| && AllSet(old(Ids(ns[j])))
      ensures Ids(ns[j]) == old(Ids(ns[j]))
    {
      forall m | 0 <= m < |ns[j]|
        ensures ns[j][m].id == old(ns[j][m].id)
      {
        assert old(Ids(ns[j]))[m] != 0;
      }
      assert Ids(ns[j]) == old(Ids(ns[j]));
    }
    if old(Apart(group)) {
      forall j | 0 <= j < |group| && j != i
        ensures Ids(ns[j]) == old(Ids(ns[j]))
      {
        forall m | 0 <= m < |ns[j]|
          ensures ns[j][m].id == old(ns[j][m].id)
        {
          assert ns[j][m] in ns[j];
        }
        assert Ids(ns[j]) == old(Ids(ns[j]));
      }
    }
  }

  lemma {:induction false} EachApart(group: seq<Accessory>, ns: seq<seq<Node>>, i: nat)
    requires Apart(group) && ns == NodeLists(group) && i < |group|
    ensures forall j :: 0 <= j < |group| && j != i ==> group[j] != group[i] && forall n :: n in ns[j] ==> n !in ns[i]
  {
  }

  /** The first `i` accessories are accepted and numbered, the others untouched. */
  ghost predicate Published(group: seq<Accessory>, ns: seq<seq<Node>>, was: seq<nat>, ids: seq<seq<nat>>, i: nat)
    requires |group| == |ns| == |was| == |ids| && i <= |group|
    reads group, NodesIn(ns)
  {
    && Apart(group) && ns == NodeLists(group)
    && (forall j :: i <= j < |group| ==> group[j].id == was[j] && IdsAt(ns, j) == ids[j])
    && (forall j :: 0 <= j < i ==> Acceptable(group[j], ids[j]))
    && (forall j :: 0 <= j < i ==> group[j].id == Numbered(was)[j] && IdsAt(ns, j) == Numbered(ids[j]))
  }

  function NodesIn(ns: seq<seq<Node>>): set<Node> {
    set l, n | l in ns && n in l :: n
  }

  function IdsAt(ns: seq<seq<Node>>, j: nat): seq<nat>
    requires j < |ns|
    reads NodesIn(ns)
  {
    NodesInclude(ns, j);
    Ids(ns[j])
  }

  lemma {:induction false} NodesInclude(ns: seq<seq<Node>>, j: nat)
    requires j < |ns|
    ensures forall n :: n in ns[j] ==> n in NodesIn(ns)
  {
    assert ns[j] in ns;
  }

  function IdLists(ns: seq<seq<Node>>, n: nat): (ids: seq<seq<nat>>)
    requires n <= |ns|
    reads NodesIn(ns)
    ensures |ids| == n && forall j :: 0 <= j < n ==> ids[j] == IdsAt(ns, j)
  {
    if n == 0 then [] else IdLists(ns, n - 1) + [IdsAt(ns, n - 1)]
  }

  /** An accessory is ready: it has a name, all ids are set, and within it they are
      distinct and belong to different objects. */
  ghost predicate Ready(a: Accessory)
    reads a, NodesOf(a)
  {
    && a.name != "" && a.id != 0 && Separate(NodesOf(a))
    && AllSet(Ids(NodesOf(a))) && Distinct(Ids(NodesOf(a)))
  }

  lemma {:induction false} NumberedAllSet(ids: seq<nat>)
    ensures AllSet(Numbered(ids))
  {
  }

  ghost predicate ReadyUpTo(group: seq<Accessory>, ns: seq<seq<Node>>, i: nat)
    requires i <= |group| == |ns|
    reads group, NodesIn(ns)
  {
    forall j :: 0 <= j < i ==>
      && group[j].name != "" && group[j].id != 0 && Separate(ns[j])
      && AllSet(IdsAt(ns, j)) && Distinct(IdsAt(ns, j))
  }

  lemma {:induction false} NoneReady(group: seq<Accessory>, ns: seq<seq<Node>>)
    requires |group| == |ns|
    ensures ReadyUpTo(group, ns, 0)
  {
  }

  lemma {:induction false} AllReady(group: seq<Accessory>, ns: seq<seq<Node>>)
    requires ns == NodeLists(group) && ReadyUpTo(group, ns, |group|)
    ensures forall j :: 0 <= j < |group| ==> Ready(group[j])
  {
    hide Separate, AllSet, Distinct, Nodes, Ids, NodeLists;
    forall j | 0 <= j < |group|
      ensures Ready(group[j])
    {
      assert IdsAt(ns, j) == Ids(NodesOf(group[j]));
    }
  }

  /** The next accessory: those before it stay ready; and if they share nothing, all is
      numbered as the closed form says. */
  method AddNext(
      ghost group: seq<Accessory>, ghost ns: seq<seq<Node>>, ghost was: seq<nat>, ghost ids: seq<seq<nat>>,
      ghost i: nat, a: Accessory, aid: nat)
    returns (ok: bool, next: nat)
    requires |group| == |ns| == |was| == |ids| && i < |group| && group[i] == a && ns == NodeLists(group)
    requires aid > 0 && ReadyUpTo(group, ns, i)
    modifies a`id, ns[i]
    ensures ns == NodeLists(group)
    ensures forall j :: 0 <= j < |group| ==>
      SetKept(ns[j]) && (old(group[j].id) != 0 ==> group[j].id == old(group[j].id))
    ensures ok ==> next > 0 && ReadyUpTo(group, ns, i + 1)
    ensures old(Published(group, ns, was, ids, i)) && aid == 1 + Zeros(was, i) ==>
      (if ok then Published(group, ns, was, ids, i + 1) && next == 1 + Zeros(was, i + 1)
       else !Acceptable(a, ids[i]))
  {
    hide Numbered, Ids, Separate, Distinct, Zeros, Nodes, AllSet, NodeLists, NodesOf;
    NumberedAt(was, i);
    NumberedAllSet(Ids(ns[i]));
    ok, next := AddAt(group, ns, i, a, aid);
  }

  /** Publishing accessories: ids that are set are kept, and on success every
      accessory is ready. If the accessories share no object, it succeeds exactly when
      each has a name and can be numbered, and then every id is the completed one. */
  method Add(group: seq<Accessory>) returns (ok: bool)
    modifies group, AllNodes(group)
    ensures NodeLists(group) == old(NodeLists(group))
    ensures forall j :: 0 <= j < |group| ==> old(group[j].id) != 0 ==> group[j].id == old(group[j].id)
    ensures forall j :: 0 <= j < |group| ==> SetKept(old(NodeLists(group))[j])
    ensures ok ==> forall j :: 0 <= j < |group| ==> Ready(group[j])
    ensures old(Apart(group)) ==>
      var ns := old(NodeLists(group));
      var ids := old(IdLists(NodeLists(group), |group|));
      && (ok <==> forall i :: 0 <= i < |group| ==> Acceptable(group[i], ids[i]))
      && (ok ==> AccessoryIds(group) == Numbered(old(AccessoryIds(group))))
      && (ok ==> forall i :: 0 <= i < |group| ==> Ids(ns[i]) == Numbered(ids[i]))
  {
    hide Numbered, Separate, Distinct, Nodes, Ids, NodeLists, AllNodes, Apart, Acceptable, Zeros, Ready, ReadyUpTo;
    ghost var was := AccessoryIds(group);
    ghost var ns := NodeLists(group);
    ghost var ids := IdLists(ns, |group|);
    var aid := 1;
    ok := true;
    ghost var all := AllNodes(group);
    forall i | 0 <= i < |group|
      ensures forall n :: n in ns[i] ==> n in all
    {
      NodesAmong(group, i);
    }
    assert Zeros(was, 0) == 0 by { NoZeros(was, 0); }
    NoneReady(group, ns);
    for i := 0 to |group|
      invariant ok && aid > 0 && ns == NodeLists(group)
      invariant ReadyUpTo(group, ns, i)
      invariant forall j :: 0 <= j < |group| ==>
        SetKept(ns[j]) && (old(group[j].id) != 0 ==> group[j].id == old(group[j].id))
      invariant old(Apart(group)) ==> Published(group, ns, was, ids, i) && aid == 1 + Zeros(was, i)
    {
      ok, aid := AddNext(group, ns, was, ids, i, group[i], aid);
      if !ok {
        return;
      }
    }
    AllReady(group, ns);
    assert AccessoryIds(group) == Numbered(was) || !old(Apart(group));
  }

  lemma {:induction false} NodesAmong(group: seq<Accessory>, i: nat)
    requires i < |group|
    ensures forall n :: n in NodeLists(group)[i] ==> n in AllNodes(group)
  {
  }

  // ---- Finding a characteristic ----

  function Characteristics(ss: seq<Service>): seq<Node> {
    if ss == [] then [] else ss[0].cs + Characteristics(ss[1..])
  }

  /** All characteristics under an accessory id, in order. */
  function Under(group: seq<Accessory>, aid: nat): seq<Node>
    reads group
  {
    if group == [] then []
    else (if group[0].id == aid then Characteristics(group[0].services) else []) + Under(group[1..], aid)
  }

  function First(ns: seq<Node>, iid: nat): (c: Option<Node>)
    reads ns
    ensures c.Some? ==> c.value in ns && c.value.id == iid
    ensures c.None? ==> forall n :: n in ns ==> n.id != iid
  {
    if ns == [] then None else if ns[0].id == iid then Some(ns[0]) else First(ns[1..], iid)
  }

  lemma {:induction false} StepInto(cs: seq<Node>, j: nat, rest: seq<Node>, iid: nat)
    requires j < |cs|
    ensures First(cs[j..] + rest, iid) == if cs[j].id == iid then Some(cs[j]) else First(cs[j + 1..] + rest, iid)
  {
    assert (cs[j..] + rest)[1..] == cs[j + 1..] + rest;
  }

  lemma {:induction false} ServiceStep(ss: seq<Service>, k: nat, rest: seq<Node>)
    requires k < |ss|
    ensures Characteristics(ss[k..]) + rest == ss[k].cs[0..] + (Characteristics(ss[k + 1..]) + rest)
  {
    assert ss[k..][1..] == ss[k + 1..];
  }

  lemma {:induction false} AccessoryStep(group: seq<Accessory>, i: nat, aid: nat)
    requires i < |group|
    ensures Under(group[i..], aid)
            == (if group[i].id == aid then Characteristics(group[i].services[0..]) else []) + Under(group[i + 1..], aid)
  {
    assert group[i..][1..] == group[i + 1..];
    assert group[i].services[0..] == group[i].services;
  }

  /** The first characteristic with the instance id under the accessory id. */
  method FindC(group: seq<Accessory>, aid: nat, iid: nat) returns (c: Option<Node>)
    ensures c == First(Under(group, aid), iid)
  {
    hide Under, Characteristics, First;
    ghost var found := First(Under(group, aid), iid);
    assert group[0..] == group;
    for i := 0 to |group|
      invariant found == First(Under(group[i..], aid), iid)
    {
      AccessoryStep(group, i, aid);
      if group[i].id == aid {
        var ss := group[i].services;
        ghost var others := Under(group[i + 1..], aid);
        for k := 0 to |ss|
          invariant found == First(Characteristics(ss[k..]) + others, iid)
        {
          var cs := ss[k].cs;
          ghost var rest := Characteristics(ss[k + 1..]) + others;
          ServiceStep(ss, k, others);
          for j := 0 to |cs|
            invariant found == First(cs[j..] + rest, iid)
          {
            StepInto(cs, j, rest, iid);
            if cs[j].id == iid {
              return Some(cs[j]);
            }
          }
          assert cs[|cs|..] + rest == rest;
        }
        NoCharacteristics();
        assert ss[|ss|..] == [] && [] + others == others;
      } else {
        assert [] + Under(group[i + 1..], aid) == Under(group[i + 1..], aid);
      }
    }
    assert group[|group|..] == [];
    NothingUnder(aid, iid);
    return None;
  }

  lemma {:induction false} NoCharacteristics()
    ensures Characteristics([]) == []
  {
  }

  lemma {:induction false} NothingUnder(aid: nat, iid: nat)
    ensures First(Under([], aid), iid) == None
  {
  }

  lemma {:induction false} NobodyUnder(group: seq<Accessory>, aid: nat)
    requires forall i :: 0 <= i < |group| ==> group[i].id != aid
    ensures Under(group, aid) == []
  {
    if group != [] {
      NobodyUnder(group[1..], aid);
    }
  }

  lemma {:induction false} UnderOne(group: seq<Accessory>, i: nat)
    requires i < |group| && forall j, k :: 0 <= j < k < |group| ==> group[j].id != group[k].id
    ensures Under(group, group[i].id) == Characteristics(group[i].services)
  {
    if i == 0 {
      NobodyUnder(group[1..], group[0].id);
    } else {
      assert group[1..][i - 1] == group[i];
      UnderOne(group[1..], i - 1);
    }
  }

  /** A characteristic stands somewhere behind the service it belongs to. */
  lemma {:induction false} CharacteristicAt(ss: seq<Service>, c: Node) returns (k: nat, j: nat)
    requires c in Characteristics(ss)
    ensures k < |ss| && j < |ss[k].cs| && ss[k].cs[j] == c
  {
    if c in ss[0].cs {
      k := 0;
      j :| 0 <= j < |ss[0].cs| && ss[0].cs[j] == c;
    } else {
      k, j := CharacteristicAt(ss[1..], c);
      k := k + 1;
    }
  }

  lemma {:induction false} IsCharacteristic(ss: seq<Service>, k: nat, j: nat)
    requires k < |ss| && j < |ss[k].cs|
    ensures ss[k].cs[j] in Characteristics(ss)
  {
    if k > 0 {
      assert ss[1..][k - 1] == ss[k];
      IsCharacteristic(ss[1..], k - 1, j);
    }
  }

  lemma {:induction false} PrefixGrows(ss: seq<Service>, i: nat, k: nat)
    requires i <= k <= |ss|
    ensures |Nodes(ss[..i])| <= |Nodes(ss[..k])|
    decreases k
  {
    if i < k {
      PrefixGrows(ss, i, k - 1);
      NodesAt(ss, k - 1);
    }
  }

  /** With distinct instance ids, a characteristic has the id of no service and of
      no other characteristic. */
  lemma {:induction false} OwnId(ss: seq<Service>, k: nat, j: nat, i: nat)
    requires Distinct(Ids(Nodes(ss))) && k < |ss| && j < |ss[k].cs| && i < |ss|
    ensures ss[k].cs[j].id != ss[i].node.id
    ensures forall m :: 0 <= m < |ss[i].cs| && ss[i].cs[m].id == ss[k].cs[j].id ==> ss[i].cs[m] == ss[k].cs[j]
  {
    hide Nodes, Ids, Distinct;
    var ns := Nodes(ss);
    NodesAt(ss, k);
    NodesAt(ss, i);
    if i < k {
      PrefixGrows(ss, i + 1, k);
    } else if k < i {
      PrefixGrows(ss, k + 1, i);
    }
    var p, q := |Nodes(ss[..k])| + 1 + j, |Nodes(ss[..i])|;
    DistinctAt(Ids(ns), p, q);
    forall m | 0 <= m < |ss[i].cs| && ss[i].cs[m].id == ss[k].cs[j].id
      ensures ss[i].cs[m] == ss[k].cs[j]
    {
      assert ns[q + 1 + m] == ss[i].cs[m];
      if q + 1 + m != p {
        DistinctAt(Ids(ns), p, q + 1 + m);
      }
    }
  }

  lemma {:induction false} DistinctAt(ids: seq<nat>, p: nat, q: nat)
    requires Distinct(ids) && p < |ids| && q < |ids| && p != q
    ensures ids[p] != ids[q]
  {
  }

  /** With distinct accessory ids and, within the accessory, distinct instance ids,
      a characteristic is what its own pair of ids finds, and the pair of a service
      finds nothing. */
  lemma {:induction false} FindsOwn(group: seq<Accessory>, i: nat, k: nat, j: nat)
    requires forall m, n :: 0 <= m < n < |group| ==> group[m].id != group[n].id
    requires i < |group| && Distinct(Ids(NodesOf(group[i])))
    requires k < |group[i].services|
    ensures First(Under(group, group[i].id), group[i].services[k].node.id) == None
    ensures j < |group[i].services[k].cs| ==>
      First(Under(group, group[i].id), group[i].services[k].cs[j].id) == Some(group[i].services[k].cs[j])
  {
    var ss := group[i].services;
    UnderOne(group, i);
    var cs := Characteristics(ss);
    var s := First(cs, ss[k].node.id);
    if s.Some? {
      var k', j' := CharacteristicAt(ss, s.value);
      OwnId(ss, k', j', k);
    }
    if j < |ss[k].cs| {
      var c := First(cs, ss[k].cs[j].id);
      IsCharacteristic(ss, k, j);
      if c.Some? {
        var k', j' := CharacteristicAt(ss, c.value);
        OwnId(ss, k, j, k');
      }
    }
  }
}
