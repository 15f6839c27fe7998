/** Closure of related block devices (src/core/ld_device.c): a list that grows while it is
  * scanned, over an abstract graph instead of sysfs. */
module DeviceTopology {
  import opened Wrappers

  const MAX_RELATED: nat := 1024

  type Device = nat

  /** What sysfs says about a device.  None stands for a failed read; an entry None for a
    * directory entry without a readable device number. */
  datatype Node = Node(isPartition: Option<bool>, parent: Option<Device>,
                       holders: Option<seq<Option<Device>>>, slaves: Option<seq<Option<Device>>>, entries: Option<seq<Option<Device>>>)

  /** Devices that are not in the map cannot be resolved. */
  type Graph = map<Device, Node>

  datatype Related = Related(value: Device, exact: bool, relationsScanned: bool, childrenScanned: bool)

  // ---------------------------------------------------------------- edges

  function Names(entries: Option<seq<Option<Device>>>): set<Device> {
    if entries.None? then {} else set e | e in entries.value && e.Some? :: e.value
  }

  function IsPartition(g: Graph, d: Device): bool {
    d in g && g[d].isPartition == Some(true)
  }

  function ParentOf(g: Graph, d: Device): set<Device> {
    if IsPartition(g, d) && g[d].parent.Some? then {g[d].parent.value} else {}
  }

  /** Devices that map the same range: holders, and slaves of a device that is no partition. */
  function Mappings(g: Graph, d: Device): set<Device> {
    if d !in g then {} else Names(g[d].holders) + if IsPartition(g, d) then {} else Names(g[d].slaves)
  }

  function Relations(g: Graph, d: Device): set<Device> {
    ParentOf(g, d) + Mappings(g, d)
  }

  /** Devices below a whole device. */
  function Children(g: Graph, d: Device): set<Device> {
    if d !in g || IsPartition(g, d) then {} else Names(g[d].entries)
  }

  predicate AllNamed(entries: Option<seq<Option<Device>>>) {
    entries.Some? && forall i :: 0 <= i < |entries.value| ==> entries.value[i].Some?
  }

  /** Parent, holders and slaves of the device can be read. */
  predicate RelationsReadable(g: Graph, d: Device) {
    && d in g && g[d].isPartition.Some?
    && (IsPartition(g, d) ==> g[d].parent.Some?)
    && AllNamed(g[d].holders)
    && (!IsPartition(g, d) ==> AllNamed(g[d].slaves))
  }

  // ---------------------------------------------------------------- the closure that is asked for

  /** A device together with the claim that it maps the selected range itself. */
  datatype Mark = Mark(device: Device, exact: bool)

  /** What has to be in the list next to a device: the disk around a partition, without exactness;
    * every device that maps the same range; and what lies below a whole device that is exact. */
  predicate Leads(g: Graph, from: Mark, to: Mark) {
    || (to.device in ParentOf(g, from.device) && !to.exact)
    || (to.device in Mappings(g, from.device) && to.exact)
    || (from.exact && to.device in Children(g, from.device) && to.exact)
  }

  ghost predicate IsTrail(g: Graph, trail: seq<Mark>) {
    |trail| > 0 && forall i {:trigger LeadsAt(g, trail, i)} :: 0 < i < |trail| ==> LeadsAt(g, trail, i)
  }

  predicate LeadsAt(g: Graph, trail: seq<Mark>, i: nat)
    requires 0 < i < |trail|
  {
    Leads(g, trail[i - 1], trail[i])
  }

  ghost predicate EndsAt(trail: seq<Mark>, target: Device, m: Mark) {
    && |trail| > 0 && trail[0] == Mark(target, true)
    && trail[|trail| - 1].device == m.device && (m.exact ==> trail[|trail| - 1].exact)
  }

  /** The closure on the graph alone: a trail from the exact target leads to the device, with
    * exactness if that is claimed. */
  ghost predicate Intended(g: Graph, target: Device, m: Mark) {
    exists trail :: IsTrail(g, trail) && EndsAt(trail, target, m)
  }

  lemma TargetIsIntended(g: Graph, target: Device, exact: bool)
    ensures Intended(g, target, Mark(target, exact))
  {
    var trail := [Mark(target, true)];
    assert IsTrail(g, trail) && EndsAt(trail, target, Mark(target, exact));
  }

  lemma IntendedStep(g: Graph, target: Device, from: Mark, to: Mark)
    requires Intended(g, target, from) && Leads(g, from, to)
    ensures Intended(g, target, to) && Intended(g, target, to.(exact := false))
  {
    var trail :| IsTrail(g, trail) && EndsAt(trail, target, from);
    var longer := trail + [to];
    forall i | 0 < i < |longer|
      ensures LeadsAt(g, longer, i)
    {
      assert i < |trail| ==> LeadsAt(g, trail, i);
    }
    assert EndsAt(longer, target, to) && EndsAt(longer, target, to.(exact := false));
  }

  /** A set of devices that contains the target and what lies next to its members holds the closure. */
  lemma IntendedWithin(g: Graph, target: Device, within: set<Device>, m: Mark)
    requires target in within && Intended(g, target, m)
    requires forall d :: d in within ==> Relations(g, d) + Children(g, d) <= within
    ensures m.device in within
  {
    var trail :| IsTrail(g, trail) && EndsAt(trail, target, m);
    TrailWithin(g, trail, within, |trail| - 1);
  }

  lemma {:induction false} TrailWithin(g: Graph, trail: seq<Mark>, within: set<Device>, n: nat)
    requires IsTrail(g, trail) && n < |trail| && trail[0].device in within
    requires forall d :: d in within ==> Relations(g, d) + Children(g, d) <= within
    ensures trail[n].device in within
  {
    hide ParentOf, Mappings, Children;
    if n > 0 {
      TrailWithin(g, trail, within, n - 1);
      assert LeadsAt(g, trail, n);
      assert trail[n].device in Relations(g, trail[n - 1].device) + Children(g, trail[n - 1].device);
    }
  }

  /** A read about the device fails that its mark calls for. */
  predicate Unreadable(g: Graph, m: Mark) {
    || !RelationsReadable(g, m.device)
    || (m.exact && !IsPartition(g, m.device) && g[m.device].entries.None?)
  }

  ghost predicate Readable(g: Graph, target: Device) {
    forall m :: Intended(g, target, m) ==> !Unreadable(g, m)
  }

  /** The closure has room in the list. */
  ghost predicate Bounded(g: Graph, target: Device) {
    exists within: set<Device> :: |within| <= MAX_RELATED && Holds(g, target, within)
  }

  ghost predicate Holds(g: Graph, target: Device, within: set<Device>) {
    forall d :: Intended(g, target, Mark(d, false)) ==> d in within
  }

  // ---------------------------------------------------------------- the list

  ghost predicate Distinct(list: seq<Related>) {
    forall i, j :: 0 <= i < j < |list| ==> list[i].value != list[j].value
  }

  ghost predicate Listed(list: seq<Related>, d: Device) {
    exists i :: 0 <= i < |list| && list[i].value == d
  }

  ghost predicate AllListed(list: seq<Related>, ds: set<Device>) {
    forall d :: d in ds ==> Listed(list, d)
  }

  /** The list after some devices have been added: earlier entries keep their place and
    * their marks, exactness only goes up, and new entries are among the added ones. */
  ghost predicate Grown(before: seq<Related>, after: seq<Related>, added: set<Device>, exact: bool) {
    && |before| <= |after| <= MAX_RELATED && Distinct(after)
    && (forall i :: 0 <= i < |before| ==> after[i] == before[i].(exact := before[i].exact || (exact && before[i].value in added)))
    && (forall i :: |before| <= i < |after| ==> after[i] == Related(after[i].value, exact, false, false) && after[i].value in added)
    && AllListed(after, added)
  }

  lemma ListedStays(before: seq<Related>, after: seq<Related>, added: set<Device>, exact: bool, d: Device)
    requires Grown(before, after, added, exact) && Listed(before, d)
    ensures Listed(after, d)
  {
    var i :| 0 <= i < |before| && before[i].value == d;
    assert after[i].value == d;
  }

  /** Adding one more device to a grown list. */
  lemma GrowOne(before: seq<Related>, middle: seq<Related>, after: seq<Related>, added: set<Device>, d: Device, exact: bool)
    requires Grown(before, middle, added, exact) && Grown(middle, after, {d}, exact)
    ensures Grown(before, after, added + {d}, exact)
  {
    forall e | e in added
      ensures Listed(after, e)
    {
      ListedStays(middle, after, {d}, exact, e);
    }
  }

  // ---------------------------------------------------------------- the scan

  /** Edges the scan follows from an entry: its relations, and its children if it expanded them. */
  predicate FollowedEdge(g: Graph, from: Related, d: Device) {
    d in Relations(g, from.value) || (from.childrenScanned && d in Children(g, from.value))
  }

  /** Followed edges that carry an exact mapping: all but partition to parent. */
  predicate ExactEdge(g: Graph, from: Related, d: Device) {
    d in Mappings(g, from.value) || (from.childrenScanned && d in Children(g, from.value))
  }

  /** The entry has had its turn. */
  ghost predicate Scanned(g: Graph, list: seq<Related>, i: nat)
    requires i < |list|
  {
    && list[i].relationsScanned && RelationsReadable(g, list[i].value)
    && AllListed(list, Relations(g, list[i].value))
    && (list[i].childrenScanned ==>
          list[i].exact && !IsPartition(g, list[i].value) && g[list[i].value].entries.Some?
          && AllListed(list, Children(g, list[i].value)))
  }

  /** Some earlier entry with a turn behind it leads to entry j. */
  ghost predicate Derived(g: Graph, list: seq<Related>, k: nat, j: nat)
    requires j < |list|
  {
    j == 0 || exists i :: 0 <= i < j && i < k && FollowedEdge(g, list[i], list[j].value)
  }

  /** An exact edge from one of the m first entries leads to the device. */
  ghost predicate ExactFrom(g: Graph, list: seq<Related>, m: nat, d: Device) {
    exists i :: 0 <= i < m && i < |list| && ExactEdge(g, list[i], d)
  }

  /** Entry j got its exactness before the end of its own turn. */
  ghost predicate ExactInTime(g: Graph, list: seq<Related>, j: nat)
    requires j < |list|
  {
    j == 0 || ExactFrom(g, list, j, list[j].value) || list[j].value in Mappings(g, list[j].value)
  }

  ghost predicate ListShape(target: Device, list: seq<Related>, k: nat) {
    && 0 < |list| <= MAX_RELATED && k <= |list| && Distinct(list)
    && list[0].value == target && list[0].exact
    && (forall i :: k <= i < |list| ==> !list[i].relationsScanned && !list[i].childrenScanned)
  }

  /** What holds after the k first entries have had their turn. */
  ghost predicate ScanInv(g: Graph, target: Device, list: seq<Related>, k: nat) {
    && ListShape(target, list, k)
    && (if k == 0 then |list| == 1 else DiskSecond(g, list))
    && (forall i :: 0 <= i < k ==> Scanned(g, list, i))
    && (forall j :: 0 <= j < |list| ==> Derived(g, list, k, j))
    && (forall j :: 0 <= j < |list| ==> (list[j].exact <==> j == 0 || ExactFrom(g, list, k, list[j].value)))
    && (forall j :: 0 <= j < k ==> (list[j].childrenScanned <==> !IsPartition(g, list[j].value) && ExactInTime(g, list, j)))
  }

  /** The disk around the first device, if that is a partition, is the second one. */
  ghost predicate DiskSecond(g: Graph, list: seq<Related>) {
    |list| > 0 && forall d :: d in ParentOf(g, list[0].value) && d != list[0].value ==> |list| > 1 && list[1].value == d
  }

  /** The list before and after the relations of entry k have been collected. */
  ghost predicate RelationsTaken(g: Graph, before: seq<Related>, after: seq<Related>, k: nat) {
    && k < |before| <= |after| <= MAX_RELATED && Distinct(after)
    && var d := before[k].value;
       && (forall i :: 0 <= i < |before| ==>
             after[i] == before[i].(exact := before[i].exact || before[i].value in Mappings(g, d),
                                    relationsScanned := before[i].relationsScanned || i == k))
       && (forall i :: |before| <= i < |after| ==>
             after[i] == Related(after[i].value, after[i].value in Mappings(g, d), false, false) && after[i].value in Relations(g, d))
       && AllListed(after, Relations(g, d)) && RelationsReadable(g, d)
       && (|before| == 1 ==> DiskSecond(g, after))
  }

  /** The list before and after the children of entry k have been collected. */
  ghost predicate ChildrenTaken(g: Graph, before: seq<Related>, after: seq<Related>, k: nat) {
    && k < |before| && before[k].exact && !before[k].childrenScanned
    && before[k].value in g && g[before[k].value].entries.Some?
    && Grown(before[k := before[k].(childrenScanned := true)], after, Children(g, before[k].value), true)
  }

  /** Collecting the parent, the holders and the slaves one after another. */
  lemma RelationsCompose(g: Graph, l0: seq<Related>, l1: seq<Related>, l2: seq<Related>, l3: seq<Related>, l4: seq<Related>, k: nat,
                         holders: set<Device>, slaves: set<Device>)
    requires k < |l0| && Distinct(l0)
    requires l1 == l0[k := l0[k].(relationsScanned := true)]
    requires Grown(l1, l2, ParentOf(g, l0[k].value), false)
    requires Grown(l2, l3, holders, true)
    requires Grown(l3, l4, slaves, true)
    requires Mappings(g, l0[k].value) == holders + slaves && RelationsReadable(g, l0[k].value)
    ensures RelationsTaken(g, l0, l4, k)
  {
    var d := l0[k].value;
    if |l0| == 1 {
      forall e | e in ParentOf(g, d) && e != d
        ensures |l2| > 1 && l2[1].value == e
      {
        assert Listed(l2, e);
      }
    }
    forall e | e in Relations(g, d)
      ensures Listed(l4, e)
    {
      if e in ParentOf(g, d) {
        ListedStays(l2, l3, holders, true, e);
        ListedStays(l3, l4, slaves, true, e);
      } else if e in holders {
        ListedStays(l3, l4, slaves, true, e);
      }
    }
  }

  /** The list before and after the whole turn of entry k. */
  ghost predicate TurnTaken(g: Graph, before: seq<Related>, after: seq<Related>, k: nat) {
    && k < |before| <= |after| <= MAX_RELATED && Distinct(after)
    && (forall i :: 0 <= i < |before| ==>
          && after[i].value == before[i].value
          && after[i].relationsScanned == (before[i].relationsScanned || i == k)
          && (i != k ==> after[i].childrenScanned == before[i].childrenScanned)
          && after[i].exact == (before[i].exact || ExactEdge(g, after[k], before[i].value)))
    && (forall i :: |before| <= i < |after| ==>
          && after[i] == Related(after[i].value, ExactEdge(g, after[k], after[i].value), false, false)
          && FollowedEdge(g, after[k], after[i].value))
    && (|before| == 1 ==> DiskSecond(g, after))
    && AllListed(after, Relations(g, after[k].value)) && RelationsReadable(g, after[k].value)
    && (after[k].childrenScanned ==>
          after[k].exact && g[after[k].value].entries.Some? && AllListed(after, Children(g, after[k].value)))
    && (after[k].childrenScanned <==>
          !IsPartition(g, before[k].value) && (before[k].exact || before[k].value in Mappings(g, before[k].value)))
  }

  lemma TurnWithoutChildren(g: Graph, before: seq<Related>, after: seq<Related>, k: nat)
    requires RelationsTaken(g, before, after, k) && !before[k].childrenScanned
    requires IsPartition(g, before[k].value) || !after[k].exact
    ensures TurnTaken(g, before, after, k)
  {}

  lemma TurnWithChildren(g: Graph, before: seq<Related>, middle: seq<Related>, after: seq<Related>, k: nat)
    requires RelationsTaken(g, before, middle, k) && ChildrenTaken(g, middle, after, k) && !IsPartition(g, before[k].value)
    ensures TurnTaken(g, before, after, k)
  {
    var marked := middle[k := middle[k].(childrenScanned := true)];
    forall e | e in Relations(g, before[k].value)
      ensures Listed(after, e)
    {
      var i :| 0 <= i < |middle| && middle[i].value == e;
      assert marked[i].value == e;
      ListedStays(marked, after, Children(g, middle[k].value), true, e);
    }
  }

  lemma EdgesKept(g: Graph, before: seq<Related>, after: seq<Related>, k: nat, i: nat, d: Device)
    requires TurnTaken(g, before, after, k) && i < |before| && i != k
    ensures FollowedEdge(g, after[i], d) == FollowedEdge(g, before[i], d)
    ensures ExactEdge(g, after[i], d) == ExactEdge(g, before[i], d)
  {}

  lemma ExactFromStep(g: Graph, before: seq<Related>, after: seq<Related>, k: nat, m: nat, d: Device)
    requires TurnTaken(g, before, after, k) && m <= k + 1
    ensures ExactFrom(g, after, m, d) <==> ExactFrom(g, before, Smaller(m, k), d) || (m == k + 1 && ExactEdge(g, after[k], d))
  {
    forall i | 0 <= i < |before| && i != k
      ensures ExactEdge(g, after[i], d) == ExactEdge(g, before[i], d)
    {
      EdgesKept(g, before, after, k, i, d);
    }
  }

  function Smaller(a: nat, b: nat): nat {
    if a < b then a else b
  }

  lemma StaysListed(g: Graph, before: seq<Related>, after: seq<Related>, k: nat, ds: set<Device>)
    requires TurnTaken(g, before, after, k) && AllListed(before, ds)
    ensures AllListed(after, ds)
  {
    forall d | d in ds
      ensures Listed(after, d)
    {
      var i :| 0 <= i < |before| && before[i].value == d;
      assert after[i].value == d;
    }
  }

  lemma TurnKeepsScanned(g: Graph, target: Device, before: seq<Related>, after: seq<Related>, k: nat, i: nat)
    requires ScanInv(g, target, before, k) && TurnTaken(g, before, after, k) && i <= k < |before|
    ensures Scanned(g, after, i)
  {
    hide TurnTaken, RelationsReadable, Relations, Children, IsPartition, AllListed, Derived;
    TurnShape(g, before, after, k, i);
    if i < k {
      assert Scanned(g, before, i);
      StaysListed(g, before, after, k, Relations(g, before[i].value));
      if before[i].childrenScanned {
        StaysListed(g, before, after, k, Children(g, before[i].value));
      }
    }
  }

  lemma TurnShape(g: Graph, before: seq<Related>, after: seq<Related>, k: nat, i: nat)
    requires TurnTaken(g, before, after, k) && i < |before|
    ensures |before| <= |after| && after[i].value == before[i].value
    ensures before[i].exact ==> after[i].exact
    ensures i != k ==> after[i].relationsScanned == before[i].relationsScanned && after[i].childrenScanned == before[i].childrenScanned
    ensures i == k ==>
              after[i].relationsScanned && AllListed(after, Relations(g, after[k].value)) && RelationsReadable(g, after[k].value)
    ensures i == k && after[k].childrenScanned ==>
              && after[k].exact && !IsPartition(g, after[k].value)
              && after[k].value in g && g[after[k].value].entries.Some? && AllListed(after, Children(g, after[k].value))
  {}

  lemma TurnKeepsDerived(g: Graph, target: Device, before: seq<Related>, after: seq<Related>, k: nat, j: nat)
    requires ScanInv(g, target, before, k) && TurnTaken(g, before, after, k) && j < |after|
    ensures Derived(g, after, k + 1, j)
  {
    if 0 < j < |before| {
      assert Derived(g, before, k, j);
      var i :| 0 <= i < j && i < k && FollowedEdge(g, before[i], before[j].value);
      EdgesKept(g, before, after, k, i, before[j].value);
    } else if j > 0 {
      assert FollowedEdge(g, after[k], after[j].value);
    }
  }

  /** An entry that is new after the turn had no edge from the entries scanned before. */
  lemma NewHadNoEdge(g: Graph, target: Device, before: seq<Related>, after: seq<Related>, k: nat, j: nat)
    requires ScanInv(g, target, before, k) && TurnTaken(g, before, after, k) && |before| <= j < |after|
    ensures !ExactFrom(g, before, k, after[j].value)
  {
    var d := after[j].value;
    forall i | 0 <= i < k && i < |before|
      ensures !ExactEdge(g, before[i], d)
    {
      assert Scanned(g, before, i);
      assert !Listed(before, d);
    }
  }

  lemma TurnKeepsExact(g: Graph, target: Device, before: seq<Related>, after: seq<Related>, k: nat, j: nat)
    requires ScanInv(g, target, before, k) && TurnTaken(g, before, after, k) && j < |after|
    ensures after[j].exact <==> j == 0 || ExactFrom(g, after, k + 1, after[j].value)
  {
    hide ExactFrom, ExactEdge, Relations, Children, Mappings, Scanned, Derived, Distinct;
    ExactFromStep(g, before, after, k, k + 1, after[j].value);
    if j >= |before| {
      NewHadNoEdge(g, target, before, after, k, j);
    }
  }

  lemma TurnKeepsInTime(g: Graph, target: Device, before: seq<Related>, after: seq<Related>, k: nat, j: nat)
    requires ScanInv(g, target, before, k) && TurnTaken(g, before, after, k) && j <= k
    ensures after[j].childrenScanned <==> !IsPartition(g, after[j].value) && ExactInTime(g, after, j)
  {
    hide ExactFrom, ExactEdge, Relations, Children, Mappings, Scanned, Derived, Distinct;
    ExactFromStep(g, before, after, k, j, after[j].value);
  }

  /** A turn keeps the invariant of the scan. */
  lemma TurnKeepsInv(g: Graph, target: Device, before: seq<Related>, after: seq<Related>, k: nat)
    requires ScanInv(g, target, before, k) && TurnTaken(g, before, after, k)
    ensures ScanInv(g, target, after, k + 1)
  {
    hide Scanned, Derived, ExactFrom, ExactInTime;
    var m := k + 1;
    TurnKeepsDisk(g, before, after, k);
    TurnKeepsShape(g, target, before, after, k);
    forall i | 0 <= i < k + 1
      ensures Scanned(g, after, i)
    {
      TurnKeepsScanned(g, target, before, after, k, i);
    }
    forall i | 0 <= i < k + 1
      ensures after[i].childrenScanned <==> !IsPartition(g, after[i].value) && ExactInTime(g, after, i)
    {
      TurnKeepsInTime(g, target, before, after, k, i);
    }
    forall j | 0 <= j < |after|
      ensures Derived(g, after, m, j)
    {
      TurnKeepsDerived(g, target, before, after, k, j);
    }
    forall j | 0 <= j < |after|
      ensures after[j].exact <==> j == 0 || ExactFrom(g, after, m, after[j].value)
    {
      TurnKeepsExact(g, target, before, after, k, j);
    }
  }

  lemma TurnKeepsShape(g: Graph, target: Device, before: seq<Related>, after: seq<Related>, k: nat)
    requires ListShape(target, before, k) && TurnTaken(g, before, after, k)
    ensures ListShape(target, after, k + 1)
  {
    hide ExactEdge, FollowedEdge, AllListed, RelationsReadable, DiskSecond;
  }

  lemma TurnKeepsDisk(g: Graph, before: seq<Related>, after: seq<Related>, k: nat)
    requires TurnTaken(g, before, after, k) && (if k == 0 then |before| == 1 else DiskSecond(g, before))
    ensures DiskSecond(g, after)
  {
    hide ExactEdge, FollowedEdge, AllListed, RelationsReadable, Distinct;
  }

  // ---------------------------------------------------------------- failures

  /** Every entry, with its exactness, is of the closure that is asked for. */
  ghost predicate Sound(g: Graph, target: Device, list: seq<Related>) {
    forall j {:trigger SoundAt(g, target, list, j)} :: 0 <= j < |list| ==> SoundAt(g, target, list, j)
  }

  ghost predicate SoundAt(g: Graph, target: Device, list: seq<Related>, j: nat)
    requires j < |list|
  {
    Intended(g, target, Mark(list[j].value, list[j].exact)) && Intended(g, target, Mark(list[j].value, false))
  }

  /** The mark of entry k leads to these devices. */
  predicate LeadsToAll(g: Graph, list: seq<Related>, k: nat, ds: set<Device>, exact: bool)
    requires k < |list|
  {
    forall d :: d in ds ==> Leads(g, Mark(list[k].value, list[k].exact), Mark(d, exact))
  }

  lemma SoundGrows(g: Graph, target: Device, before: seq<Related>, after: seq<Related>, added: set<Device>, exact: bool, k: nat)
    requires Sound(g, target, before) && Grown(before, after, added, exact) && k < |before| && LeadsToAll(g, before, k, added, exact)
    ensures Sound(g, target, after) && after[k].value == before[k].value && (before[k].exact ==> after[k].exact)
  {
    hide Intended, Leads;
    assert SoundAt(g, target, before, k);
    forall j | 0 <= j < |after|
      ensures SoundAt(g, target, after, j)
    {
      if after[j].value in added {
        IntendedStep(g, target, Mark(before[k].value, before[k].exact), Mark(after[j].value, exact));
      }
      assert j < |before| ==> SoundAt(g, target, before, j);
    }
  }

  lemma SoundMarked(g: Graph, target: Device, before: seq<Related>, k: nat, marked: Related)
    requires Sound(g, target, before) && k < |before| && marked.value == before[k].value && marked.exact == before[k].exact
    ensures Sound(g, target, before[k := marked])
  {
    hide Intended;
    var after := before[k := marked];
    forall j | 0 <= j < |after|
      ensures SoundAt(g, target, after, j)
    {
      assert SoundAt(g, target, before, j);
    }
  }

  /** Why a scan stops at an entry: a read that it calls for fails, or the list is full and a
    * device of the closure is not listed. */
  ghost predicate StoppedAt(g: Graph, target: Device, list: seq<Related>, k: nat)
    requires k < |list|
  {
    || Unreadable(g, Mark(list[k].value, list[k].exact))
    || (|list| == MAX_RELATED && exists d :: Intended(g, target, Mark(d, false)) && !Listed(list, d))
  }

  function Values(list: seq<Related>): set<Device> {
    set r | r in list :: r.value
  }

  lemma ValuesAreListed(list: seq<Related>, d: Device)
    ensures d in Values(list) <==> Listed(list, d)
  {
    if Listed(list, d) {
      var i :| 0 <= i < |list| && list[i].value == d;
      assert list[i] in list;
    }
  }

  lemma {:induction false} ValuesCount(list: seq<Related>)
    ensures |Values(list)| <= |list|
    ensures Distinct(list) ==> |Values(list)| == |list|
    ensures forall d :: d in Values(list) <==> Listed(list, d)
    decreases |list|
  {
    forall d
      ensures d in Values(list) <==> Listed(list, d)
    {
      ValuesAreListed(list, d);
    }
    hide Listed;
    if list == [] {
      assert Values(list) == {};
    } else {
      var front, last := list[..|list| - 1], list[|list| - 1];
      ValuesCount(front);
      ValuesGrow(front, last);
      assert list == front + [last];
    }
  }

  lemma ValuesGrow(front: seq<Related>, last: Related)
    ensures Values(front + [last]) == Values(front) + {last.value}
    ensures Distinct(front + [last]) ==> Distinct(front) && last.value !in Values(front)
  {
    var list := front + [last];
    if Distinct(list) {
      forall r | r in front
        ensures r.value != last.value
      {
        var i :| 0 <= i < |front| && front[i] == r;
        assert list[i] == r && list[|front|] == last;
      }
      assert forall i, j :: 0 <= i < j < |front| ==> front[i] == list[i] && front[j] == list[j];
    }
  }

  /** A scan stops only if something of the closure cannot be read or the closure has no room. */
  lemma StopHasCause(g: Graph, target: Device, list: seq<Related>, k: nat)
    requires Distinct(list) && Sound(g, target, list) && k < |list| && StoppedAt(g, target, list, k)
    ensures !Readable(g, target) || !Bounded(g, target)
  {
    hide Intended, Unreadable;
    assert SoundAt(g, target, list, k);
    if Readable(g, target) && Bounded(g, target) {
      var d :| Intended(g, target, Mark(d, false)) && !Listed(list, d);
      var within :| |within| <= MAX_RELATED && Holds(g, target, within);
      ValuesCount(list);
      forall e | e in Values(list) + {d}
        ensures e in within
      {
        if e in Values(list) {
          var i :| 0 <= i < |list| && list[i].value == e;
          assert SoundAt(g, target, list, i);
        }
      }
      Subset(Values(list) + {d}, within);
    }
  }

  lemma Subset(a: set<Device>, b: set<Device>)
    requires a <= b
    ensures |a| <= |b|
  {
    if a != {} {
      var x :| x in a;
      Subset(a - {x}, b - {x});
    }
  }

  // ---------------------------------------------------------------- reachability

  /** The devices whose children the scan expanded. */
  ghost function Expanded(list: seq<Related>): set<Device> {
    set r | r in list && r.childrenScanned :: r.value
  }

  predicate Edge(g: Graph, expanded: set<Device>, from: Device, to: Device) {
    to in Relations(g, from) || (from in expanded && to in Children(g, from))
  }

  /** A path along relations, and along children of expanded devices. */
  ghost predicate IsPath(g: Graph, expanded: set<Device>, path: seq<Device>) {
    |path| > 0 && forall i {:trigger StepOf(g, expanded, path, i)} :: 0 < i < |path| ==> StepOf(g, expanded, path, i)
  }

  predicate StepOf(g: Graph, expanded: set<Device>, path: seq<Device>, i: nat)
    requires 0 < i < |path|
  {
    Edge(g, expanded, path[i - 1], path[i])
  }

  ghost predicate Reachable(g: Graph, expanded: set<Device>, target: Device, d: Device) {
    exists path :: IsPath(g, expanded, path) && path[0] == target && path[|path| - 1] == d
  }

  lemma ExpandedEntry(list: seq<Related>, i: nat)
    requires Distinct(list) && i < |list|
    ensures list[i].value in Expanded(list) <==> list[i].childrenScanned
  {
    if list[i].value in Expanded(list) {
      var r :| r in list && r.childrenScanned && r.value == list[i].value;
      var j :| 0 <= j < |list| && list[j] == r;
    }
  }

  lemma {:induction false} PathStaysListed(g: Graph, target: Device, list: seq<Related>, path: seq<Device>, m: nat)
    requires ScanInv(g, target, list, |list|)
    requires IsPath(g, Expanded(list), path) && path[0] == target && m < |path|
    ensures Listed(list, path[m])
  {
    if m == 0 {
      assert list[0].value == target;
    } else {
      PathStaysListed(g, target, list, path, m - 1);
      assert StepOf(g, Expanded(list), path, m);
      var i :| 0 <= i < |list| && list[i].value == path[m - 1];
      assert Scanned(g, list, i);
      ExpandedEntry(list, i);
    }
  }

  lemma {:induction false} ListedIsReached(g: Graph, target: Device, list: seq<Related>, j: nat)
    requires ScanInv(g, target, list, |list|) && j < |list|
    ensures Reachable(g, Expanded(list), target, list[j].value)
    decreases j
  {
    if j == 0 {
      assert IsPath(g, Expanded(list), [target]);
      assert [target][0] == target;
    } else {
      assert Derived(g, list, |list|, j);
      var i :| 0 <= i < j && FollowedEdge(g, list[i], list[j].value);
      ListedIsReached(g, target, list, i);
      ExpandedEntry(list, i);
      var path :| IsPath(g, Expanded(list), path) && path[0] == target && path[|path| - 1] == list[i].value;
      ExtendPath(g, Expanded(list), path, list[j].value);
      assert (path + [list[j].value])[0] == target;
    }
  }

  lemma ExtendPath(g: Graph, expanded: set<Device>, path: seq<Device>, d: Device)
    requires IsPath(g, expanded, path) && Edge(g, expanded, path[|path| - 1], d)
    ensures IsPath(g, expanded, path + [d])
    ensures (path + [d])[|path|] == d
  {
    var longer := path + [d];
    forall i | 0 < i < |longer|
      ensures StepOf(g, expanded, longer, i)
    {
      assert i < |path| ==> StepOf(g, expanded, path, i);
    }
  }

  /** A finished scan lists exactly the reachable devices. */
  lemma ScanIsClosure(g: Graph, target: Device, list: seq<Related>, d: Device)
    requires ScanInv(g, target, list, |list|)
    ensures Listed(list, d) <==> Reachable(g, Expanded(list), target, d)
  {
    if Reachable(g, Expanded(list), target, d) {
      var path :| IsPath(g, Expanded(list), path) && path[0] == target && path[|path| - 1] == d;
      PathStaysListed(g, target, list, path, |path| - 1);
    }
    if Listed(list, d) {
      var j :| 0 <= j < |list| && list[j].value == d;
      ListedIsReached(g, target, list, j);
    }
  }

  // ---------------------------------------------------------------- the same on what sysfs says

  ghost predicate ListedExactly(list: seq<Related>, d: Device) {
    exists i :: 0 <= i < |list| && list[i].value == d && list[i].exact
  }

  /** Every entry of a directory has a device number, and that device is listed as exact. */
  ghost predicate DirectoryListed(list: seq<Related>, entries: Option<seq<Option<Device>>>) {
    entries.Some? && forall e :: e in entries.value ==> e.Some? && ListedExactly(list, e.value)
  }

  /** What is listed next to an entry, read off its node: its holders; its slaves or, for a
    * partition, its disk; and what has a device number below it if it was expanded. */
  ghost predicate NeighboursListed(g: Graph, list: seq<Related>, i: nat)
    requires i < |list|
  {
    list[i].value in g && var node := g[list[i].value];
    && node.isPartition.Some?
    && DirectoryListed(list, node.holders)
    && (node.isPartition == Some(false) ==> DirectoryListed(list, node.slaves))
    && (node.isPartition == Some(true) ==> node.parent.Some? && Listed(list, node.parent.value))
    && (list[i].childrenScanned ==>
          && list[i].exact && node.isPartition == Some(false) && node.entries.Some?
          && forall e :: e in node.entries.value && e.Some? ==> ListedExactly(list, e.value))
  }

  /** The node names the device in a directory that carries a mapping of the whole range. */
  predicate NamesExactly(node: Node, expanded: bool, d: Device) {
    || (node.holders.Some? && Some(d) in node.holders.value)
    || (node.isPartition != Some(true) && node.slaves.Some? && Some(d) in node.slaves.value)
    || (expanded && node.isPartition != Some(true) && node.entries.Some? && Some(d) in node.entries.value)
  }

  /** One of the m first entries names the device in such a directory. */
  ghost predicate NamedBy(g: Graph, list: seq<Related>, m: nat, d: Device) {
    exists i :: 0 <= i < m && i < |list| && list[i].value in g && NamesExactly(g[list[i].value], list[i].childrenScanned, d)
  }

  /** The device is the disk around one of the m first entries. */
  ghost predicate AroundOneOf(g: Graph, list: seq<Related>, m: nat, d: Device) {
    exists i :: 0 <= i < m && i < |list| && list[i].value in g
      && g[list[i].value].isPartition == Some(true) && g[list[i].value].parent == Some(d)
  }

  /** Why entry j is in the list, exact or not and expanded or not, read off the nodes. */
  ghost predicate EntryFounded(g: Graph, list: seq<Related>, j: nat)
    requires j < |list|
  {
    var d := list[j].value;
    && d in g
    && (j == 0 || NamedBy(g, list, j, d) || AroundOneOf(g, list, j, d))
    && (list[j].exact <==> j == 0 || NamedBy(g, list, |list|, d))
    && (list[j].childrenScanned <==>
          g[d].isPartition == Some(false) && (j == 0 || NamedBy(g, list, j, d) || NamesExactly(g[d], false, d)))
  }

  lemma NamedInDirectory(entries: Option<seq<Option<Device>>>, d: Device)
    ensures d in Names(entries) <==> entries.Some? && Some(d) in entries.value
  {
    if entries.Some? && Some(d) in entries.value {
      var e := Some(d);
      assert e in entries.value && e.Some? && e.value == d;
    }
  }

  lemma ExactEdgeOnNodes(g: Graph, from: Related, d: Device)
    ensures ExactEdge(g, from, d) <==> from.value in g && NamesExactly(g[from.value], from.childrenScanned, d)
    ensures FollowedEdge(g, from, d) <==>
              from.value in g && (NamesExactly(g[from.value], from.childrenScanned, d)
                                  || (g[from.value].isPartition == Some(true) && g[from.value].parent == Some(d)))
  {
    hide Names;
    if from.value in g {
      var node := g[from.value];
      NamedInDirectory(node.holders, d);
      NamedInDirectory(node.slaves, d);
      NamedInDirectory(node.entries, d);
    }
  }

  /** A finished scan, read off the nodes: every neighbour of an entry is listed, and every entry
    * but the target is a neighbour of an earlier one. */
  lemma ScanOnNodes(g: Graph, target: Device, list: seq<Related>)
    requires ScanInv(g, target, list, |list|)
    ensures forall i :: 0 <= i < |list| ==> NeighboursListed(g, list, i)
    ensures forall j :: 0 <= j < |list| ==> EntryFounded(g, list, j)
  {
    hide Distinct, ExactInTime, DiskSecond, ExactEdge, FollowedEdge, Names;
    forall j | 0 <= j < |list|
      ensures EntryFounded(g, list, j)
    {
      FoundedOnNodes(g, target, list, j);
    }
    forall i | 0 <= i < |list|
      ensures NeighboursListed(g, list, i)
    {
      NeighboursOnNodes(g, target, list, i);
    }
  }

  lemma FoundedOnNodes(g: Graph, target: Device, list: seq<Related>, j: nat)
    requires ScanInv(g, target, list, |list|) && j < |list|
    ensures EntryFounded(g, list, j)
  {
    hide Distinct, DiskSecond, ExactEdge, FollowedEdge, Mappings, Scanned, NamesExactly, NamedBy, AroundOneOf, ExactFrom, Derived;
    var d := list[j].value;
    InReach(g, target, list, j);
    MappingsOnNodes(g, d, d);
    ExactFromOnNodes(g, list, j, d);
    ExactFromOnNodes(g, list, |list|, d);
    DerivedOnNodes(g, list, |list|, j);
  }

  lemma ExactFromOnNodes(g: Graph, list: seq<Related>, m: nat, d: Device)
    ensures ExactFrom(g, list, m, d) <==> NamedBy(g, list, m, d)
  {
    hide ExactEdge, NamesExactly;
    forall i | 0 <= i < |list|
      ensures ExactEdge(g, list[i], d) <==> list[i].value in g && NamesExactly(g[list[i].value], list[i].childrenScanned, d)
    {
      ExactEdgeOnNodes(g, list[i], d);
    }
  }

  lemma DerivedOnNodes(g: Graph, list: seq<Related>, k: nat, j: nat)
    requires j < |list| && Derived(g, list, k, j)
    ensures j == 0 || NamedBy(g, list, j, list[j].value) || AroundOneOf(g, list, j, list[j].value)
  {
    hide FollowedEdge, NamesExactly;
    if j > 0 {
      var i :| 0 <= i < j && i < k && FollowedEdge(g, list[i], list[j].value);
      ExactEdgeOnNodes(g, list[i], list[j].value);
    }
  }

  lemma InReach(g: Graph, target: Device, list: seq<Related>, j: nat)
    requires ScanInv(g, target, list, |list|) && j < |list|
    ensures list[j].value in g && g[list[j].value].isPartition.Some?
    ensures g[list[j].value].isPartition == Some(false) <==> !IsPartition(g, list[j].value)
  {
    assert Scanned(g, list, j);
    var whole := g[list[j].value].isPartition;
    if whole.value {
      assert whole == Some(true);
    } else {
      assert whole == Some(false);
    }
  }

  lemma MappingsOnNodes(g: Graph, d: Device, e: Device)
    ensures e in Mappings(g, d) <==> d in g && NamesExactly(g[d], false, e)
  {
    ExactEdgeOnNodes(g, Related(d, false, false, false), e);
  }

  lemma ExactlyListed(g: Graph, target: Device, list: seq<Related>, i: nat, d: Device)
    requires ScanInv(g, target, list, |list|) && i < |list| && Listed(list, d)
    requires list[i].value in g && NamesExactly(g[list[i].value], list[i].childrenScanned, d)
    ensures ListedExactly(list, d)
  {
    hide Distinct, ExactInTime, DiskSecond, ExactEdge, Names, Scanned, Derived, NamesExactly;
    ExactEdgeOnNodes(g, list[i], d);
    assert ExactFrom(g, list, |list|, d);
  }

  lemma NeighboursOnNodes(g: Graph, target: Device, list: seq<Related>, i: nat)
    requires ScanInv(g, target, list, |list|) && i < |list|
    ensures NeighboursListed(g, list, i)
  {
    hide Distinct, ExactInTime, DiskSecond, Derived, ExactFrom, Names;
    assert Scanned(g, list, i);
    InReach(g, target, list, i);
    var node := g[list[i].value];
    if node.isPartition == Some(true) {
      assert node.parent.value in Relations(g, list[i].value);
    }
    hide ScanInv;
    forall e | e in node.holders.value
      ensures e.Some? && ListedExactly(list, e.value)
    {
      NamedInDirectory(node.holders, e.value);
      ExactlyListed(g, target, list, i, e.value);
    }
    if node.isPartition == Some(false) {
      forall e | e in node.slaves.value
        ensures e.Some? && ListedExactly(list, e.value)
      {
        NamedInDirectory(node.slaves, e.value);
        ExactlyListed(g, target, list, i, e.value);
      }
    }
    if list[i].childrenScanned {
      forall e | e in node.entries.value && e.Some?
        ensures ListedExactly(list, e.value)
      {
        NamedInDirectory(node.entries, e.value);
        ExactlyListed(g, target, list, i, e.value);
      }
    }
  }

  /** What a scan has to be able to read of a node. */
  predicate NodeReadable(node: Node) {
    && node.isPartition.Some?
    && node.holders.Some? && None !in node.holders.value
    && (if node.isPartition.value then node.parent.Some?
        else node.slaves.Some? && None !in node.slaves.value && node.entries.Some?)
  }

  predicate DirectoryWithin(entries: Option<seq<Option<Device>>>, within: set<Device>) {
    entries.Some? ==> forall e :: e in entries.value && e.Some? ==> e.value in within
  }

  /** A condition on the nodes under which collecting succeeds: the target lies in a set of at most
    * 1024 readable nodes that holds all their neighbours. */
  lemma NodesSuffice(g: Graph, target: Device, within: set<Device>)
    requires target in within && |within| <= 1024
    requires forall d :: d in within ==>
               && d in g && NodeReadable(g[d])
               && (g[d].parent.Some? ==> g[d].parent.value in within)
               && DirectoryWithin(g[d].holders, within) && DirectoryWithin(g[d].slaves, within) && DirectoryWithin(g[d].entries, within)
    ensures Readable(g, target) && Bounded(g, target)
  {
    forall d | d in within
      ensures Relations(g, d) + Children(g, d) <= within
    {
      NamesWithin(g[d].holders, within);
      NamesWithin(g[d].slaves, within);
      NamesWithin(g[d].entries, within);
    }
    forall m | Intended(g, target, m)
      ensures m.device in within && !Unreadable(g, m)
    {
      IntendedWithin(g, target, within, m);
      NodeIsReadable(g, m.device);
    }
    assert Holds(g, target, within);
  }

  lemma NamesWithin(entries: Option<seq<Option<Device>>>, within: set<Device>)
    requires DirectoryWithin(entries, within)
    ensures Names(entries) <= within
  {}

  lemma NodeIsReadable(g: Graph, d: Device)
    requires d in g && NodeReadable(g[d])
    ensures forall exact :: !Unreadable(g, Mark(d, exact))
  {
    var node := g[d];
    forall i | 0 <= i < |node.holders.value|
      ensures node.holders.value[i].Some?
    {
      assert node.holders.value[i] in node.holders.value;
    }
    if !node.isPartition.value {
      forall i | 0 <= i < |node.slaves.value|
        ensures node.slaves.value[i].Some?
      {
        assert node.slaves.value[i] in node.slaves.value;
      }
    }
  }

  class RelatedDevices {
    var devices: array<Related>
    var count: nat

    ghost predicate Valid()
      reads this
    {
      devices.Length == MAX_RELATED && count <= MAX_RELATED
    }

    ghost function List(): seq<Related>
      requires Valid()
      reads this, devices
    {
      devices[..count]
    }

    constructor ()
      ensures Valid() && List() == [] && fresh(devices)
    {
      devices := new Related[MAX_RELATED](_ => Related(0, false, false, false));
      count := 0;
    }

    /** ld_add_related_device: fails only when the device is new and the list is full. */
    method Add(value: Device, exact: bool) returns (ok: bool)
      requires Valid() && Distinct(List())
      modifies this`count, devices
      ensures Valid() && devices == old(devices)
      ensures ok ==> Grown(old(List()), List(), {value}, exact)
      ensures !ok ==> List() == old(List()) && |List()| == MAX_RELATED && !Listed(List(), value)
    {
      ghost var before := List();
      for index := 0 to count
        invariant Valid() && List() == before && count == old(count)
        invariant forall i :: 0 <= i < index ==> before[i].value != value
      {
        if devices[index].value == value {
          if exact {
            devices[index] := devices[index].(exact := true);
          }
          assert List()[index].value == value;
          assert forall i :: 0 <= i < count && i != index ==> List()[i] == before[i];
          return true;
        }
      }
      if count >= MAX_RELATED {
        return false;
      }
      devices[count] := Related(value, exact, false, false);
      count := count + 1;
      assert List() == before + [Related(value, exact, false, false)];
      assert List()[|before|].value == value;
      ok := true;
    }

    /** ld_collect_sysfs_directory. */
    method CollectDirectory(entries: Option<seq<Option<Device>>>, exact: bool, requireEntries: bool) returns (ok: bool)
      requires Valid() && Distinct(List())
      modifies this`count, devices
      ensures Valid() && devices == old(devices)
      ensures ok ==> Grown(old(List()), List(), Names(entries), exact) && entries.Some? && (requireEntries ==> AllNamed(entries))
      ensures !ok ==> exists added :: added <= Names(entries) && Grown(old(List()), List(), added, exact)
      ensures !ok ==>
                || entries.None?
                || (requireEntries && !AllNamed(entries))
                || (|List()| == MAX_RELATED && exists d :: d in Names(entries) && !Listed(List(), d))
    {
      ghost var before := List();
      ghost var added: set<Device> := {};
      assert Grown(before, List(), {}, exact);
      if entries.None? {
        return false;
      }
      for index := 0 to |entries.value|
        invariant Valid() && devices == old(devices)
        invariant Grown(before, List(), added, exact)
        invariant added == Names(Some(entries.value[..index]))
        invariant requireEntries ==> forall i :: 0 <= i < index ==> entries.value[i].Some?
      {
        var entry := entries.value[index];
        ghost var earlier := entries.value[..index];
        assert entries.value[..index + 1] == earlier + [entry];
        assert added <= Names(entries);
        if entry.None? {
          if requireEntries {
            assert !AllNamed(entries);
            return false;
          }
          assert Names(Some(entries.value[..index + 1])) == added;
          continue;
        }
        ghost var middle := List();
        var listed := Add(entry.value, exact);
        if !listed {
          assert entry in entries.value && entry.value in Names(entries);
          return false;
        }
        GrowOne(before, middle, List(), added, entry.value, exact);
        assert Names(Some(entries.value[..index + 1])) == added + {entry.value};
        added := added + {entry.value};
      }
      assert entries.value[..|entries.value|] == entries.value;
      ok := true;
    }

    /** Collects one relation directory of an entry. */
    method ScanDirectory(g: Graph, ghost target: Device, index: nat, entries: Option<seq<Option<Device>>>, requireEntries: bool)
      returns (ok: bool)
      requires Valid() && Distinct(List()) && Sound(g, target, List()) && index < count
      requires entries.None? || (requireEntries && !AllNamed(entries)) ==> Unreadable(g, Mark(List()[index].value, List()[index].exact))
      requires LeadsToAll(g, List(), index, Names(entries), true)
      modifies this`count, devices
      ensures Valid() && devices == old(devices) && Distinct(List()) && index < count
      ensures Sound(g, target, List()) && List()[index].value == old(List()[index].value)
      ensures ok ==> Grown(old(List()), List(), Names(entries), true) && entries.Some? && (requireEntries ==> AllNamed(entries))
      ensures !ok ==> StoppedAt(g, target, List(), index)
    {
      hide Grown, Distinct, Sound, Listed, Intended, Leads, Unreadable, StoppedAt;
      ghost var before := List();
      ok := CollectDirectory(entries, true, requireEntries);
      ghost var added := Names(entries);
      if !ok {
        added :| added <= Names(entries) && Grown(before, List(), added, true);
      }
      GrownFacts(before, List(), added, true);
      SoundGrows(g, target, before, List(), added, true, index);
      if !ok {
        StopInDirectory(g, target, before, List(), index, entries, requireEntries);
      }
    }

    /** Marks an entry as scanned and adds the disk that contains a partition. */
    method ScanParent(g: Graph, ghost target: Device, index: nat) returns (ok: bool)
      requires Valid() && Distinct(List()) && Sound(g, target, List()) && index < count
      requires List()[index].value in g && g[List()[index].value].isPartition.Some?
      modifies this`count, devices
      ensures Valid() && devices == old(devices) && Distinct(List()) && index < count
      ensures Sound(g, target, List()) && List()[index].value == old(List()[index].value)
      ensures ok ==>
                var marked := old(List())[index := old(List())[index].(relationsScanned := true)];
                Grown(marked, List(), ParentOf(g, old(List())[index].value), false)
      ensures ok && IsPartition(g, List()[index].value) ==> g[List()[index].value].parent.Some?
      ensures !ok ==> StoppedAt(g, target, List(), index)
    {
      hide Grown, Distinct, Sound, Listed, StoppedAt, Intended;
      ghost var before := List();
      var node := g[devices[index].value];
      devices[index] := devices[index].(relationsScanned := true);
      ghost var marked := List();
      assert marked == before[index := before[index].(relationsScanned := true)];
      SoundMarked(g, target, before, index, marked[index]);
      SameValues(before, marked);
      NothingAdded(marked, false);
      if node.isPartition.value {
        if node.parent.None? {
          StopUnreadable(g, target, List(), index);
          return false;
        }
        ok := Add(node.parent.value, false);
        if !ok {
          StopFull(g, target, List(), index, Mark(node.parent.value, false));
          return;
        }
      }
      ok := true;
      GrownFacts(marked, List(), ParentOf(g, marked[index].value), false);
      SoundGrows(g, target, marked, List(), ParentOf(g, marked[index].value), false, index);
    }

    /** The first half of the turn of an entry: parent, holders and, unless it is a
      * partition, slaves. */
    method ScanRelations(g: Graph, ghost target: Device, index: nat) returns (ok: bool)
      requires Valid() && Distinct(List()) && Sound(g, target, List()) && index < count
      requires List()[index].value in g && g[List()[index].value].isPartition.Some?
      modifies this`count, devices
      ensures Valid() && devices == old(devices) && Distinct(List()) && index < count
      ensures Sound(g, target, List()) && List()[index].value == old(List()[index].value)
      ensures ok ==> RelationsTaken(g, old(List()), List(), index)
      ensures !ok ==> StoppedAt(g, target, List(), index)
    {
      hide Grown, RelationsTaken, Distinct, Sound, Listed, StoppedAt, Intended;
      ghost var l0 := List();
      var node := g[devices[index].value];
      ok := ScanParent(g, target, index);
      if !ok {
        return;
      }
      ghost var l2 := List();
      ok := ScanDirectory(g, target, index, node.holders, true);
      if !ok {
        return;
      }
      ghost var l3 := List();
      ghost var slaves: set<Device> := {};
      NothingAdded(l3, true);
      if !node.isPartition.value {
        ok := ScanDirectory(g, target, index, node.slaves, true);
        if !ok {
          return;
        }
        slaves := Names(node.slaves);
      }
      RelationsCompose(g, l0, l0[index := l0[index].(relationsScanned := true)], l2, l3, List(), index, Names(node.holders), slaves);
    }

    /** The second half of the turn: the children of a whole device known to map the range. */
    method ScanChildren(g: Graph, ghost target: Device, index: nat) returns (ok: bool)
      requires Valid() && Distinct(List()) && Sound(g, target, List()) && index < count
      requires List()[index].value in g && g[List()[index].value].isPartition == Some(false)
      requires List()[index].exact && !List()[index].childrenScanned
      modifies this`count, devices
      ensures Valid() && devices == old(devices) && Distinct(List()) && index < count
      ensures Sound(g, target, List()) && List()[index].value == old(List()[index].value)
      ensures ok ==> ChildrenTaken(g, old(List()), List(), index)
      ensures !ok ==> StoppedAt(g, target, List(), index)
    {
      hide Grown, Distinct, Sound, Listed, StoppedAt, Intended;
      ghost var before := List();
      devices[index] := devices[index].(childrenScanned := true);
      ghost var marked := List();
      assert marked == before[index := before[index].(childrenScanned := true)];
      SoundMarked(g, target, before, index, marked[index]);
      SameValues(before, marked);
      ok := ScanDirectory(g, target, index, g[devices[index].value].entries, false);
    }

    /** ld_collect_related_devices.  On success the list is exactly what is reachable from the
      * target, all reads that it called for succeeded, and every entry is of the closure that is
      * asked for.  It succeeds whenever that closure can be read and has room; where no disk
      * around a partition is mapped as well, it succeeds exactly then. */
    method Collect(g: Graph, target: Device) returns (ok: bool)
      requires Valid() && count == 0
      modifies this`count, devices
      ensures Valid() && devices == old(devices)
      ensures ok ==> ScanInv(g, target, List(), |List()|)
      ensures ok ==> forall i :: 0 <= i < |List()| ==> NeighboursListed(g, List(), i) && EntryFounded(g, List(), i)
      ensures ok ==> forall d :: Listed(List(), d) <==> Reachable(g, Expanded(List()), target, d)
      ensures Sound(g, target, List())
      ensures !ok ==> exists k :: 0 <= k < |List()| && StoppedAt(g, target, List(), k)
      ensures Readable(g, target) && Bounded(g, target) ==> ok
      ensures TimelyGraph(g, target) ==> (ok <==> Readable(g, target) && Bounded(g, target))
    {
      hide Sound, Scanned, Derived, ExactFrom, ExactInTime, Reachable, Expanded, StoppedAt, Unreadable, NeighboursListed, EntryFounded,
           RelationsTaken, ChildrenTaken, TurnTaken, Readable, Bounded, TimelyGraph, Intended;
      var added := Add(target, true);
      assert added;
      FirstEntry(g, target, List());
      var index := 0;
      while index < count
        invariant Valid() && devices == old(devices) && index <= count
        invariant ScanInv(g, target, List(), index)
        invariant Sound(g, target, List())
        decreases MAX_RELATED - index
      {
        ghost var before := List();
        var device := devices[index].value;
        if device !in g || g[device].isPartition.None? {
          Unresolved(g, target, List(), index);
          StopHasCause(g, target, List(), index);
          return false;
        }
        var isPartition := g[device].isPartition.value;
        ok := ScanRelations(g, target, index);
        if !ok {
          StopHasCause(g, target, List(), index);
          return;
        }
        ghost var middle := List();
        TurnBegun(g, target, before, middle, index);
        if devices[index].exact && !isPartition && !devices[index].childrenScanned {
          ok := ScanChildren(g, target, index);
          if !ok {
            StopHasCause(g, target, List(), index);
            return;
          }
          TurnWithChildren(g, before, middle, List(), index);
        } else {
          TurnWithoutChildren(g, before, middle, index);
        }
        TurnKeepsInv(g, target, before, List(), index);
        index := index + 1;
      }
      forall d
        ensures Listed(List(), d) <==> Reachable(g, Expanded(List()), target, d)
      {
        ScanIsClosure(g, target, List(), d);
      }
      if TimelyGraph(g, target) {
        TimelyScanReads(g, target, List());
      }
      ScanOnNodes(g, target, List());
      ok := true;
    }
  }

  lemma FirstTwoDiffer(list: seq<Related>)
    requires Distinct(list)
    ensures |list| > 1 ==> list[0].value != list[1].value
  {}

  lemma FirstEntry(g: Graph, target: Device, list: seq<Related>)
    requires Grown([], list, {target}, true)
    ensures ScanInv(g, target, list, 0) && Sound(g, target, list)
  {
    assert Listed(list, target);
    FirstTwoDiffer(list);
    TargetIsIntended(g, target, true);
    TargetIsIntended(g, target, false);
    assert SoundAt(g, target, list, 0);
  }

  lemma Unresolved(g: Graph, target: Device, list: seq<Related>, k: nat)
    requires k < |list| && (list[k].value !in g || g[list[k].value].isPartition.None?)
    ensures StoppedAt(g, target, list, k)
  {}

  lemma TurnBegun(g: Graph, target: Device, before: seq<Related>, middle: seq<Related>, k: nat)
    requires ScanInv(g, target, before, k) && RelationsTaken(g, before, middle, k)
    ensures !before[k].childrenScanned && !middle[k].childrenScanned && middle[k].value == before[k].value
  {}

  lemma SameValues(before: seq<Related>, after: seq<Related>)
    requires Distinct(before) && |before| == |after| && forall i :: 0 <= i < |before| ==> after[i].value == before[i].value
    ensures Distinct(after)
  {}

  lemma NothingAdded(list: seq<Related>, exact: bool)
    requires Distinct(list) && |list| <= MAX_RELATED
    ensures Grown(list, list, {}, exact)
  {}

  lemma GrownFacts(before: seq<Related>, after: seq<Related>, added: set<Device>, exact: bool)
    requires Grown(before, after, added, exact)
    ensures Distinct(after) && |before| <= |after| <= MAX_RELATED
    ensures forall i :: 0 <= i < |before| ==> after[i].value == before[i].value
  {}

  lemma StopUnreadable(g: Graph, target: Device, list: seq<Related>, k: nat)
    requires k < |list| && Unreadable(g, Mark(list[k].value, list[k].exact))
    ensures StoppedAt(g, target, list, k)
  {}

  lemma StopFull(g: Graph, target: Device, list: seq<Related>, k: nat, m: Mark)
    requires k < |list| == MAX_RELATED && !Listed(list, m.device) && Sound(g, target, list)
    requires Leads(g, Mark(list[k].value, list[k].exact), m)
    ensures StoppedAt(g, target, list, k)
  {
    hide Intended, Leads;
    assert SoundAt(g, target, list, k);
    IntendedStep(g, target, Mark(list[k].value, list[k].exact), m);
  }

  /** A relation directory failed: it or one of its entries cannot be read, or the list is full. */
  lemma StopInDirectory(g: Graph, target: Device, before: seq<Related>, list: seq<Related>, k: nat,
                        entries: Option<seq<Option<Device>>>, requireEntries: bool)
    requires k < |before| <= |list| && before[k].value == list[k].value && (before[k].exact ==> list[k].exact)
    requires Sound(g, target, before) && LeadsToAll(g, before, k, Names(entries), true)
    requires entries.None? || (requireEntries && !AllNamed(entries)) ==> Unreadable(g, Mark(before[k].value, before[k].exact))
    requires || entries.None? || (requireEntries && !AllNamed(entries))
             || (|list| == MAX_RELATED && exists d :: d in Names(entries) && !Listed(list, d))
    ensures StoppedAt(g, target, list, k)
  {
    hide Intended, Leads;
    assert SoundAt(g, target, before, k);
    if entries.Some? && (requireEntries ==> AllNamed(entries)) {
      var d :| d in Names(entries) && !Listed(list, d);
      IntendedStep(g, target, Mark(before[k].value, before[k].exact), Mark(d, true));
    }
  }

  // ---------------------------------------------------------------- the list against the closure that is asked for

  /** A finished scan lists only what is asked for, and expands only what is exact there. */
  lemma {:induction false} ListedIsIntended(g: Graph, target: Device, list: seq<Related>, j: nat)
    requires ScanInv(g, target, list, |list|) && j < |list|
    ensures Intended(g, target, Mark(list[j].value, false))
    ensures list[j].childrenScanned ==> Intended(g, target, Mark(list[j].value, true))
    decreases j
  {
    hide Intended, Distinct;
    if j == 0 {
      TargetIsIntended(g, target, true);
      TargetIsIntended(g, target, false);
    } else {
      var d := list[j].value;
      assert Derived(g, list, |list|, j);
      var i :| 0 <= i < j && FollowedEdge(g, list[i], d);
      ListedIsIntended(g, target, list, i);
      IntendedStep(g, target, Mark(list[i].value, list[i].childrenScanned),
                   Mark(d, d !in ParentOf(g, list[i].value)));
      if list[j].childrenScanned {
        if ExactFrom(g, list, j, d) {
          var e :| 0 <= e < j && ExactEdge(g, list[e], d);
          ListedIsIntended(g, target, list, e);
          IntendedStep(g, target, Mark(list[e].value, list[e].childrenScanned), Mark(d, true));
        } else {
          IntendedStep(g, target, Mark(d, false), Mark(d, true));
        }
      }
    }
  }

  /** Exactness in the list is exactness in the closure. */
  lemma ExactIsIntended(g: Graph, target: Device, list: seq<Related>, j: nat)
    requires ScanInv(g, target, list, |list|) && j < |list| && list[j].exact
    ensures Intended(g, target, Mark(list[j].value, true))
  {
    hide Intended, Distinct, Scanned, Derived;
    if j == 0 {
      TargetIsIntended(g, target, true);
    } else {
      var i :| 0 <= i < |list| && ExactEdge(g, list[i], list[j].value);
      ListedIsIntended(g, target, list, i);
      IntendedStep(g, target, Mark(list[i].value, list[i].childrenScanned), Mark(list[j].value, true));
    }
  }

  /** The device is listed, and as exact if that is claimed of a whole device. */
  ghost predicate Kept(g: Graph, list: seq<Related>, m: Mark) {
    exists i :: 0 <= i < |list| && list[i].value == m.device && (m.exact && !IsPartition(g, m.device) ==> list[i].exact)
  }

  /** An exact whole device that became exact too late to be expanded. */
  predicate Late(g: Graph, r: Related) {
    r.exact && !r.childrenScanned && !IsPartition(g, r.value)
  }

  /** What lies below late devices is in the list anyway. */
  ghost predicate LateChildrenKept(g: Graph, list: seq<Related>) {
    forall j, c :: 0 <= j < |list| && Late(g, list[j]) && c in Children(g, list[j].value) ==> Kept(g, list, Mark(c, true))
  }

  lemma {:induction false} TrailIsKept(g: Graph, target: Device, list: seq<Related>, trail: seq<Mark>, n: nat)
    requires ScanInv(g, target, list, |list|) && LateChildrenKept(g, list)
    requires IsTrail(g, trail) && trail[0] == Mark(target, true) && n < |trail|
    ensures Kept(g, list, trail[n])
  {
    if n == 0 {
      assert list[0].value == target && list[0].exact;
    } else {
      TrailIsKept(g, target, list, trail, n - 1);
      assert LeadsAt(g, trail, n);
      KeptStep(g, target, list, trail[n - 1], trail[n]);
    }
  }

  lemma KeptStep(g: Graph, target: Device, list: seq<Related>, from: Mark, to: Mark)
    requires ScanInv(g, target, list, |list|) && LateChildrenKept(g, list) && Kept(g, list, from) && Leads(g, from, to)
    ensures Kept(g, list, to)
  {
    hide Distinct, Derived, ExactInTime;
    var i :| 0 <= i < |list| && list[i].value == from.device && (from.exact && !IsPartition(g, from.device) ==> list[i].exact);
    assert Scanned(g, list, i);
    if to.device in Mappings(g, from.device) || !to.exact {
      assert Listed(list, to.device) || !to.exact;
      ListedWithEdge(g, target, list, i, to);
    } else if !Late(g, list[i]) {
      ListedWithEdge(g, target, list, i, to);
    }
  }

  /** A followed edge leads to an entry, and an exact one to an exact entry. */
  lemma ListedWithEdge(g: Graph, target: Device, list: seq<Related>, i: nat, to: Mark)
    requires ScanInv(g, target, list, |list|) && i < |list|
    requires FollowedEdge(g, list[i], to.device) && (to.exact ==> ExactEdge(g, list[i], to.device))
    ensures Kept(g, list, to)
  {
    hide Distinct, Derived, ExactInTime;
    assert Scanned(g, list, i);
    assert Listed(list, to.device);
    var e :| 0 <= e < |list| && list[e].value == to.device;
    if to.exact {
      assert ExactFrom(g, list, |list|, list[e].value);
    }
  }

  /** The list is the closure that is asked for, exactness of whole devices included, exactly when
    * what lies below late devices is in it anyway; it never holds anything else. */
  lemma ListIsIntended(g: Graph, target: Device, list: seq<Related>)
    requires ScanInv(g, target, list, |list|)
    ensures Sound(g, target, list)
    ensures (forall m :: Intended(g, target, m) ==> Kept(g, list, m)) <==> LateChildrenKept(g, list)
  {
    hide Intended, Kept, Children, Scanned, Derived, Distinct, ExactFrom, ExactInTime, IsTrail;
    forall j | 0 <= j < |list|
      ensures SoundAt(g, target, list, j)
    {
      ListedIsIntended(g, target, list, j);
      if list[j].exact {
        ExactIsIntended(g, target, list, j);
      }
    }
    if LateChildrenKept(g, list) {
      forall m | Intended(g, target, m)
        ensures Kept(g, list, m)
      {
        IntendedIsKept(g, target, list, m);
      }
    }
    if forall m :: Intended(g, target, m) ==> Kept(g, list, m) {
      forall j, c | 0 <= j < |list| && Late(g, list[j]) && c in Children(g, list[j].value)
        ensures Kept(g, list, Mark(c, true))
      {
        ExactIsIntended(g, target, list, j);
        IntendedStep(g, target, Mark(list[j].value, true), Mark(c, true));
      }
    }
  }

  lemma IntendedIsKept(g: Graph, target: Device, list: seq<Related>, m: Mark)
    requires ScanInv(g, target, list, |list|) && LateChildrenKept(g, list) && Intended(g, target, m)
    ensures Kept(g, list, m)
  {
    hide IsTrail, ScanInv, LateChildrenKept;
    var trail :| IsTrail(g, trail) && EndsAt(trail, target, m);
    TrailIsKept(g, target, list, trail, |trail| - 1);
  }

  /** Where only partitions lie below whole devices, the devices of the list are those of the
    * closure exactly when what lies below late devices is listed anyway. */
  lemma DevicesAreIntended(g: Graph, target: Device, list: seq<Related>)
    requires ScanInv(g, target, list, |list|)
    requires forall d, c :: c in Children(g, d) ==> IsPartition(g, c)
    ensures (forall d :: Listed(list, d) <==> Intended(g, target, Mark(d, false))) <==>
            (forall j, c :: 0 <= j < |list| && Late(g, list[j]) && c in Children(g, list[j].value) ==> Listed(list, c))
  {
    hide Intended, Children, Scanned, Derived, Distinct, ExactFrom, ExactInTime, ScanInv, Late;
    ListIsIntended(g, target, list);
    forall d | Listed(list, d)
      ensures Intended(g, target, Mark(d, false))
    {
      var i :| 0 <= i < |list| && list[i].value == d;
      assert SoundAt(g, target, list, i);
    }
    if forall j, c :: 0 <= j < |list| && Late(g, list[j]) && c in Children(g, list[j].value) ==> Listed(list, c) {
      forall j, c | 0 <= j < |list| && Late(g, list[j]) && c in Children(g, list[j].value)
        ensures Kept(g, list, Mark(c, true))
      {
        assert Listed(list, c) && IsPartition(g, c);
      }
      assert forall d :: Intended(g, target, Mark(d, false)) ==> Kept(g, list, Mark(d, false));
    }
    if forall d :: Listed(list, d) <==> Intended(g, target, Mark(d, false)) {
      forall j, c | 0 <= j < |list| && Late(g, list[j]) && c in Children(g, list[j].value)
        ensures Listed(list, c)
      {
        LateIsExact(g, target, list, j);
        IntendedStep(g, target, Mark(list[j].value, true), Mark(c, true));
      }
    }
  }

  lemma LateIsExact(g: Graph, target: Device, list: seq<Related>, j: nat)
    requires ScanInv(g, target, list, |list|) && j < |list| && Late(g, list[j])
    ensures Intended(g, target, Mark(list[j].value, true))
  {
    ExactIsIntended(g, target, list, j);
  }

  /** A condition on the graph: within the closure, no disk around a partition is mapped by a device
    * or lies below an exact one, unless it is the target. */
  ghost predicate TimelyGraph(g: Graph, target: Device) {
    forall a: Mark, b: Mark, p: Device {:trigger MeetsAt(g, target, a, b, p)} :: MeetsAt(g, target, a, b, p) ==> p == target
  }

  ghost predicate MeetsAt(g: Graph, target: Device, a: Mark, b: Mark, p: Device) {
    Intended(g, target, a) && Intended(g, target, b) && p in ParentOf(g, a.device) && Leads(g, b, Mark(p, true))
  }

  /** On such a graph every exact whole device is expanded, so the list is the closure. */
  lemma TimelyIsComplete(g: Graph, target: Device, list: seq<Related>)
    requires ScanInv(g, target, list, |list|) && TimelyGraph(g, target)
    ensures forall j :: 0 <= j < |list| ==> !Late(g, list[j])
    ensures forall m :: Intended(g, target, m) ==> Kept(g, list, m)
  {
    hide Intended, Kept, Scanned, Distinct, TimelyGraph;
    forall j | 0 <= j < |list|
      ensures !Late(g, list[j])
    {
      NotLate(g, target, list, j);
    }
    ListIsIntended(g, target, list);
  }

  lemma MeetingIsTarget(g: Graph, target: Device, a: Mark, b: Mark, p: Device)
    requires TimelyGraph(g, target) && Intended(g, target, a) && Intended(g, target, b)
    requires p in ParentOf(g, a.device) && Leads(g, b, Mark(p, true))
    ensures p == target
  {
    assert MeetsAt(g, target, a, b, p);
  }

  lemma NotLate(g: Graph, target: Device, list: seq<Related>, j: nat)
    requires ScanInv(g, target, list, |list|) && TimelyGraph(g, target) && j < |list|
    ensures !Late(g, list[j])
  {
    hide Intended, Scanned, ParentOf, Mappings, Children;
    if j > 0 && list[j].exact {
      var d := list[j].value;
      assert Derived(g, list, |list|, j);
      var i :| 0 <= i < j && FollowedEdge(g, list[i], d);
      var e :| 0 <= e < |list| && ExactEdge(g, list[e], d);
      if !ExactEdge(g, list[i], d) {
        ListedIsIntended(g, target, list, i);
        ListedIsIntended(g, target, list, e);
        MeetingIsTarget(g, target, Mark(list[i].value, false), Mark(list[e].value, list[e].childrenScanned), d);
        assert false;
      }
    }
  }

  /** A finished scan of such a graph has read the whole closure. */
  lemma TimelyScanReads(g: Graph, target: Device, list: seq<Related>)
    requires ScanInv(g, target, list, |list|) && TimelyGraph(g, target)
    ensures Readable(g, target) && Bounded(g, target)
  {
    hide Intended, Derived, ExactFrom, ExactInTime, TimelyGraph, Relations, Children, RelationsReadable, Distinct;
    TimelyIsComplete(g, target, list);
    forall m | Intended(g, target, m)
      ensures !Unreadable(g, m)
    {
      var i :| 0 <= i < |list| && list[i].value == m.device && (m.exact && !IsPartition(g, m.device) ==> list[i].exact);
      assert Scanned(g, list, i) && !Late(g, list[i]);
    }
    ValuesCount(list);
    forall d | Intended(g, target, Mark(d, false))
      ensures d in Values(list)
    {
      assert Kept(g, list, Mark(d, false));
      assert Listed(list, d);
    }
    assert Holds(g, target, Values(list));
  }

  /** Scanning from a partition, the disk around it is expanded exactly when the partition or the
    * disk itself names it as a mapping; a mapping found later comes too late. */
  lemma OwnDiskExpansion(g: Graph, target: Device, list: seq<Related>, disk: Device)
    requires ScanInv(g, target, list, |list|) && IsPartition(g, target) && g[target].parent == Some(disk)
    requires disk != target && !IsPartition(g, disk)
    ensures |list| > 1 && list[1].value == disk
    ensures list[1].childrenScanned <==> disk in Mappings(g, target) + Mappings(g, disk)
    ensures Late(g, list[1]) <==> list[1].exact && disk !in Mappings(g, target) + Mappings(g, disk)
  {
    hide Mappings, Scanned, Derived;
    assert disk in ParentOf(g, target);
    assert Children(g, target) == {};
    assert ExactFrom(g, list, 1, disk) <==> ExactEdge(g, list[0], disk);
  }

  // ---------------------------------------------------------------- a graph on which the list is too short

  /** Partition 1 of disk 2, with device 3 stacked on the whole disk; 4 is another partition. */
  const StackedDisk: Graph :=
    map[1 := Node(Some(true), Some(2), Some([]), None, None),
        2 := Node(Some(false), None, Some([Some(3)]), Some([]), Some([Some(1), Some(4)])),
        3 := Node(Some(false), None, Some([]), Some([Some(2)]), Some([])),
        4 := Node(Some(true), Some(2), Some([]), None, None)]

  lemma StackedEdges()
    ensures Relations(StackedDisk, 1) == {2} && Mappings(StackedDisk, 1) == {} && Children(StackedDisk, 1) == {}
    ensures Relations(StackedDisk, 2) == Mappings(StackedDisk, 2) == {3} && Children(StackedDisk, 2) == {1, 4}
    ensures Relations(StackedDisk, 3) == Mappings(StackedDisk, 3) == {2} && Children(StackedDisk, 3) == {}
  {
    assert Names(Some([])) == {};
    assert Some(3) in [Some(3)] && Names(Some([Some(3)])) == {3};
    assert Some(2) in [Some(2)] && Names(Some([Some(2)])) == {2};
    var entries: seq<Option<Device>> := [Some(1), Some(4)];
    assert entries[0] in entries && entries[1] in entries;
    assert Names(Some(entries)) == {1, 4};
  }

  /** The closure of the stacked example: everything, and disk 2 with exactness. */
  lemma StackedClosure()
    ensures Intended(StackedDisk, 1, Mark(2, true)) && Intended(StackedDisk, 1, Mark(4, true))
    ensures Readable(StackedDisk, 1) && Bounded(StackedDisk, 1)
  {
    StackedEdges();
    StackedReadable();
    hide Intended, Relations, Mappings, Children, ParentOf, Unreadable;
    TargetIsIntended(StackedDisk, 1, true);
    StackedParent();
    IntendedStep(StackedDisk, 1, Mark(1, true), Mark(2, false));
    IntendedStep(StackedDisk, 1, Mark(2, false), Mark(3, true));
    IntendedStep(StackedDisk, 1, Mark(3, true), Mark(2, true));
    IntendedStep(StackedDisk, 1, Mark(2, true), Mark(4, true));
    var all: set<Device> := {1, 2, 3, 4};
    forall m | Intended(StackedDisk, 1, m)
      ensures m.device in all && !Unreadable(StackedDisk, m)
    {
      IntendedWithin(StackedDisk, 1, all, m);
    }
    assert |all| == 4 && Holds(StackedDisk, 1, all);
  }

  lemma StackedParent()
    ensures ParentOf(StackedDisk, 1) == {2}
  {}

  lemma StackedReadable()
    ensures Relations(StackedDisk, 4) == {2} && Children(StackedDisk, 4) == {}
    ensures forall m: Mark :: m.device in {1, 2, 3, 4} ==> !Unreadable(StackedDisk, m)
  {
    assert Names(Some([])) == {};
  }

  /** Every scan of the stacked example ends with this list. */
  const StackedList: seq<Related> :=
    [Related(1, true, true, false), Related(2, true, true, false), Related(3, true, true, true)]

  /** The scan is single-pass: in the stacked example disk 2 becomes exact after its turn, so it
    * stays unexpanded, and its child 4 is of the closure but not listed. */
  lemma LateExactIsNotExpanded(list: seq<Related>)
    requires ScanInv(StackedDisk, 1, list, |list|)
    ensures list == StackedList && Late(StackedDisk, list[1])
    ensures Intended(StackedDisk, 1, Mark(4, true)) && !Listed(list, 4)
  {
    StackedClosure();
    StackedEdges();
    hide Relations, Mappings, Children, Intended, Readable, Bounded;
    assert Scanned(StackedDisk, list, 0);
    assert Listed(list, 2);
    assert Derived(StackedDisk, list, |list|, 1);
    assert list[1].value == 2;
    assert !ExactFrom(StackedDisk, list, 1, 2);
    assert !list[1].childrenScanned;
    assert Scanned(StackedDisk, list, 1);
    assert Listed(list, 3);
    assert Derived(StackedDisk, list, |list|, 2);
    assert list[2].value == 3;
    var fourth := if |list| > 3 then 3 else 0;
    assert Derived(StackedDisk, list, |list|, fourth);
    assert ExactEdge(StackedDisk, list[2], 2);
    assert ExactEdge(StackedDisk, list[1], 3);
    assert Scanned(StackedDisk, list, 2);
  }

  lemma StackedListIsScanned()
    ensures ScanInv(StackedDisk, 1, StackedList, 3)
  {
    var list := StackedList;
    StackedEdges();
    StackedReadable();
    StackedParent();
    hide Relations, Mappings, Children, ParentOf, RelationsReadable, Scanned, AllListed;
    assert list[0].value == 1 && list[1].value == 2 && list[2].value == 3;
    forall i | 0 <= i < 3
      ensures Scanned(StackedDisk, list, i)
    {
      StackedTurn(i);
    }
    assert Derived(StackedDisk, list, 3, 1) by { assert FollowedEdge(StackedDisk, list[0], 2); }
    assert Derived(StackedDisk, list, 3, 2) by { assert FollowedEdge(StackedDisk, list[1], 3); }
    assert ExactFrom(StackedDisk, list, 3, 2) by { assert ExactEdge(StackedDisk, list[2], 2); }
    assert ExactFrom(StackedDisk, list, 2, 3) by { assert ExactEdge(StackedDisk, list[1], 3); }
    assert ExactFrom(StackedDisk, list, 3, 3) by { assert ExactEdge(StackedDisk, list[1], 3); }
  }

  lemma StackedTurn(i: nat)
    requires i < 3
    ensures Scanned(StackedDisk, StackedList, i)
  {
    var list := StackedList;
    StackedEdges();
    StackedReadable();
    hide Relations, Mappings, Children, RelationsReadable;
    assert list[0].value == 1 && list[1].value == 2 && list[2].value == 3;
    assert Listed(list, 1) && Listed(list, 2) && Listed(list, 3);
    assert !Unreadable(StackedDisk, Mark(list[i].value, true));
  }

  /** Collecting on the stacked example succeeds with that list. */
  method CollectStacked(related: RelatedDevices) returns (ok: bool)
    requires related.Valid() && related.count == 0
    modifies related`count, related.devices
    ensures ok && related.Valid() && related.List() == StackedList
    ensures Intended(StackedDisk, 1, Mark(4, true)) && !Listed(related.List(), 4)
  {
    hide ScanInv, Intended, Readable, Bounded, TimelyGraph, Sound, Reachable;
    StackedClosure();
    ok := related.Collect(StackedDisk, 1);
    LateExactIsNotExpanded(related.List());
  }
}
