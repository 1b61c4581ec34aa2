/** The broker's table of requests in flight, and its choice of the disk that serves a read. */
module RequestTables {
  import opened Queues

  /**
   * A request in flight; `disk` is 0 for a write, which goes to every disk. `seqno` numbers requests in order of
   * arrival and is never read by the broker.
   */
  datatype Entry = Entry(id: nat, sector: nat, disk: nat, client: nat, count: nat, seqno: nat)

  predicate HasKey(e: Entry, id: nat, sector: nat) {
    e.id == id && e.sector == sector
  }

  predicate DistinctKeys(es: seq<Entry>) {
    forall i, j :: 0 <= i < j < |es| ==> !HasKey(es[i], es[j].id, es[j].sector)
  }

  /** Position of the first entry with the key, or the length of the table. */
  function FirstMatch(es: seq<Entry>, id: nat, sector: nat): (k: nat)
    ensures k <= |es| && (k < |es| ==> HasKey(es[k], id, sector))
    ensures forall i :: 0 <= i < k ==> !HasKey(es[i], id, sector)
  {
    if es == [] || HasKey(es[0], id, sector) then 0 else 1 + FirstMatch(es[1..], id, sector)
  }

  function WithCount(es: seq<Entry>, k: nat, count: nat): seq<Entry>
    requires k < |es|
  {
    es[k := es[k].(count := count)]
  }

  /** The table after one disk confirmed a write: one reply fewer to wait for, and the entry gone after the last. */
  function Confirmed(es: seq<Entry>, k: nat): seq<Entry>
    requires k < |es| && 0 < es[k].count
  {
    if es[k].count == 1 then RemoveAt(es, k) else WithCount(es, k, es[k].count - 1)
  }

  class Request {
    const id: nat
    const sector: nat
    const disk: nat
    const client: nat
    ghost const seqno: nat
    var count: nat

    constructor (id: nat, sector: nat, disk: nat, client: nat, count: nat, ghost seqno: nat)
      ensures Value() == Entry(id, sector, disk, client, count, seqno)
    {
      this.id, this.sector, this.disk, this.client, this.count, this.seqno := id, sector, disk, client, count, seqno;
    }

    ghost function Value(): Entry
      reads this
    {
      Entry(id, sector, disk, client, count, seqno)
    }
  }

  class RequestTable {
    const queue: Queue<Request>

    constructor ()
      ensures Valid() && Entries() == [] && fresh(queue)
    {
      queue := new Queue<Request>();
    }

    ghost predicate Valid()
      reads this, queue, queue.nodes
    {
      queue.Valid() && forall i, j :: 0 <= i < j < |queue.contents| ==> queue.contents[i] != queue.contents[j]
    }

    ghost function Entries(): seq<Entry>
      reads this, queue, queue.contents
    {
      seq(|queue.contents|, i requires 0 <= i < |queue.contents| reads this, queue, queue.contents => queue.contents[i].Value())
    }

    method AddNew(disk: nat, client: nat, id: nat, sector: nat, diskCount: nat, ghost seqno: nat)
      requires Valid()
      modifies queue, queue.nodes
      ensures Valid() && Entries() == old(Entries()) + [Entry(id, sector, disk, client, diskCount, seqno)]
      ensures queue.contents[..|old(queue.contents)|] == old(queue.contents)
      ensures |queue.contents| == |old(queue.contents)| + 1 && fresh(queue.contents[|old(queue.contents)|])
    {
      var request := new Request(id, sector, disk, client, diskCount, seqno);
      queue.Append(request);
    }

    method Search(id: nat, sector: nat) returns (found: Request?)
      requires Valid()
      ensures var k := FirstMatch(Entries(), id, sector);
              found == if k < |queue.contents| then queue.contents[k] else null
    {
      var node := queue.begin;
      ghost var n := 0;
      while node != null
        invariant n <= |queue.nodes| && node == if n < |queue.nodes| then queue.nodes[n] else null
        invariant forall i :: 0 <= i < n ==> !HasKey(Entries()[i], id, sector)
        decreases |queue.nodes| - n
      {
        assert node.data.Value() == Entries()[n];
        if node.data.sector == sector && node.data.id == id {
          MatchIs(Entries(), id, sector, n);
          return node.data;
        }
        node, n := node.next, n + 1;
      }
      MatchIs(Entries(), id, sector, n);
      return null;
    }

    method Unlink(prev: Node?<Request>, ghost k: nat, id: nat, sector: nat) returns (taken: Request)
      requires Valid() && queue.Precedes(prev, k) && FirstMatch(Entries(), id, sector) == k < |queue.contents|
      modifies queue, queue.nodes
      ensures Valid() && taken == old(queue.contents)[k] && Entries() == RemoveAt(old(Entries()), k)
    {
      ghost var was, before := Entries(), queue.contents;
      taken := queue.RemoveAfter(prev, k);
      forall i | 0 <= i < |queue.contents|
        ensures Entries()[i] == RemoveAt(was, k)[i]
      {
        assert queue.contents[i] == before[if i < k then i else i + 1];
      }
    }

    /** Unlinks the first request with the key; without one, returns null and leaves the table alone. */
    method Take(id: nat, sector: nat) returns (taken: Request?)
      requires Valid()
      modifies queue, queue.nodes
      ensures Valid()
      ensures var k := FirstMatch(old(Entries()), id, sector);
              if k < |old(queue.contents)|
              then taken == old(queue.contents)[k] && Entries() == RemoveAt(old(Entries()), k)
              else taken == null && Entries() == old(Entries())
    {
      var node, prev := queue.begin, queue.begin;
      ghost var n := 0;
      while node != null
        invariant n <= |queue.nodes| && node == if n < |queue.nodes| then queue.nodes[n] else null
        invariant prev == if n == 0 then node else queue.nodes[n - 1]
        invariant forall i :: 0 <= i < n ==> !HasKey(Entries()[i], id, sector)
        decreases |queue.nodes| - n
      {
        assert node.data.Value() == Entries()[n];
        if node.data.sector == sector && node.data.id == id {
          MatchIs(Entries(), id, sector, n);
          taken := Unlink(if prev == node then null else prev, n, id, sector);
          return;
        }
        prev, node, n := node, node.next, n + 1;
      }
      MatchIs(Entries(), id, sector, n);
      return null;
    }

    /** A disk confirmed a write: counts the reply and, after the last one, returns the client to acknowledge. */
    method Confirm(id: nat, sector: nat) returns (last: bool, client: nat)
      requires Valid()
      requires var k := FirstMatch(Entries(), id, sector); k < |queue.contents| && 0 < Entries()[k].count
      modifies queue, queue.nodes, queue.contents
      ensures Valid()
      ensures var k := FirstMatch(old(Entries()), id, sector);
              && Entries() == Confirmed(old(Entries()), k)
              && last == (old(Entries())[k].count == 1) && client == old(Entries())[k].client
    {
      ghost var k, before := FirstMatch(Entries(), id, sector), Entries();
      var request := Search(id, sector);
      assert request.Value() == before[k];
      request.count := request.count - 1;
      assert Entries() == WithCount(before, k, before[k].count - 1);
      SameKeysSameMatch(Entries(), before, id, sector);
      client := request.client;
      last := request.count == 0;
      if last {
        var _ := Take(id, sector);
      }
    }
  }

  lemma MatchIs(es: seq<Entry>, id: nat, sector: nat, k: nat)
    requires k <= |es| && (k < |es| ==> HasKey(es[k], id, sector))
    requires forall i :: 0 <= i < k ==> !HasKey(es[i], id, sector)
    ensures FirstMatch(es, id, sector) == k
  {
  }

  lemma SameKeysSameMatch(es: seq<Entry>, fs: seq<Entry>, id: nat, sector: nat)
    requires |es| == |fs| && forall i :: 0 <= i < |es| ==> HasKey(es[i], fs[i].id, fs[i].sector)
    ensures FirstMatch(es, id, sector) == FirstMatch(fs, id, sector)
  {
    MatchIs(es, id, sector, FirstMatch(fs, id, sector));
  }

  // ---------- choosing the disk for a read ----------

  datatype DiskInfo = DiskInfo(ready: bool, requested: bool)

  function FirstIdle(ds: seq<DiskInfo>): (k: nat)
    ensures k <= |ds| && (k < |ds| ==> ds[k].ready && !ds[k].requested)
    ensures forall i :: 0 <= i < k ==> !(ds[i].ready && !ds[i].requested)
  {
    if ds == [] || (ds[0].ready && !ds[0].requested) then 0 else 1 + FirstIdle(ds[1..])
  }

  /** When every disk has been asked since the flags were cleared, the first disk is taken whatever its state. */
  function SelectedDisk(ds: seq<DiskInfo>): (k: nat)
    requires ds != []
    ensures k < |ds|
  {
    if FirstIdle(ds) < |ds| then FirstIdle(ds) else 0
  }

  function AfterSelection(ds: seq<DiskInfo>): (r: seq<DiskInfo>)
    requires ds != []
    ensures |r| == |ds|
  {
    var k := FirstIdle(ds);
    if k < |ds| then ds[k := ds[k].(requested := true)]
    else seq(|ds|, i requires 0 <= i < |ds| => ds[i].(requested := i == 0))
  }

  class Disk {
    var ready: bool
    var requested: bool

    constructor (ready: bool)
      ensures Value() == DiskInfo(ready, false)
    {
      this.ready, requested := ready, false;
    }

    ghost function Value(): DiskInfo
      reads this
    {
      DiskInfo(ready, requested)
    }
  }

  ghost function Infos(disks: seq<Disk>): seq<DiskInfo>
    reads disks
  {
    seq(|disks|, i requires 0 <= i < |disks| reads disks => disks[i].Value())
  }

  method SelectByLessRequests(disks: seq<Disk>) returns (selected: Disk)
    requires disks != [] && forall i, j :: 0 <= i < j < |disks| ==> disks[i] != disks[j]
    modifies disks
    ensures selected == disks[SelectedDisk(old(Infos(disks)))]
    ensures Infos(disks) == AfterSelection(old(Infos(disks)))
  {
    ghost var before := Infos(disks);
    for i := 0 to |disks|
      invariant Infos(disks) == before
      invariant forall j :: 0 <= j < i ==> !(before[j].ready && !before[j].requested)
    {
      if !disks[i].requested && disks[i].ready {
        assert before[i].ready && !before[i].requested;
        disks[i].requested := true;
        return disks[i];
      }
    }
    assert FirstIdle(before) == |before|;
    for i := 0 to |disks|
      invariant forall j :: 0 <= j < |disks| ==> disks[j].ready == before[j].ready
      invariant forall j :: 0 <= j < i ==> !disks[j].requested
    {
      disks[i].requested := false;
    }
    disks[0].requested := true;
    return disks[0];
  }

  function AllReady(n: nat, requested: nat): seq<DiskInfo> {
    seq(n, i => DiskInfo(true, i < requested))
  }

  function AfterReads(ds: seq<DiskInfo>, count: nat): (r: seq<DiskInfo>)
    requires ds != []
    ensures |r| == |ds|
  {
    if count == 0 then ds else AfterSelection(AfterReads(ds, count - 1))
  }

  function IdleCount(ds: seq<DiskInfo>): nat {
    if ds == [] then 0 else IdleCount(ds[1..]) + if ds[0].requested then 0 else 1
  }

  ghost predicate EveryoneReady(ds: seq<DiskInfo>) {
    forall i :: 0 <= i < |ds| ==> ds[i].ready
  }

  lemma {:induction false} MarkOne(ds: seq<DiskInfo>, k: nat)
    requires k < |ds| && !ds[k].requested
    ensures IdleCount(ds[k := ds[k].(requested := true)]) == IdleCount(ds) - 1
  {
    var marked := ds[k := ds[k].(requested := true)];
    if k == 0 {
      assert marked[1..] == ds[1..];
    } else {
      assert marked[1..] == ds[1..][k - 1 := ds[k].(requested := true)];
      MarkOne(ds[1..], k - 1);
    }
  }

  lemma {:induction false} IdleIffFound(ds: seq<DiskInfo>)
    requires EveryoneReady(ds)
    ensures IdleCount(ds) == 0 <==> FirstIdle(ds) == |ds|
  {
    if ds != [] {
      IdleIffFound(ds[1..]);
    }
  }

  /** While some disk is unmarked each read marks one. */
  lemma {:induction false} ReadsUseUpTheIdle(ds: seq<DiskInfo>, count: nat)
    requires ds != [] && EveryoneReady(ds) && count <= IdleCount(ds)
    ensures EveryoneReady(AfterReads(ds, count)) && |AfterReads(ds, count)| == |ds|
    ensures IdleCount(AfterReads(ds, count)) == IdleCount(ds) - count
  {
    if 0 < count {
      ReadsUseUpTheIdle(ds, count - 1);
      var before := AfterReads(ds, count - 1);
      IdleIffFound(before);
      MarkOne(before, FirstIdle(before));
    }
  }

  lemma NextOfMarked(n: nat, asked: nat)
    requires 0 < n && asked <= n
    ensures SelectedDisk(AllReady(n, asked)) == if asked < n then asked else 0
    ensures AfterSelection(AllReady(n, asked)) == AllReady(n, if asked < n then asked + 1 else 1)
  {
    var ds := AllReady(n, asked);
    if asked < n {
      assert ds[asked] == DiskInfo(true, false);
    }
  }

  /** The round starts again at the first disk once nobody is idle. */
  lemma NoneIdle(ds: seq<DiskInfo>)
    requires ds != [] && EveryoneReady(ds) && FirstIdle(ds) == |ds|
    ensures SelectedDisk(ds) == 0 && AfterSelection(ds) == AllReady(|ds|, 1)
  {
  }

  /**
   * Whatever marks earlier reads and writes left, once the unmarked disks have had a read each, reads alone go round the
   * disks in turn from the first.
   */
  lemma {:induction false} ReadsGoRoundRobin(ds: seq<DiskInfo>, count: nat)
    requires ds != [] && EveryoneReady(ds) && IdleCount(ds) <= count
    ensures SelectedDisk(AfterReads(ds, count)) == (count - IdleCount(ds)) % |ds|
    ensures AfterReads(ds, count + 1) == AllReady(|ds|, (count - IdleCount(ds)) % |ds| + 1)
  {
    hide SelectedDisk, AfterSelection, AllReady, FirstIdle, IdleCount;
    var n, turn, now := |ds|, count - IdleCount(ds), AfterReads(ds, count);
    if turn == 0 {
      ReadsUseUpTheIdle(ds, count);
      IdleIffFound(now);
      NoneIdle(now);
    } else {
      ReadsGoRoundRobin(ds, count - 1);
      NextInTurn(turn, n);
      NextOfMarked(n, (turn - 1) % n + 1);
    }
  }

  lemma NextInTurn(count: nat, n: nat)
    requires 0 < n && 0 < count
    ensures count % n == if (count - 1) % n + 1 < n then (count - 1) % n + 1 else 0
  {
    var q, r := (count - 1) / n, (count - 1) % n;
    assert count == n * q + r + 1;
    if r + 1 < n {
      RemainderIs(count, n, q, r + 1);
    } else {
      RemainderIs(count, n, q + 1, 0);
    }
  }

  lemma RemainderIs(a: nat, n: nat, q: nat, r: nat)
    requires r < n && a == n * q + r
    ensures a % n == r
  {
    var p := a / n;
    assert a == n * p + a % n;
    assert p < q ==> n * (p + 1) <= n * q;
    assert q < p ==> n * (q + 1) <= n * p;
  }
}
