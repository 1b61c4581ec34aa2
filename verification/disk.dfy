/** The disk as the file system sees it: numbered sectors, clusters laid over them, and reads answered in any order. */
module Disks {
  import opened Bytes
  import opened Queues

  const SECTOR_BYTES := 512
  const CLUSTER_SECTORS := 8
  const CLUSTER_BYTES := 4096
  /** The table is read from sector 32 whatever the boot sector says. */
  const FAT_START := 32

  type Sectors = seq<seq<byte>>

  /** Contents of clusters. */
  type Data = map<nat, seq<byte>>

  /** The boot sector's fields; `clusters` is the number of table entries, of which the first two name no cluster. */
  datatype Layout = Layout(reserved: nat, fats: nat, fatSectors: nat, clusters: nat) {
    function DataStart(): nat {
      reserved + fats * fatSectors
    }

    ghost predicate Valid() {
      reserved == FAT_START && 1 <= fats && 2 <= clusters
    }

    function SectorsNeeded(): nat
      requires 2 <= clusters
    {
      DataStart() + (clusters - 2) * CLUSTER_SECTORS
    }

    predicate HasCluster(c: int) {
      2 <= c < clusters
    }

    function FirstSector(c: nat): nat
      requires HasCluster(c)
    {
      DataStart() + (c - 2) * CLUSTER_SECTORS
    }

    function SectorOf(c: nat, i: nat): nat
      requires HasCluster(c)
    {
      FirstSector(c) + i
    }

    /** Sector numbers of a cluster, in order. */
    function ClusterToSectors(c: nat): (r: seq<nat>)
      requires HasCluster(c)
      ensures |r| == CLUSTER_SECTORS && forall i :: 0 <= i < CLUSTER_SECTORS ==> r[i] == FirstSector(c) + i
    {
      seq(CLUSTER_SECTORS, i requires 0 <= i < CLUSTER_SECTORS => SectorOf(c, i))
    }

    lemma FatBeforeData()
      requires Valid()
      ensures FAT_START + fatSectors <= DataStart()
    {
      assert 1 * fatSectors <= fats * fatSectors;
    }
  }

  /** Clusters of 8 sectors follow the tables in a row, the first one numbered 2. */
  lemma ClustersFollowTheTables(l: Layout, c: nat, i: nat)
    requires l.HasCluster(c) && i < 8
    ensures |l.ClusterToSectors(c)| == 8
    ensures l.ClusterToSectors(c)[i] == l.reserved + l.fats * l.fatSectors + 8 * (c - 2) + i
  {
  }

  /** The runs of two clusters share no sector, and none lies in the table. */
  lemma ClustersAreDisjoint(l: Layout, c: nat, d: nat, i: nat, j: nat)
    requires l.Valid() && l.HasCluster(c) && l.HasCluster(d) && i < CLUSTER_SECTORS && j < CLUSTER_SECTORS
    ensures l.ClusterToSectors(c)[i] == l.ClusterToSectors(d)[j] ==> c == d && i == j
    ensures FAT_START + l.fatSectors <= l.ClusterToSectors(c)[i] < l.SectorsNeeded()
  {
    l.FatBeforeData();
    assert (c - 2) * CLUSTER_SECTORS + i < (l.clusters - 2) * CLUSTER_SECTORS;
  }

  ghost predicate WellFormed(s: Sectors) {
    forall i :: 0 <= i < |s| ==> |s[i]| == SECTOR_BYTES
  }

  /** The bytes of the listed sectors, one after the other. */
  ghost function Assemble(s: Sectors, numbers: seq<nat>): (r: seq<byte>)
    requires WellFormed(s) && forall i :: 0 <= i < |numbers| ==> numbers[i] < |s|
    ensures |r| == SECTOR_BYTES * |numbers|
  {
    seq(SECTOR_BYTES * |numbers|, k requires 0 <= k < SECTOR_BYTES * |numbers| => s[numbers[k / SECTOR_BYTES]][k % SECTOR_BYTES])
  }

  /** The `i`-th stretch of the assembled bytes is the `i`-th listed sector. */
  lemma AssembleOneMore(s: Sectors, numbers: seq<nat>, n: nat)
    requires WellFormed(s) && n < |numbers| && forall i :: 0 <= i < |numbers| ==> numbers[i] < |s|
    ensures Assemble(s, numbers[..n + 1]) == Assemble(s, numbers[..n]) + s[numbers[n]]
  {
    var a, b := Assemble(s, numbers[..n + 1]), Assemble(s, numbers[..n]) + s[numbers[n]];
    forall k | 0 <= k < |a|
      ensures a[k] == b[k]
    {
      assert k / SECTOR_BYTES < n <==> k < SECTOR_BYTES * n;
    }
  }

  lemma AssembledSlice(s: Sectors, numbers: seq<nat>, i: nat)
    requires WellFormed(s) && (forall j :: 0 <= j < |numbers| ==> numbers[j] < |s|) && i < |numbers|
    ensures Assemble(s, numbers)[SECTOR_BYTES * i..SECTOR_BYTES * (i + 1)] == s[numbers[i]]
  {
    var slice := Assemble(s, numbers)[SECTOR_BYTES * i..SECTOR_BYTES * (i + 1)];
    forall j | 0 <= j < SECTOR_BYTES
      ensures slice[j] == s[numbers[i]][j]
    {
      assert (SECTOR_BYTES * i + j) / SECTOR_BYTES == i && (SECTOR_BYTES * i + j) % SECTOR_BYTES == j;
    }
  }

  ghost predicate Fits(l: Layout, s: Sectors) {
    l.Valid() && l.SectorsNeeded() <= |s| && WellFormed(s)
  }

  ghost function ClusterBytes(l: Layout, s: Sectors, c: nat): (r: seq<byte>)
    requires Fits(l, s) && l.HasCluster(c)
    ensures |r| == CLUSTER_BYTES
  {
    seq(CLUSTER_BYTES, k requires 0 <= k < CLUSTER_BYTES => s[l.FirstSector(c) + k / SECTOR_BYTES][k % SECTOR_BYTES])
  }

  /** A cluster's bytes are its sectors in order. */
  lemma ClusterIsItsSectors(l: Layout, s: Sectors, c: nat)
    requires Fits(l, s) && l.HasCluster(c)
    ensures forall i :: 0 <= i < CLUSTER_SECTORS ==> l.ClusterToSectors(c)[i] < |s|
    ensures Assemble(s, l.ClusterToSectors(c)) == ClusterBytes(l, s, c)
  {
  }

  ghost function ClusterMap(l: Layout, s: Sectors): Data
    requires Fits(l, s)
  {
    map c: nat | 2 <= c < l.clusters :: ClusterBytes(l, s, c)
  }

  datatype SectorWrite = SectorWrite(number: nat, data: seq<byte>)

  function Written(s: Sectors, writes: seq<SectorWrite>): (r: Sectors)
    requires forall i :: 0 <= i < |writes| ==> writes[i].number < |s|
    ensures |r| == |s|
    decreases |writes|
  {
    if writes == [] then s
    else Written(s[writes[0].number := writes[0].data], writes[1..])
  }

  /** The stretch of a cluster's bytes that belongs in its `i`-th sector. */
  function SectorSlice(data: seq<byte>, i: nat): (r: seq<byte>)
    requires |data| == CLUSTER_BYTES && i < CLUSTER_SECTORS
    ensures |r| == SECTOR_BYTES && forall k :: 0 <= k < SECTOR_BYTES ==> r[k] == data[i * SECTOR_BYTES + k]
  {
    data[i * SECTOR_BYTES..(i + 1) * SECTOR_BYTES]
  }

  /** The eight sectors of a cluster holding `data`. */
  function ClusterWrites(l: Layout, c: nat, data: seq<byte>): (r: seq<SectorWrite>)
    requires l.HasCluster(c) && |data| == CLUSTER_BYTES
    ensures |r| == CLUSTER_SECTORS
  {
    seq(CLUSTER_SECTORS, i requires 0 <= i < CLUSTER_SECTORS =>
      SectorWrite(l.SectorOf(c, i), SectorSlice(data, i)))
  }

  /** A sector no write names keeps its contents. */
  lemma {:induction false} WrittenElsewhere(s: Sectors, writes: seq<SectorWrite>, n: nat)
    requires n < |s| && forall i :: 0 <= i < |writes| ==> writes[i].number < |s|
    requires forall i :: 0 <= i < |writes| ==> writes[i].number != n
    ensures Written(s, writes)[n] == s[n]
    decreases |writes|
  {
    if writes != [] {
      WrittenElsewhere(s[writes[0].number := writes[0].data], writes[1..], n);
    }
  }

  /** A write whose sector no later write names takes effect. */
  lemma {:induction false} WrittenHere(s: Sectors, writes: seq<SectorWrite>, i: nat)
    requires i < |writes| && forall j :: 0 <= j < |writes| ==> writes[j].number < |s|
    requires forall j :: i < j < |writes| ==> writes[j].number != writes[i].number
    ensures Written(s, writes)[writes[i].number] == writes[i].data
    decreases |writes|
  {
    var next := s[writes[0].number := writes[0].data];
    if i == 0 {
      WrittenElsewhere(next, writes[1..], writes[0].number);
    } else {
      WrittenHere(next, writes[1..], i - 1);
    }
  }

  /** The earliest of the requests to a sector. */
  function FirstTo(writes: seq<SectorWrite>, n: nat): (k: nat)
    requires exists i :: 0 <= i < |writes| && writes[i].number == n
    ensures k < |writes| && writes[k].number == n && forall j :: 0 <= j < k ==> writes[j].number != n
  {
    if writes[0].number == n then 0 else 1 + FirstTo(writes[1..], n)
  }

  /** Applying a write before those in front of it makes no difference when none of them is to its sector. */
  lemma {:induction false} AppliedEarly(s: Sectors, writes: seq<SectorWrite>, k: nat)
    requires (forall i :: 0 <= i < |writes| ==> writes[i].number < |s|) && k < |writes|
    requires forall j :: 0 <= j < k ==> writes[j].number != writes[k].number
    ensures forall i :: 0 <= i < |writes| - 1 ==> RemoveAt(writes, k)[i].number < |s|
    ensures Written(s[writes[k].number := writes[k].data], RemoveAt(writes, k)) == Written(s, writes)
    decreases k
  {
    if k == 0 {
      assert RemoveAt(writes, 0) == writes[1..];
    } else {
      var w, first := writes[k], writes[0];
      assert s[w.number := w.data][first.number := first.data] == s[first.number := first.data][w.number := w.data];
      assert RemoveAt(writes, k)[1..] == RemoveAt(writes[1..], k - 1);
      AppliedEarly(s[first.number := first.data], writes[1..], k - 1);
    }
  }

  /** Applying what is outstanding, and then what is still to be sent, gives what all the writes give from `s`. */
  ghost predicate InFlight(s: Sectors, writes: seq<SectorWrite>, now: Sectors, outstanding: seq<SectorWrite>, sent: nat) {
    && sent <= |writes| && |now| == |s| && (forall i :: 0 <= i < |writes| ==> writes[i].number < |s|)
    && (forall i :: 0 <= i < |outstanding| ==> outstanding[i].number < |s|)
    && (forall i :: 0 <= i < |outstanding + writes[sent..]| ==> (outstanding + writes[sent..])[i].number < |s|)
    && Written(now, outstanding + writes[sent..]) == Written(s, writes)
  }

  lemma AllToSend(s: Sectors, writes: seq<SectorWrite>)
    requires forall i :: 0 <= i < |writes| ==> writes[i].number < |s|
    ensures InFlight(s, writes, s, [], 0)
  {
    assert [] + writes[0..] == writes;
  }

  lemma OneSent(s: Sectors, writes: seq<SectorWrite>, now: Sectors, outstanding: seq<SectorWrite>, sent: nat)
    requires InFlight(s, writes, now, outstanding, sent) && sent < |writes|
    ensures InFlight(s, writes, now, outstanding + [writes[sent]], sent + 1)
  {
    assert outstanding + writes[sent..] == outstanding + [writes[sent]] + writes[sent + 1..];
  }

  lemma OneApplied(s: Sectors, writes: seq<SectorWrite>, now: Sectors, outstanding: seq<SectorWrite>, sent: nat, k: nat)
    requires InFlight(s, writes, now, outstanding, sent) && k < |outstanding|
    requires forall j :: 0 <= j < k ==> outstanding[j].number != outstanding[k].number
    ensures outstanding[k].number < |now| && |RemoveAt(outstanding, k)| == |outstanding| - 1
    ensures InFlight(s, writes, now[outstanding[k].number := outstanding[k].data], RemoveAt(outstanding, k), sent)
  {
    hide Written, RemoveAt;
    RemovedInFront(outstanding, writes[sent..], k);
    AppliedEarly(now, outstanding + writes[sent..], k);
  }

  lemma AllApplied(s: Sectors, writes: seq<SectorWrite>, now: Sectors, outstanding: seq<SectorWrite>)
    requires InFlight(s, writes, now, outstanding, |writes|) && outstanding == []
    ensures (forall i :: 0 <= i < |writes| ==> writes[i].number < |s|) && now == Written(s, writes)
  {
    assert outstanding + writes[|writes|..] == [];
  }

  lemma RemovedInFront(a: seq<SectorWrite>, b: seq<SectorWrite>, k: nat)
    requires k < |a|
    ensures RemoveAt(a + b, k) == RemoveAt(a, k) + b && (a + b)[k] == a[k] && |RemoveAt(a, k)| == |a| - 1
    ensures forall i :: 0 <= i < |a| - 1 ==> RemoveAt(a, k)[i] in a
  {
  }

  datatype Response = Response(sector: nat, data: seq<byte>)

  ghost predicate Answers(s: Sectors, responses: seq<Response>) {
    forall i :: 0 <= i < |responses| ==> responses[i].sector < |s| && responses[i].data == s[responses[i].sector]
  }

  ghost predicate Answered(responses: seq<Response>, n: nat) {
    exists j :: 0 <= j < |responses| && responses[j].sector == n
  }

  /** Copies every response to one request into that request's stretch of the buffer. */
  method CopyResponses(responses: seq<Response>, index: nat, number: nat, buffer: array<byte>, ghost s: Sectors)
    requires WellFormed(s) && Answers(s, responses) && number < |s| && Answered(responses, number)
    requires SECTOR_BYTES * (index + 1) <= buffer.Length
    modifies buffer
    ensures buffer[SECTOR_BYTES * index..SECTOR_BYTES * (index + 1)] == s[number]
    ensures buffer[..SECTOR_BYTES * index] == old(buffer[..SECTOR_BYTES * index])
  {
    ghost var base := SECTOR_BYTES * index;
    for other := 0 to |responses|
      invariant buffer[..base] == old(buffer[..base])
      invariant (exists j :: 0 <= j < other && responses[j].sector == number) ==>
                  forall k :: 0 <= k < SECTOR_BYTES ==> buffer[base + k] == s[number][k]
    {
      if number == responses[other].sector {
        forall k | 0 <= k < SECTOR_BYTES {
          buffer[SECTOR_BYTES * index + k] := responses[other].data[k];
        }
      }
    }
    assert forall k :: 0 <= k < SECTOR_BYTES ==> buffer[base + k] == s[number][k];
  }

  /** Puts responses in the order of the requests; every response to a sector carries the same data. */
  method ReconstructData(responses: seq<Response>, numbers: seq<nat>, ghost s: Sectors) returns (buffer: array<byte>)
    requires WellFormed(s) && Answers(s, responses) && |responses| == |numbers|
    requires forall i :: 0 <= i < |numbers| ==> numbers[i] < |s| && Answered(responses, numbers[i])
    ensures fresh(buffer) && buffer[..] == Assemble(s, numbers)
  {
    hide Answers, Answered;
    buffer := new byte[SECTOR_BYTES * |numbers|](_ => 0);
    for index := 0 to |numbers|
      invariant buffer[..SECTOR_BYTES * index] == Assemble(s, numbers[..index])
    {
      CopyResponses(responses, index, numbers[index], buffer, s);
      AssembleOneMore(s, numbers, index);
      var done := SECTOR_BYTES * index;
      assert buffer[..done + SECTOR_BYTES] == buffer[..done] + buffer[done..done + SECTOR_BYTES];
    }
    assert numbers[..|numbers|] == numbers && buffer[..buffer.Length] == buffer[..];
  }

  /** The connection to the broker: answers outstanding requests in any order, after any finite delay. */
  class Network {
    var patience: nat

    constructor (patience: nat) {
      this.patience := patience;
    }

    /** Which of the outstanding requests is answered now, or -1 when nothing is readable yet. */
    method Poll(outstanding: nat) returns (k: int)
      modifies this
      ensures -1 <= k < outstanding
      ensures patience <= old(patience) && (k == -1 && 0 < outstanding ==> patience < old(patience))
    {
      if outstanding == 0 {
        k := -1;
      } else if 0 < patience {
        k, patience := -1, patience - 1;
      } else {
        k := 0;
      }
    }
  }

  class Disk {
    const layout: Layout
    const network: Network
    var sectors: Sectors
    /** The contents of every cluster. */
    ghost var clusters: Data

    ghost predicate Valid()
      reads this
    {
      Fits(layout, sectors) && clusters == ClusterMap(layout, sectors)
    }

    constructor (layout: Layout, sectors: Sectors)
      requires Fits(layout, sectors)
      ensures Valid() && this.layout == layout && this.sectors == sectors && fresh(network)
    {
      this.layout, this.sectors := layout, sectors;
      clusters := ClusterMap(layout, sectors);
      network := new Network(0);
    }

    /** Sends one request per turn and takes one response whenever the network has one, until all are answered. */
    method ReadSectors(numbers: seq<nat>) returns (data: array<byte>)
      requires Valid() && forall i :: 0 <= i < |numbers| ==> numbers[i] < |sectors|
      modifies network
      ensures fresh(data) && data[..] == Assemble(sectors, numbers)
    {
      var responses: seq<Response> := [];
      var outstanding: seq<nat> := [];
      var sent := 0;
      while |responses| < |numbers|
        invariant sent <= |numbers| && |responses| + |outstanding| == sent
        invariant Answers(sectors, responses)
        invariant forall i :: 0 <= i < sent ==> numbers[i] in outstanding || Answered(responses, numbers[i])
        invariant forall i :: 0 <= i < |outstanding| ==> outstanding[i] < |sectors|
        decreases |numbers| - |responses|, |numbers| - sent, network.patience
      {
        if sent < |numbers| {
          outstanding := outstanding + [numbers[sent]];
          sent := sent + 1;
        }
        var k := network.Poll(|outstanding|);
        if 0 <= k {
          var response := Response(outstanding[k], sectors[outstanding[k]]);
          ghost var before, earlier := outstanding, responses;
          responses := responses + [response];
          outstanding := RemoveAt(outstanding, k);
          DeliveryCovers(before, earlier, k, response);
        }
      }
      assert forall i :: 0 <= i < |numbers| ==> Answered(responses, numbers[i]);
      data := ReconstructData(responses, numbers, sectors);
    }

    /** A request moves from the outstanding ones to the answered ones and none is dropped. */
    static lemma DeliveryCovers(outstanding: seq<nat>, responses: seq<Response>, k: nat, r: Response)
      requires k < |outstanding| && r.sector == outstanding[k]
      ensures forall n :: Answered(responses, n) ==> Answered(responses + [r], n)
      ensures forall n :: n in outstanding ==> n in RemoveAt(outstanding, k) || Answered(responses + [r], n)
    {
      var more := responses + [r];
      assert more[|responses|] == r;
      assert forall j :: 0 <= j < |responses| ==> more[j] == responses[j];
      forall n | n in outstanding
        ensures n in RemoveAt(outstanding, k) || Answered(more, n)
      {
        var i :| 0 <= i < |outstanding| && outstanding[i] == n;
        assert i < k ==> RemoveAt(outstanding, k)[i] == n;
        assert k < i ==> RemoveAt(outstanding, k)[i - 1] == n;
      }
    }

    /**
     * Takes one confirmation per turn whenever the network has one and sends one request, until all are confirmed. Disks
     * apply requests in any order, except that none overtakes an earlier one to its own sector.
     */
    method WriteSectors(writes: seq<SectorWrite>)
      requires forall i :: 0 <= i < |writes| ==> writes[i].number < |sectors|
      modifies this`sectors, network
      ensures sectors == Written(old(sectors), writes)
    {
      hide Written, InFlight, FirstTo;
      var outstanding: seq<SectorWrite> := [];
      var confirmed, sent := 0, 0;
      ghost var s := sectors;
      AllToSend(s, writes);
      while confirmed < |writes|
        invariant sent <= |writes| && confirmed + |outstanding| == sent && |sectors| == |s|
        invariant InFlight(s, writes, sectors, outstanding, sent)
        decreases |writes| - confirmed, |writes| - sent, network.patience
      {
        var k := network.Poll(|outstanding|);
        if 0 <= k {
          var first := FirstTo(outstanding, outstanding[k].number);
          OneApplied(s, writes, sectors, outstanding, sent, first);
          var write := outstanding[first];
          sectors := sectors[write.number := write.data];
          outstanding := RemoveAt(outstanding, first);
          confirmed := confirmed + 1;
        }
        if sent < |writes| {
          OneSent(s, writes, sectors, outstanding, sent);
          outstanding := outstanding + [writes[sent]];
          sent := sent + 1;
        }
      }
      AllApplied(s, writes, sectors, outstanding);
    }

    method SectorNumbers(c: nat) returns (numbers: array<nat>)
      requires layout.HasCluster(c)
      ensures fresh(numbers) && numbers[..] == layout.ClusterToSectors(c)
    {
      var first := layout.DataStart() + (c - 2) * CLUSTER_SECTORS;
      numbers := new nat[CLUSTER_SECTORS](_ => 0);
      for index := 0 to CLUSTER_SECTORS
        invariant forall i :: 0 <= i < index ==> numbers[i] == layout.FirstSector(c) + i
      {
        numbers[index] := first + index;
      }
    }

    method ReadCluster(c: nat) returns (data: array<byte>)
      requires Valid() && layout.HasCluster(c)
      modifies network
      ensures fresh(data) && data[..] == clusters[c] && data.Length == CLUSTER_BYTES
    {
      var numbers := SectorNumbers(c);
      ClusterIsItsSectors(layout, sectors, c);
      data := ReadSectors(numbers[..]);
    }

    /** The sectors of a cluster paired with the stretches of the buffer that belong in them. */
    method NewCluster(c: nat, data: seq<byte>) returns (writes: seq<SectorWrite>)
      requires layout.HasCluster(c) && |data| == CLUSTER_BYTES
      ensures writes == ClusterWrites(layout, c, data)
    {
      var numbers := SectorNumbers(c);
      writes := [];
      for index := 0 to CLUSTER_SECTORS
        invariant writes == ClusterWrites(layout, c, data)[..index]
      {
        writes := writes + [SectorWrite(numbers[index], SectorSlice(data, index))];
      }
    }

    /** Writing a cluster replaces its contents and nothing else: no other cluster, no sector of the table. */
    method WriteCluster(c: nat, data: seq<byte>)
      requires Valid() && layout.HasCluster(c) && |data| == CLUSTER_BYTES
      modifies this, network
      ensures Valid() && |sectors| == |old(sectors)|
      ensures clusters == old(clusters)[c := data]
      ensures forall n :: 0 <= n < layout.DataStart() ==> sectors[n] == old(sectors[n])
    {
      WritesLandInCluster(layout, sectors, c, data);
      var writes := NewCluster(c, data);
      WriteSectors(writes);
      clusters := clusters[c := data];
    }
  }

  /** What sector `n` holds after cluster `c` is written. */
  function SectorAfter(l: Layout, s: Sectors, c: nat, data: seq<byte>, n: nat): seq<byte>
    requires l.HasCluster(c) && |data| == CLUSTER_BYTES && n < |s|
  {
    var i := n - l.FirstSector(c);
    if 0 <= i < CLUSTER_SECTORS then SectorSlice(data, i) else s[n]
  }

  lemma SectorAfterClusterWrite(l: Layout, s: Sectors, c: nat, data: seq<byte>, n: nat)
    requires Fits(l, s) && l.HasCluster(c) && |data| == CLUSTER_BYTES && n < |s|
    ensures forall i :: 0 <= i < CLUSTER_SECTORS ==> ClusterWrites(l, c, data)[i].number < |s|
    ensures Written(s, ClusterWrites(l, c, data))[n] == SectorAfter(l, s, c, data, n)
  {
    var writes := ClusterWrites(l, c, data);
    assert forall i :: 0 <= i < CLUSTER_SECTORS ==> writes[i] == SectorWrite(l.FirstSector(c) + i, SectorSlice(data, i));
    ClusterIsItsSectors(l, s, c);
    var i := n - l.FirstSector(c);
    if 0 <= i < CLUSTER_SECTORS {
      WrittenHere(s, writes, i);
    } else {
      WrittenElsewhere(s, writes, n);
    }
  }

  lemma ClusterAfterWrite(l: Layout, s: Sectors, r: Sectors, c: nat, data: seq<byte>, d: nat)
    requires Fits(l, s) && Fits(l, r) && |r| == |s| && l.HasCluster(c) && l.HasCluster(d) && |data| == CLUSTER_BYTES
    requires forall n :: 0 <= n < |s| ==> r[n] == SectorAfter(l, s, c, data, n)
    ensures ClusterBytes(l, r, d) == if d == c then data else ClusterBytes(l, s, d)
  {
    forall k | 0 <= k < CLUSTER_BYTES
      ensures ClusterBytes(l, r, d)[k] == if d == c then data[k] else ClusterBytes(l, s, d)[k]
    {
      var i := k / SECTOR_BYTES;
      var n := l.FirstSector(d) + i;
      ClustersAreDisjoint(l, d, d, i, i);
      assert r[n] == SectorAfter(l, s, c, data, n);
      if d == c {
        assert r[n] == SectorSlice(data, i);
        assert k == i * SECTOR_BYTES + k % SECTOR_BYTES;
      }
    }
  }

  lemma WritesLandInCluster(l: Layout, s: Sectors, c: nat, data: seq<byte>)
    requires Fits(l, s) && l.HasCluster(c) && |data| == CLUSTER_BYTES
    ensures forall i :: 0 <= i < CLUSTER_SECTORS ==> ClusterWrites(l, c, data)[i].number < |s|
    ensures var r := Written(s, ClusterWrites(l, c, data));
            && Fits(l, r)
            && (forall d: nat :: l.HasCluster(d) ==> ClusterBytes(l, r, d) == if d == c then data else ClusterBytes(l, s, d))
            && forall n :: 0 <= n < l.DataStart() ==> r[n] == s[n]
  {
    l.FatBeforeData();
    SectorAfterClusterWrite(l, s, c, data, 0);
    var r := Written(s, ClusterWrites(l, c, data));
    forall n | 0 <= n < |s|
      ensures r[n] == SectorAfter(l, s, c, data, n)
    {
      SectorAfterClusterWrite(l, s, c, data, n);
    }
    assert WellFormed(r);
    forall d: nat | l.HasCluster(d)
      ensures ClusterBytes(l, r, d) == if d == c then data else ClusterBytes(l, s, d)
    {
      ClusterAfterWrite(l, s, r, c, data, d);
    }
  }
}
