/** What a truncation does to the bytes of a file. */
module TruncatedBytes {
  import opened Bytes
  import opened Disks
  import opened FatChains
  import opened FatRuns
  import opened Fat32
  import opened FileBytes

  /** A truncation from `size` to `newSize` that takes the chain from `c` to `r`, as a volume's resize does. */
  ghost predicate Truncates(data: Data, c: Chain, r: Chain, size: nat, newSize: nat) {
    && |c| == ClustersFor(size) && |r| == ClustersFor(newSize)
    && (if |r| <= |c| then r <= c else c <= r)
    && (forall a, b :: 0 <= a < b < |c| ==> c[a] != c[b]) && (forall a, b :: 0 <= a < b < |r| ==> r[a] != r[b])
    && (forall k :: k in data ==> |data[k]| == CLUSTER_BYTES) && HasChain(data, c) && HasChain(data, r)
  }

  /** All bytes of a file's clusters, past its end too. */
  ghost function Room(data: Data, c: Chain): seq<byte>
    requires HasChain(data, c)
  {
    BytesOf(data, c, CLUSTER_BYTES * |c|)
  }

  /** What the truncation leaves in the `i`-th cluster. */
  lemma ClusterAfter(data: Data, c: Chain, r: Chain, size: nat, newSize: nat, i: nat)
    requires Truncates(data, c, r, size, newSize) && i < |r|
    ensures var w := TruncatedData(data, c, r, size, newSize);
            && r[i] in w
            && w[r[i]] == if |c| <= i then Zeros(CLUSTER_BYTES)
                          else if |c| == |r| && newSize < size && i == |c| - 1 then ZeroTail(data[c[i]], newSize % CLUSTER_BYTES)
                          else data[c[i]]
  {
    if |c| < |r| {
      assert |c| <= i ==> r[|c|..][i - |c|] == r[i];
      assert forall j :: 0 <= j < |r| - |c| ==> r[|c|..][j] == r[|c| + j];
    }
  }

  /** A cluster that is not the file's afterwards is left as it was, also one given back. */
  lemma OtherClustersKept(data: Data, c: Chain, r: Chain, size: nat, newSize: nat, k: nat)
    requires Truncates(data, c, r, size, newSize) && k in data && k !in r
    ensures var w := TruncatedData(data, c, r, size, newSize); w.Keys == data.Keys && w[k] == data[k]
  {
    if |c| < |r| {
      assert forall j :: 0 <= j < |r| - |c| ==> r[|c|..][j] in r;
    } else if |c| == |r| {
      assert r == c;
    }
  }

  lemma ChainAfter(data: Data, c: Chain, r: Chain, size: nat, newSize: nat)
    requires Truncates(data, c, r, size, newSize)
    ensures HasChain(TruncatedData(data, c, r, size, newSize), r)
  {
    forall i | 0 <= i < |r| {
      ClusterAfter(data, c, r, size, newSize, i);
    }
  }

  /** Where the last cluster that is cleared in part starts to be clear. */
  lemma TailStart(size: nat, newSize: nat)
    requires ClustersFor(size) == ClustersFor(newSize) && 0 < newSize < size
    ensures newSize % CLUSTER_BYTES + CLUSTER_BYTES * (ClustersFor(newSize) - 1) == newSize
  {
  }

  /** One byte of the room the file has after the truncation. */
  lemma ByteAfter(data: Data, c: Chain, r: Chain, size: nat, newSize: nat, k: nat)
    requires Truncates(data, c, r, size, newSize) && k < CLUSTER_BYTES * |r|
    ensures HasChain(TruncatedData(data, c, r, size, newSize), r)
    ensures Room(TruncatedData(data, c, r, size, newSize), r)[k] ==
            if CLUSTER_BYTES * |c| <= k || (|c| == |r| && newSize <= k && newSize < size) then 0 else Room(data, c)[k]
  {
    hide TruncatedData, ClustersFor;
    ChainAfter(data, c, r, size, newSize);
    var i := k / CLUSTER_BYTES;
    assert k == CLUSTER_BYTES * i + k % CLUSTER_BYTES;
    ClusterAfter(data, c, r, size, newSize, i);
    if |c| == |r| && newSize < size {
      assert newSize == 0 ==> ClustersFor(newSize) == 0 by { NoneForNothing(); }
      TailStart(size, newSize);
    }
  }

  lemma NoneForNothing()
    ensures ClustersFor(0) == 0
  {
  }

  lemma RoomHoldsFile(data: Data, c: Chain, size: nat)
    requires HasChain(data, c) && |c| == ClustersFor(size)
    ensures size <= CLUSTER_BYTES * |c| && BytesOf(data, c, size) == Room(data, c)[..size]
  {
    ClustersForIsCeiling(size, 0);
  }

  /** Every byte inside both sizes is kept. */
  lemma TruncationKeepsBytes(data: Data, c: Chain, r: Chain, size: nat, newSize: nat)
    requires Truncates(data, c, r, size, newSize)
    ensures var w, n := TruncatedData(data, c, r, size, newSize), if size < newSize then size else newSize;
            && HasChain(w, r) && size <= CLUSTER_BYTES * |c| && newSize <= CLUSTER_BYTES * |r|
            && BytesOf(w, r, newSize)[..n] == BytesOf(data, c, size)[..n]
  {
    hide TruncatedData, ClustersFor, Truncates, BytesOf;
    KnownChains(data, c, r, size, newSize);
    ChainAfter(data, c, r, size, newSize);
    var w, n := TruncatedData(data, c, r, size, newSize), if size < newSize then size else newSize;
    RoomHoldsFile(data, c, size);
    RoomHoldsFile(w, r, newSize);
    forall k | 0 <= k < n
      ensures BytesOf(w, r, newSize)[k] == BytesOf(data, c, size)[k]
    {
      ByteAfter(data, c, r, size, newSize, k);
      assert BytesOf(w, r, newSize)[k] == Room(w, r)[..newSize][k] && BytesOf(data, c, size)[k] == Room(data, c)[..size][k];
    }
  }

  lemma KnownChains(data: Data, c: Chain, r: Chain, size: nat, newSize: nat)
    requires Truncates(data, c, r, size, newSize)
    ensures HasChain(data, c) && HasChain(data, r) && |c| == ClustersFor(size) && |r| == ClustersFor(newSize)
    ensures forall k :: k in data ==> |data[k]| == CLUSTER_BYTES
  {
  }

  /** Every resize of a file of a well-kept volume is such a truncation. */
  lemma ResizeTruncates(data: Data, v: Volume, u: Volume, f: nat, size: nat, newSize: nat)
    requires Partitioned(v) && Partitioned(u) && f in v.chains && Resized(v, u, f, ClustersFor(newSize))
    requires |v.chains[f]| == ClustersFor(size)
    requires forall k :: 2 <= k < |v.table| ==> k in data
    requires forall k :: k in data ==> |data[k]| == CLUSTER_BYTES
    ensures Truncates(data, v.chains[f], u.chains[f], size, newSize)
  {
    hide Partitioned, Resized, ClustersFor;
    ResizedChain(v, u, f, ClustersFor(newSize));
    OwnChain(v, f);
    OwnChain(u, f);
  }

  lemma ResizedChain(v: Volume, u: Volume, f: nat, m: nat)
    requires f in v.chains && Resized(v, u, f, m)
    ensures f in u.chains && |u.table| == |v.table| && |u.chains[f]| == m
    ensures var c, r := v.chains[f], u.chains[f];
            if m <= |c| then r <= c else c <= r
  {
  }

  lemma OwnChain(v: Volume, f: nat)
    requires Partitioned(v) && f in v.chains
    ensures forall i :: 0 <= i < |v.chains[f]| ==> 2 <= v.chains[f][i] < |v.table|
    ensures forall a, b :: 0 <= a < b < |v.chains[f]| ==> v.chains[f][a] != v.chains[f][b]
  {
    var c := v.chains[f];
    forall a, b | 0 <= a < b < |c|
      ensures c[a] != c[b]
    {
      if c[a] == c[b] {
        ChainsAreAcyclic(v.table, c, a, b);
      }
    }
  }

  ghost predicate ZeroFrom(bs: seq<byte>, from: nat, to: nat) {
    forall k :: from <= k < to && k < |bs| ==> bs[k] == 0
  }

  /**
   * A file that grows reads zeros past its old end if and only if what its last cluster held past that end was zero
   * already: only clusters newly linked are cleared.
   */
  lemma GrowthReadsZerosIff(data: Data, c: Chain, r: Chain, size: nat, newSize: nat)
    requires Truncates(data, c, r, size, newSize) && size <= newSize
    ensures HasChain(TruncatedData(data, c, r, size, newSize), r) && newSize <= CLUSTER_BYTES * |r|
    ensures ZeroFrom(BytesOf(TruncatedData(data, c, r, size, newSize), r, newSize), size, newSize)
        <==> ZeroFrom(Room(data, c), size, newSize)
  {
    hide TruncatedData, ClustersFor, Truncates, BytesOf;
    KnownChains(data, c, r, size, newSize);
    ChainAfter(data, c, r, size, newSize);
    var w := TruncatedData(data, c, r, size, newSize);
    RoomHoldsFile(w, r, newSize);
    var a, b := BytesOf(w, r, newSize), Room(data, c);
    forall k | size <= k < newSize
      ensures a[k] == if |b| <= k then 0 else b[k]
    {
      ByteAfter(data, c, r, size, newSize, k);
    }
  }

  /**
   * Shrinking clears the rest of the last cluster only when no cluster goes: otherwise the bytes past the new end stay
   * where they are, to be read again should the file grow.
   */
  lemma RoomAfterShrink(data: Data, c: Chain, r: Chain, size: nat, newSize: nat)
    requires Truncates(data, c, r, size, newSize) && newSize < size
    ensures var w := TruncatedData(data, c, r, size, newSize);
            && HasChain(w, r)
            && (|r| == |c| ==> ZeroFrom(Room(w, r), newSize, CLUSTER_BYTES * |r|))
            && (|r| < |c| ==> Room(w, r) == Room(data, c)[..CLUSTER_BYTES * |r|])
  {
    hide TruncatedData, ClustersFor, Truncates, BytesOf;
    KnownChains(data, c, r, size, newSize);
    FewerClusters(data, c, r, size, newSize);
    ChainAfter(data, c, r, size, newSize);
    var w := TruncatedData(data, c, r, size, newSize);
    forall k | 0 <= k < CLUSTER_BYTES * |r|
      ensures |r| == |c| && newSize <= k ==> Room(w, r)[k] == 0
      ensures |r| < |c| ==> Room(w, r)[k] == Room(data, c)[k]
    {
      ByteAfter(data, c, r, size, newSize, k);
    }
  }

  lemma FewerClusters(data: Data, c: Chain, r: Chain, size: nat, newSize: nat)
    requires Truncates(data, c, r, size, newSize) && newSize < size
    ensures |r| <= |c|
  {
  }
}
