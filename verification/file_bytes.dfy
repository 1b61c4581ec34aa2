/** The bytes of a file, and how many clusters a read or a write of it goes through. */
module FileBytes {
  import opened Bytes
  import opened Disks
  import opened FatChains
  import opened Fat32

  /** The chain's clusters one after the other, cut at the size of the file. */
  ghost function BytesOf(view: Data, chain: Chain, size: nat): (r: seq<byte>)
    requires size <= CLUSTER_BYTES * |chain|
    requires forall i :: 0 <= i < |chain| ==> chain[i] in view && |view[chain[i]]| == CLUSTER_BYTES
    ensures |r| == size
  {
    seq(size, k requires 0 <= k < size => view[chain[k / CLUSTER_BYTES]][k % CLUSTER_BYTES])
  }

  /** Clusters the code goes through: the difference of the two quotients rounded up, in exact arithmetic. */
  function ClusterCount(n: nat): nat {
    ClustersFor(n)
  }

  /** Clusters that hold some of the bytes from `offset` to `offset + n`. */
  function ClustersTouched(offset: nat, n: nat): nat {
    ClustersFor(offset % CLUSTER_BYTES + n)
  }

  /** The count is right: it covers the whole range. */
  predicate CountOk(offset: nat, n: nat) {
    n == 0 || offset % CLUSTER_BYTES + n <= CLUSTER_BYTES * ClusterCount(n)
  }

  /** Bytes of a write of `n` that fall in the clusters the code goes through. */
  function Stored(offset: nat, n: nat): nat {
    if CountOk(offset, n) then n else CLUSTER_BYTES * ClusterCount(n) - offset % CLUSTER_BYTES
  }

  /**
   * The code goes through every cluster of a non-empty range, and stores all of a write, exactly when the range does
   * not start so far into a cluster that it needs one more than its length alone would.
   */
  lemma CountIsRightIff(offset: nat, n: nat)
    requires 0 < n
    ensures ClusterCount(n) == ClustersTouched(offset, n) <==> CountOk(offset, n)
    ensures Stored(offset, n) == n <==> CountOk(offset, n)
    ensures 0 < Stored(offset, n) <= n
    ensures ClusterCount(n) <= ClustersTouched(offset, n) <= ClusterCount(n) + 1
  {
    ClustersForIsCeiling(n, ClustersFor(n));
  }

  /** The count is the least number of 4096-byte clusters that hold `n` bytes. */
  lemma CountIsLeast(n: nat)
    ensures n <= 4096 * ClusterCount(n) && forall m: nat :: n <= 4096 * m ==> ClusterCount(n) <= m
    ensures ClusterCount(n) == (n + 4095) / 4096
  {
  }

  /** When the count is right, and how much of a write it covers otherwise, in plain arithmetic. */
  lemma CountInNumbers(offset: nat, n: nat)
    ensures CountOk(offset, n) <==> n == 0 || offset % 4096 + n <= 4096 * ((n + 4095) / 4096)
    ensures offset % 4096 + n <= 4096 * ((n + 4095) / 4096) ==> Stored(offset, n) == n
    ensures n != 0 && offset % 4096 + n > 4096 * ((n + 4095) / 4096) ==>
              Stored(offset, n) == 4096 * ((n + 4095) / 4096) - offset % 4096
  {
    CountIsLeast(n);
  }

  /** What a read of `n` bytes hands back: those the clusters gathered hold, then what lies `beyond` the buffer. */
  function ReadFrom(bs: seq<byte>, offset: nat, n: nat, beyond: seq<byte>): (r: seq<byte>)
    requires offset + n <= |bs| && n <= |beyond|
    ensures |r| == n
  {
    StoredIsPart(offset, n);
    bs[offset..offset + Stored(offset, n)] + beyond[..n - Stored(offset, n)]
  }

  lemma StoredIsPart(offset: nat, n: nat)
    ensures Stored(offset, n) <= n
  {
  }

  /** A read hands back the file's bytes, whatever lies beyond, if and only if the cluster count is right. */
  lemma ReadIsRightIff(bs: seq<byte>, offset: nat, n: nat)
    requires offset + n <= |bs|
    ensures (forall beyond: seq<byte> :: n <= |beyond| ==> ReadFrom(bs, offset, n, beyond) == bs[offset..offset + n])
        <==> CountOk(offset, n)
  {
    StoredIsPart(offset, n);
    if !CountOk(offset, n) {
      var k := Stored(offset, n);
      CountIsRightIff(offset, n);
      var other: byte := if bs[offset + k] == 0 then 1 else 0;
      var beyond := seq(n, _ => other);
      assert ReadFrom(bs, offset, n, beyond)[k] == other != bs[offset..offset + n][k];
    }
  }

  /** Two bytes across a cluster boundary already lose the second one. */
  lemma TwoBytesAcrossABoundary()
    ensures !CountOk(CLUSTER_BYTES - 1, 2) && Stored(CLUSTER_BYTES - 1, 2) == 1
  {
  }

  /** A range inside the file goes through clusters of its chain only. */
  lemma RangeStaysInChain(offset: nat, n: nat, size: nat)
    requires offset + n <= size
    ensures offset / CLUSTER_BYTES + ClusterCount(n) <= ClustersFor(size) || n == 0
    ensures offset < size ==> offset / CLUSTER_BYTES < ClustersFor(size)
  {
    ClustersForIsCeiling(size, ClustersFor(size));
  }

  /** Byte `k` of the range is in the `(offset % C + k) / C`-th cluster after the first. */
  lemma RangeIndex(offset: nat, k: nat)
    ensures (offset + k) / CLUSTER_BYTES == offset / CLUSTER_BYTES + (offset % CLUSTER_BYTES + k) / CLUSTER_BYTES
    ensures (offset + k) % CLUSTER_BYTES == (offset % CLUSTER_BYTES + k) % CLUSTER_BYTES
  {
  }

  ghost predicate HasChain(view: Data, chain: Chain) {
    forall i :: 0 <= i < |chain| ==> chain[i] in view && |view[chain[i]]| == CLUSTER_BYTES
  }

  /** Overwriting a piece of one cluster overwrites that stretch of the file, since no cluster occurs twice. */
  lemma PieceInFile(view: Data, chain: Chain, size: nat, i: nat, offset: nat, piece: seq<byte>)
    requires size <= CLUSTER_BYTES * |chain| && HasChain(view, chain) && i < |chain|
    requires forall a, b :: 0 <= a < b < |chain| ==> chain[a] != chain[b]
    requires offset + |piece| <= CLUSTER_BYTES && CLUSTER_BYTES * i + offset + |piece| <= size
    ensures var w := view[chain[i] := Splice(view[chain[i]], offset, piece)];
            && HasChain(w, chain)
            && BytesOf(w, chain, size) == Splice(BytesOf(view, chain, size), CLUSTER_BYTES * i + offset, piece)
  {
    var w := view[chain[i] := Splice(view[chain[i]], offset, piece)];
    assert HasChain(w, chain);
    forall k | 0 <= k < size
      ensures BytesOf(w, chain, size)[k] == Splice(BytesOf(view, chain, size), CLUSTER_BYTES * i + offset, piece)[k]
    {
      assert k == CLUSTER_BYTES * (k / CLUSTER_BYTES) + k % CLUSTER_BYTES;
      if k / CLUSTER_BYTES == i {
        assert w[chain[k / CLUSTER_BYTES]] == Splice(view[chain[i]], offset, piece);
      } else {
        assert chain[k / CLUSTER_BYTES] != chain[i];
      }
    }
  }

  /** Writing a stretch and then the next one is writing both. */
  lemma SpliceOnward(bs: seq<byte>, offset: nat, data: seq<byte>, m: nat, n: nat)
    requires m <= n <= |data| && offset + n <= |bs|
    ensures Splice(Splice(bs, offset, data[..m]), offset + m, data[m..n]) == Splice(bs, offset, data[..n])
  {
  }

  /** A file that keeps its clusters and gains some keeps its bytes. */
  lemma GrownBytes(view: Data, w: Data, chain: Chain, more: Chain, size: nat, newSize: nat)
    requires size <= CLUSTER_BYTES * |chain| && HasChain(view, chain) && HasChain(w, more)
    requires size <= newSize <= CLUSTER_BYTES * |more| && chain <= more
    requires forall i :: 0 <= i < |chain| ==> w[chain[i]] == view[chain[i]]
    ensures BytesOf(w, more, newSize)[..size] == BytesOf(view, chain, size)
  {
    forall k | 0 <= k < size
      ensures BytesOf(w, more, newSize)[k] == BytesOf(view, chain, size)[k]
    {
      assert more[k / CLUSTER_BYTES] == chain[k / CLUSTER_BYTES];
    }
  }

  /** `gathered` holds the clusters of the chain from `skip` on. */
  ghost predicate Gathered(view: Data, chain: Chain, skip: nat, gathered: seq<byte>)
    requires HasChain(view, chain)
  {
    && |gathered| <= CLUSTER_BYTES * (|chain| - skip)
    && forall x :: 0 <= x < |gathered| ==> gathered[x] == ByteAt(view, chain, skip + x / CLUSTER_BYTES, x % CLUSTER_BYTES)
  }

  ghost function ByteAt(view: Data, chain: Chain, i: nat, j: nat): byte
    requires HasChain(view, chain) && i < |chain| && j < CLUSTER_BYTES
  {
    view[chain[i]][j]
  }

  lemma GatheredByte(view: Data, chain: Chain, size: nat, offset: nat, gathered: seq<byte>, k: nat)
    requires size <= CLUSTER_BYTES * |chain| && HasChain(view, chain) && offset + k < size
    requires Gathered(view, chain, offset / CLUSTER_BYTES, gathered) && offset % CLUSTER_BYTES + k < |gathered|
    ensures gathered[offset % CLUSTER_BYTES + k] == BytesOf(view, chain, size)[offset + k]
  {
    RangeIndex(offset, k);
    var x := offset % CLUSTER_BYTES + k;
    assert gathered[x] == ByteAt(view, chain, offset / CLUSTER_BYTES + x / CLUSTER_BYTES, x % CLUSTER_BYTES);
  }

  /** What is gathered from the first cluster of a range holds the range, starting at its offset in that cluster. */
  lemma GatheredRange(view: Data, chain: Chain, size: nat, offset: nat, n: nat, gathered: seq<byte>)
    requires size <= CLUSTER_BYTES * |chain| && HasChain(view, chain) && offset + n <= size
    requires Gathered(view, chain, offset / CLUSTER_BYTES, gathered) && offset % CLUSTER_BYTES + n <= |gathered|
    ensures gathered[offset % CLUSTER_BYTES..offset % CLUSTER_BYTES + n] == BytesOf(view, chain, size)[offset..offset + n]
  {
    var a, b := gathered[offset % CLUSTER_BYTES..offset % CLUSTER_BYTES + n], BytesOf(view, chain, size)[offset..offset + n];
    forall k | 0 <= k < n
      ensures a[k] == b[k]
    {
      GatheredByte(view, chain, size, offset, gathered, k);
    }
  }

  lemma GatherOneMore(view: Data, chain: Chain, skip: nat, j: nat, before: seq<byte>, after: seq<byte>)
    requires HasChain(view, chain) && skip + j < |chain| && |before| == CLUSTER_BYTES * j && Gathered(view, chain, skip, before)
    requires |after| == CLUSTER_BYTES * (j + 1) && after[..CLUSTER_BYTES * j] == before
    requires after[CLUSTER_BYTES * j..] == view[chain[skip + j]]
    ensures Gathered(view, chain, skip, after)
  {
    forall x | 0 <= x < |after|
      ensures after[x] == ByteAt(view, chain, skip + x / CLUSTER_BYTES, x % CLUSTER_BYTES)
    {
      if x < CLUSTER_BYTES * j {
        assert after[x] == before[x];
      } else {
        assert after[x] == after[CLUSTER_BYTES * j..][x - CLUSTER_BYTES * j];
        assert x / CLUSTER_BYTES == j && x % CLUSTER_BYTES == x - CLUSTER_BYTES * j;
      }
    }
  }

  // ---------- the pieces of a write ----------

  /** Bytes of a write already stored when the code comes to its `j`-th cluster. */
  function Done(offset: nat, n: nat, j: nat): int {
    if j == 0 then 0 else if CLUSTER_BYTES * j - offset % CLUSTER_BYTES < n then CLUSTER_BYTES * j - offset % CLUSTER_BYTES else n
  }

  /** The piece for the `j`-th cluster starts where the last one ended, lies in that cluster, and ends where the next starts. */
  lemma PieceBounds(offset: nat, n: nat, j: nat)
    requires j < ClusterCount(n)
    ensures 0 <= Done(offset, n, j) < n
    ensures var at := offset + Done(offset, n, j);
            var room := CLUSTER_BYTES - at % CLUSTER_BYTES;
            && at / CLUSTER_BYTES == offset / CLUSTER_BYTES + j
            && Done(offset, n, j + 1) == Done(offset, n, j) + if room < n - Done(offset, n, j) then room else n - Done(offset, n, j)
  {
  }

  lemma AllPiecesStored(offset: nat, n: nat)
    requires 0 < n
    ensures Done(offset, n, ClusterCount(n)) == Stored(offset, n)
  {
  }
}
