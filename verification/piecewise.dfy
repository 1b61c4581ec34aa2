/** A write as the pieces the code stores one cluster at a time, through a cache in any state. */
module Piecewise {
  import opened Bytes
  import opened Disks
  import opened FatChains
  import opened Fat32
  import opened FileBytes
  import FileCaches

  // ---------- states the file's operations start from ----------

  /** Blocks belong to the file and none is newer than the clock. */
  ghost predicate OwnedBy(s: FileCaches.State, chain: Chain, clock: int) {
    forall i :: 0 <= i < |s.blocks| ==> s.blocks[i].cluster in chain && s.blocks[i].stamp <= clock
  }

  /** A well-formed cache that is off or has room for a block, over a disk that holds the whole chain. */
  ghost predicate Fit(s: FileCaches.State, chain: Chain, clock: int) {
    && FileCaches.WellFormed(s) && OwnedBy(s, chain, clock) && (s.bytes == 0 || CLUSTER_BYTES <= s.bytes)
    && forall i :: 0 <= i < |chain| ==> chain[i] in s.disk
  }

  ghost predicate Sound(s: FileCaches.State, chain: Chain, clock: int) {
    Fit(s, chain, clock) && FileCaches.Coherent(s)
  }

  /** A clock past every block always finds one to replace. */
  lemma CanAlwaysInsert(s: FileCaches.State, chain: Chain, clock: int, now: int)
    requires Fit(s, chain, clock) && clock < now
    ensures FileCaches.CanInsert(s, now)
  {
    if s.bytes != 0 && |s.blocks| == s.Capacity() {
      assert s.blocks[0].stamp <= clock;
    }
  }

  /** The disk is the same outside the file. */
  ghost predicate SameOutside(s: FileCaches.State, r: FileCaches.State, chain: Chain) {
    r.disk.Keys == s.disk.Keys && forall j :: j in s.disk && j !in chain ==> r.disk[j] == s.disk[j]
  }

  lemma InsertStaysFit(s: FileCaches.State, chain: Chain, clock: int, k: nat, data: seq<byte>, now: int)
    requires Fit(s, chain, clock) && clock < now && k in chain && FileCaches.CanInsert(s, now)
    requires s.bytes != 0 && !FileCaches.Holds(s.blocks, k) && |data| == CLUSTER_BYTES
    ensures var r := FileCaches.Inserted(s, k, data, now); Fit(r, chain, now) && SameOutside(s, r, chain)
  {
    var block := FileCaches.Block(k, data, now, false);
    if |s.blocks| < s.Capacity() {
      FileCaches.AppendedWellFormed(s, block);
    } else {
      FileCaches.ReplacedWellFormed(s, FileCaches.Lru(s.blocks, now).value, block);
    }
  }

  lemma ReadStaysFit(s: FileCaches.State, chain: Chain, clock: int, k: nat, now: int)
    requires Sound(s, chain, clock) && clock < now && k in chain && k in s.disk && FileCaches.CanInsert(s, now)
    ensures var r := FileCaches.ReadOf(s, k, now); OwnedBy(r, chain, now) && SameOutside(s, r, chain) && r.bytes == s.bytes
  {
  }

  lemma ReadIsSound(s: FileCaches.State, chain: Chain, clock: int, k: nat, now: int)
    requires Sound(s, chain, clock) && clock < now && k in chain
    ensures k in s.disk && FileCaches.CanInsert(s, now)
    ensures var r := FileCaches.ReadOf(s, k, now);
            Sound(r, chain, now) && FileCaches.View(r) == FileCaches.View(s) && SameOutside(s, r, chain)
  {
    CanAlwaysInsert(s, chain, clock, now);
    FileCaches.ReadChangesNothing(s, k, now);
    ReadStaysFit(s, chain, clock, k, now);
  }

  lemma HitStaysFit(s: FileCaches.State, chain: Chain, clock: int, k: nat, data: seq<byte>, now: int)
    requires Fit(s, chain, clock) && clock < now && FileCaches.Holds(s.blocks, k) && |data| == CLUSTER_BYTES
    ensures var r := s.(blocks := s.blocks[FileCaches.Find(s.blocks, k) := FileCaches.Block(k, data, now, true)]);
            Fit(r, chain, now)
  {
    FileCaches.UpdatedWellFormed(s, FileCaches.Find(s.blocks, k), FileCaches.Block(k, data, now, true));
  }

  /** A write of one piece, hit or miss, leaves the file's state fit and the rest of the disk alone. */
  lemma WriteStaysFit(s: FileCaches.State, chain: Chain, clock: int, k: nat, offset: nat, piece: seq<byte>, now: int)
    requires Fit(s, chain, clock) && clock < now && k in chain && offset + |piece| <= CLUSTER_BYTES
    ensures k in s.disk && FileCaches.CanInsert(s, now) && |FileCaches.Seen(s, k)| == CLUSTER_BYTES
    ensures var r := FileCaches.WriteOf(s, k, offset, piece, now);
            Fit(r, chain, now) && SameOutside(s, r, chain) && r.bytes == s.bytes
  {
    CanAlwaysInsert(s, chain, clock, now);
    FileCaches.SeenIsCluster(s, k);
    var data := Splice(FileCaches.Seen(s, k), offset, piece);
    if FileCaches.Holds(s.blocks, k) {
      HitStaysFit(s, chain, clock, k, data, now);
    } else if s.bytes != 0 {
      InsertStaysFit(s, chain, clock, k, data, now);
    }
  }

  // ---------- a whole write ----------

  datatype Piece = Piece(cluster: nat, offset: nat, data: seq<byte>)

  /** Pieces for distinct clusters of the chain, each inside its cluster. */
  ghost predicate PiecesFit(pieces: seq<Piece>, chain: Chain) {
    && (forall i :: 0 <= i < |pieces| ==> pieces[i].cluster in chain && pieces[i].offset + |pieces[i].data| <= CLUSTER_BYTES)
    && (forall i, j :: 0 <= i < j < |pieces| ==> pieces[i].cluster != pieces[j].cluster)
  }

  ghost function PieceWritten(s: FileCaches.State, chain: Chain, clock: int, p: Piece): (r: FileCaches.State)
    requires Fit(s, chain, clock) && p.cluster in chain && p.offset + |p.data| <= CLUSTER_BYTES
    ensures Fit(r, chain, clock + 1) && SameOutside(s, r, chain) && r.bytes == s.bytes
  {
    WriteStaysFit(s, chain, clock, p.cluster, p.offset, p.data, clock + 1);
    FileCaches.WriteOf(s, p.cluster, p.offset, p.data, clock + 1)
  }

  ghost function WritesOf(s: FileCaches.State, chain: Chain, clock: int, pieces: seq<Piece>): (r: FileCaches.State)
    requires Fit(s, chain, clock) && PiecesFit(pieces, chain)
    ensures Fit(r, chain, clock + |pieces|) && SameOutside(s, r, chain) && r.bytes == s.bytes
    decreases |pieces|
  {
    if pieces == [] then s else WritesOf(PieceWritten(s, chain, clock, pieces[0]), chain, clock + 1, pieces[1..])
  }

  /** The same writes with no cache in front. */
  function PlainWrites(v: Data, pieces: seq<Piece>): Data
    decreases |pieces|
  {
    if pieces == [] then v
    else PlainWrites(FileCaches.Plain(v, FileCaches.Write(pieces[0].cluster, pieces[0].offset, pieces[0].data, 0)), pieces[1..])
  }

  /** The piece is safe: no cache, a block to change, or nothing to change. */
  ghost predicate Safe(s: FileCaches.State, p: Piece)
    requires p.cluster in s.disk && p.offset + |p.data| <= |s.disk[p.cluster]|
  {
    || s.bytes == 0 || FileCaches.Holds(s.blocks, p.cluster)
    || Splice(s.disk[p.cluster], p.offset, p.data) == s.disk[p.cluster]
  }

  /** Every piece is safe when its turn comes. */
  ghost predicate AllSafe(s: FileCaches.State, chain: Chain, clock: int, pieces: seq<Piece>)
    requires Fit(s, chain, clock) && PiecesFit(pieces, chain)
    decreases |pieces|
  {
    pieces == []
    || (Safe(s, pieces[0]) && AllSafe(PieceWritten(s, chain, clock, pieces[0]), chain, clock + 1, pieces[1..]))
  }

  lemma SafePiece(s: FileCaches.State, chain: Chain, clock: int, p: Piece)
    requires Sound(s, chain, clock) && p.cluster in chain && p.offset + |p.data| <= CLUSTER_BYTES
    ensures p.cluster in s.disk && |s.disk[p.cluster]| == CLUSTER_BYTES
    ensures var r := PieceWritten(s, chain, clock, p);
            && FileCaches.View(r) == FileCaches.Plain(FileCaches.View(s), FileCaches.Write(p.cluster, p.offset, p.data, 0))
            && (Sound(r, chain, clock + 1) <==> Safe(s, p))
  {
    WriteStaysFit(s, chain, clock, p.cluster, p.offset, p.data, clock + 1);
    FileCaches.WriteCoherentIff(s, p.cluster, p.offset, p.data, clock + 1);
  }

  /** The disk holds `old` in cluster `k`, and no block will ever write anything else there. */
  ghost predicate Stuck(s: FileCaches.State, k: nat, was: seq<byte>) {
    k in s.disk && s.disk[k] == was && forall i :: 0 <= i < |s.blocks| && s.blocks[i].cluster == k ==> !s.blocks[i].modified
  }

  lemma StaysStuck(s: FileCaches.State, chain: Chain, clock: int, p: Piece, k: nat, was: seq<byte>)
    requires Fit(s, chain, clock) && p.cluster in chain && p.offset + |p.data| <= CLUSTER_BYTES
    requires Stuck(s, k, was) && p.cluster != k
    ensures Stuck(PieceWritten(s, chain, clock, p), k, was)
  {
  }

  lemma {:induction false} StuckToTheEnd(s: FileCaches.State, chain: Chain, clock: int, pieces: seq<Piece>, k: nat, was: seq<byte>)
    requires Fit(s, chain, clock) && PiecesFit(pieces, chain) && Stuck(s, k, was)
    requires forall i :: 0 <= i < |pieces| ==> pieces[i].cluster != k
    ensures Stuck(WritesOf(s, chain, clock, pieces), k, was)
    decreases |pieces|
  {
    hide Stuck, Fit;
    if pieces != [] {
      StaysStuck(s, chain, clock, pieces[0], k, was);
      StuckToTheEnd(PieceWritten(s, chain, clock, pieces[0]), chain, clock + 1, pieces[1..], k, was);
    }
  }

  lemma {:induction false} PlainElsewhere(v: Data, pieces: seq<Piece>, k: nat)
    requires k in v && forall i :: 0 <= i < |pieces| ==> pieces[i].cluster != k
    ensures k in PlainWrites(v, pieces) && PlainWrites(v, pieces)[k] == v[k]
    decreases |pieces|
  {
    if pieces != [] {
      PlainElsewhere(FileCaches.Plain(v, FileCaches.Write(pieces[0].cluster, pieces[0].offset, pieces[0].data, 0)), pieces[1..], k);
    }
  }

  /** A piece that is not safe is lost: no coherent cache ever shows it again. */
  lemma UnsafePieceIsLost(s: FileCaches.State, chain: Chain, clock: int, pieces: seq<Piece>)
    requires Sound(s, chain, clock) && PiecesFit(pieces, chain) && pieces != []
    requires pieces[0].cluster in s.disk && !Safe(s, pieces[0])
    ensures var r := WritesOf(s, chain, clock, pieces);
            !(FileCaches.Coherent(r) && FileCaches.View(r) == PlainWrites(FileCaches.View(s), pieces))
  {
    var p, next := pieces[0], PieceWritten(s, chain, clock, pieces[0]);
    var k, was := p.cluster, s.disk[p.cluster];
    var v, r := FileCaches.View(s), WritesOf(s, chain, clock, pieces);
    WriteStaysFit(s, chain, clock, k, p.offset, p.data, clock + 1);
    MissIsStuck(s, chain, clock, p);
    StuckToTheEnd(next, chain, clock + 1, pieces[1..], k, was);
    var w := FileCaches.Plain(v, FileCaches.Write(k, p.offset, p.data, 0));
    assert w[k] == Splice(was, p.offset, p.data) != was;
    PlainElsewhere(w, pieces[1..], k);
    StuckIsSeen(r, k, was);
  }

  lemma MissIsStuck(s: FileCaches.State, chain: Chain, clock: int, p: Piece)
    requires Sound(s, chain, clock) && p.cluster in chain && p.offset + |p.data| <= CLUSTER_BYTES
    requires p.cluster in s.disk && !Safe(s, p)
    ensures Stuck(PieceWritten(s, chain, clock, p), p.cluster, s.disk[p.cluster])
    ensures FileCaches.View(s)[p.cluster] == s.disk[p.cluster] && |s.disk[p.cluster]| == CLUSTER_BYTES
  {
    CanAlwaysInsert(s, chain, clock, clock + 1);
    FileCaches.MissLeavesClean(s, p.cluster, Splice(s.disk[p.cluster], p.offset, p.data), clock + 1);
  }

  lemma StuckIsSeen(r: FileCaches.State, k: nat, was: seq<byte>)
    requires Stuck(r, k, was)
    ensures FileCaches.Coherent(r) ==> FileCaches.View(r)[k] == was
  {
  }

  /**
   * Whatever the cache holds at the start, a whole write leaves it coherent and showing exactly the data written if and
   * only if every piece was safe when its turn came.
   */
  lemma {:induction false} WholeWriteIff(s: FileCaches.State, chain: Chain, clock: int, pieces: seq<Piece>)
    requires Sound(s, chain, clock) && PiecesFit(pieces, chain)
    ensures var r := WritesOf(s, chain, clock, pieces);
            AllSafe(s, chain, clock, pieces)
            <==> Sound(r, chain, clock + |pieces|) && FileCaches.View(r) == PlainWrites(FileCaches.View(s), pieces)
    decreases |pieces|
  {
    hide Fit, FileCaches.Coherent, FileCaches.View, FileCaches.WriteOf, Safe, FileCaches.Plain;
    if pieces != [] {
      assert pieces[0].cluster in chain;
      SafePiece(s, chain, clock, pieces[0]);
      if Safe(s, pieces[0]) {
        WholeWriteIff(PieceWritten(s, chain, clock, pieces[0]), chain, clock + 1, pieces[1..]);
      } else {
        UnsafePieceIsLost(s, chain, clock, pieces);
      }
    }
  }

  /** If every cluster has a block from the start, every piece is safe. */
  lemma {:induction false} AllHeldIsSafe(s: FileCaches.State, chain: Chain, clock: int, pieces: seq<Piece>)
    requires Sound(s, chain, clock) && PiecesFit(pieces, chain)
    requires s.bytes == 0 || forall i :: 0 <= i < |pieces| ==> FileCaches.Holds(s.blocks, pieces[i].cluster)
    ensures AllSafe(s, chain, clock, pieces)
    decreases |pieces|
  {
    hide Fit, FileCaches.Coherent, FileCaches.View, FileCaches.WriteOf, FileCaches.Holds;
    if pieces != [] {
      var next := PieceWritten(s, chain, clock, pieces[0]);
      SafePiece(s, chain, clock, pieces[0]);
      if s.bytes != 0 {
        HitKeepsBlocks(s, chain, clock, pieces[0]);
      }
      AllHeldIsSafe(next, chain, clock + 1, pieces[1..]);
    }
  }

  lemma HitKeepsBlocks(s: FileCaches.State, chain: Chain, clock: int, p: Piece)
    requires Sound(s, chain, clock) && p.cluster in chain && p.offset + |p.data| <= CLUSTER_BYTES
    requires FileCaches.Holds(s.blocks, p.cluster)
    ensures forall j :: FileCaches.Holds(s.blocks, j) ==> FileCaches.Holds(PieceWritten(s, chain, clock, p).blocks, j)
  {
    var i := FileCaches.Find(s.blocks, p.cluster);
    var b := FileCaches.Block(p.cluster, Splice(s.blocks[i].data, p.offset, p.data), clock + 1, true);
    forall j: nat {
      FileCaches.FindUpdated(s.blocks, i, b, j);
    }
  }

  // ---------- the pieces of a file write ----------

  ghost predicate Distinct(chain: Chain) {
    forall a, b :: 0 <= a < b < |chain| ==> chain[a] != chain[b]
  }

  /** The write lies inside a file of `size` bytes with this chain. */
  ghost predicate Inside(chain: Chain, size: nat, offset: nat, n: nat) {
    |chain| == ClustersFor(size) && offset + n <= size
  }

  lemma PieceOk(offset: nat, n: nat, j: nat)
    requires j < ClusterCount(n)
    ensures 0 <= Done(offset, n, j) <= Done(offset, n, j + 1) <= n
    ensures var at := offset + Done(offset, n, j);
            && at / CLUSTER_BYTES == offset / CLUSTER_BYTES + j
            && at % CLUSTER_BYTES + (Done(offset, n, j + 1) - Done(offset, n, j)) <= CLUSTER_BYTES
  {
    PieceBounds(offset, n, j);
  }

  ghost function PieceAt(chain: Chain, size: nat, offset: nat, data: seq<byte>, j: nat): (p: Piece)
    requires Inside(chain, size, offset, |data|) && j < ClusterCount(|data|)
    ensures p.cluster in chain && p.offset + |p.data| <= CLUSTER_BYTES
  {
    RangeStaysInChain(offset, |data|, size);
    PieceOk(offset, |data|, j);
    Piece(chain[offset / CLUSTER_BYTES + j], (offset + Done(offset, |data|, j)) % CLUSTER_BYTES,
          data[Done(offset, |data|, j)..Done(offset, |data|, j + 1)])
  }

  ghost function PiecesOf(chain: Chain, size: nat, offset: nat, data: seq<byte>): (ps: seq<Piece>)
    requires Inside(chain, size, offset, |data|) && Distinct(chain)
    ensures |ps| == ClusterCount(|data|) && PiecesFit(ps, chain)
    ensures forall j :: 0 <= j < |ps| ==> ps[j] == PieceAt(chain, size, offset, data, j)
  {
    RangeStaysInChain(offset, |data|, size);
    seq(ClusterCount(|data|), j requires 0 <= j < ClusterCount(|data|) => PieceAt(chain, size, offset, data, j))
  }

  lemma PlainPiece(v: Data, chain: Chain, size: nat, offset: nat, data: seq<byte>, j: nat, before: seq<byte>)
    requires Inside(chain, size, offset, |data|) && Distinct(chain) && HasChain(v, chain) && j < ClusterCount(|data|)
    requires size <= CLUSTER_BYTES * |chain| && |before| == size && 0 <= Done(offset, |data|, j) <= |data|
    requires BytesOf(v, chain, size) == Splice(before, offset, data[..Done(offset, |data|, j)])
    ensures 0 <= Done(offset, |data|, j + 1) <= |data|
    ensures var p := PieceAt(chain, size, offset, data, j);
            var w := FileCaches.Plain(v, FileCaches.Write(p.cluster, p.offset, p.data, 0));
            HasChain(w, chain) && BytesOf(w, chain, size) == Splice(before, offset, data[..Done(offset, |data|, j + 1)])
  {
    hide Splice, BytesOf, Done;
    PieceOk(offset, |data|, j);
    RangeStaysInChain(offset, |data|, size);
    var done, more, i := Done(offset, |data|, j), Done(offset, |data|, j + 1), offset / CLUSTER_BYTES + j;
    var at := (offset + done) % CLUSTER_BYTES;
    assert CLUSTER_BYTES * i + at == offset + done;
    PieceInFile(v, chain, size, i, at, data[done..more]);
    SpliceOnward(before, offset, data, done, more);
  }

  lemma {:induction false} PlainBytesFrom(v: Data, chain: Chain, size: nat, offset: nat, data: seq<byte>, j: nat, before: seq<byte>)
    requires Inside(chain, size, offset, |data|) && Distinct(chain) && HasChain(v, chain) && j <= ClusterCount(|data|)
    requires size <= CLUSTER_BYTES * |chain| && |before| == size && 0 <= Done(offset, |data|, j) <= |data|
    requires BytesOf(v, chain, size) == Splice(before, offset, data[..Done(offset, |data|, j)])
    ensures 0 <= Done(offset, |data|, ClusterCount(|data|)) <= |data|
    ensures var w := PlainWrites(v, PiecesOf(chain, size, offset, data)[j..]);
            && HasChain(w, chain)
            && BytesOf(w, chain, size) == Splice(before, offset, data[..Done(offset, |data|, ClusterCount(|data|))])
    decreases ClusterCount(|data|) - j
  {
    hide Splice, BytesOf, Done, HasChain, FileCaches.Plain, Inside, Distinct;
    var ps := PiecesOf(chain, size, offset, data);
    if j < ClusterCount(|data|) {
      PlainPiece(v, chain, size, offset, data, j, before);
      assert ps[j..][0] == ps[j] && ps[j..][1..] == ps[j + 1..];
      var w := FileCaches.Plain(v, FileCaches.Write(ps[j].cluster, ps[j].offset, ps[j].data, 0));
      PlainBytesFrom(w, chain, size, offset, data, j + 1, before);
    }
  }

  /** All pieces together write the data, as much of it as the cluster count covers, at its offset. */
  lemma PlainWritesBytes(v: Data, chain: Chain, size: nat, offset: nat, data: seq<byte>)
    requires Inside(chain, size, offset, |data|) && Distinct(chain) && HasChain(v, chain)
    ensures size <= CLUSTER_BYTES * |chain| && Stored(offset, |data|) <= |data|
    ensures var w := PlainWrites(v, PiecesOf(chain, size, offset, data));
            && HasChain(w, chain)
            && BytesOf(w, chain, size) == Splice(BytesOf(v, chain, size), offset, data[..Stored(offset, |data|)])
  {
    ClustersForIsCeiling(size, 0);
    var before, ps := BytesOf(v, chain, size), PiecesOf(chain, size, offset, data);
    assert data[..0] == [] && Splice(before, offset, []) == before;
    assert ps[0..] == ps;
    PlainBytesFrom(v, chain, size, offset, data, 0, before);
    if data != [] {
      AllPiecesStored(offset, |data|);
    }
  }
}
