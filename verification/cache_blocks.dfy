/** The list of cache blocks of an open file, whose fields are overwritten in place. */
module CacheBlocks {
  import opened Bytes
  import opened Disks
  import opened FileCaches

  class CacheBlock {
    var cluster: nat
    var data: seq<byte>
    var stamp: int
    var modified: bool

    constructor (cluster: nat, data: seq<byte>, stamp: int)
      ensures Value() == Block(cluster, data, stamp, false)
    {
      this.cluster, this.data, this.stamp, modified := cluster, data, stamp, false;
    }

    ghost function Value(): Block
      reads this
    {
      Block(cluster, data, stamp, modified)
    }
  }

  /** A block that left the cache with changes the disk has not seen. */
  datatype Replaced = Nothing | Replaced(cluster: nat, data: seq<byte>)

  class FileCache {
    /** Configured size in bytes; 0 turns the cache off. */
    const bytes: nat
    var blocks: seq<CacheBlock>

    ghost predicate Valid()
      reads this
    {
      && (bytes == 0 ==> blocks == []) && |blocks| <= bytes / CLUSTER_BYTES
      && forall i, j :: 0 <= i < j < |blocks| ==> blocks[i] != blocks[j]
    }

    constructor (bytes: nat)
      ensures Valid() && this.bytes == bytes && blocks == []
    {
      this.bytes, blocks := bytes, [];
    }

    ghost function Blocks(): (r: seq<Block>)
      reads this, blocks
      ensures |r| == |blocks| && forall i :: 0 <= i < |r| ==> r[i] == blocks[i].Value()
    {
      seq(|blocks|, i requires 0 <= i < |blocks| reads this, blocks => blocks[i].Value())
    }

    /** The cache as a state over some disk contents. */
    ghost function Over(disk: Data): State
      reads this, blocks
    {
      State(bytes, Blocks(), disk)
    }

    /** Oldest block, or null when none is older than the clock. */
    method GetLru(now: int) returns (selected: CacheBlock?, ghost i: nat)
      requires Valid()
      ensures selected == null <==> Lru(Blocks(), now).None?
      ensures selected != null ==> i < |blocks| && Lru(Blocks(), now) == Some(i) && selected == blocks[i]
    {
      selected, i := null, 0;
      var lastDiff := 0;
      for n := 0 to |blocks|
        invariant lastDiff == (if selected == null then 0 else now - selected.stamp)
        invariant LruOf(Blocks(), n, now) == if selected == null then None else Some(i)
        invariant selected != null ==> i < n && selected == blocks[i]
      {
        if now - blocks[n].stamp > lastDiff {
          selected, i, lastDiff := blocks[n], n, now - blocks[n].stamp;
        }
      }
    }

    /** Walks the list to the block of a cluster. */
    method Search(k: nat) returns (n: nat)
      requires Valid()
      ensures n == Find(Blocks(), k)
    {
      n := 0;
      while n < |blocks| && blocks[n].cluster != k
        invariant n <= |blocks| && forall j :: 0 <= j < n ==> Blocks()[j].cluster != k
      {
        n := n + 1;
      }
      FindIs(Blocks(), k, n);
    }

    /** The block of a cluster, refreshed, or null. */
    method ReadBlock(k: nat, now: int) returns (block: CacheBlock?)
      requires Valid()
      modifies blocks
      ensures block == null <==> !Holds(old(Blocks()), k)
      ensures block == null ==> Blocks() == old(Blocks())
      ensures block != null ==>
                && block == blocks[Find(old(Blocks()), k)]
                && Blocks() == Touched(old(Over(map[])), k, now).blocks
    {
      var n := Search(k);
      if bytes == 0 || n == |blocks| {
        return null;
      }
      block := blocks[n];
      block.stamp := now;
    }

    /** Copies a piece into a block and marks it modified. */
    method Overwrite(block: CacheBlock, ghost i: nat, offset: nat, piece: seq<byte>)
      requires Valid() && i < |blocks| && block == blocks[i] && offset + |piece| <= |block.data|
      modifies block
      ensures Valid()
      ensures Blocks() == var b := old(Blocks()); b[i := b[i].(data := Splice(b[i].data, offset, piece), modified := true)]
    {
      block.data := Splice(block.data, offset, piece);
      block.modified := true;
    }

    /**
     * Stores a whole cluster: over its block, marked modified, if there is one; else in a new clean block, which
     * takes the place of the oldest one when the cache is full.
     */
    method WriteBlock(k: nat, data: seq<byte>, now: int) returns (replaced: Replaced)
      requires Valid() && (Holds(Blocks(), k) || CanInsert(Over(map[]), now))
      modifies this, blocks
      ensures Valid() && forall i :: 0 <= i < |blocks| ==> blocks[i] in old(blocks) || fresh(blocks[i])
      ensures Holds(old(Blocks()), k) ==>
                replaced == Nothing && Blocks() == old(Blocks())[Find(old(Blocks()), k) := Block(k, data, now, true)]
      ensures !Holds(old(Blocks()), k) ==>
                && Blocks() == Inserted(old(Over(map[])), k, data, now).blocks
                && replaced == Evicted(old(Over(map[])), now)
    {
      if bytes == 0 {
        return Nothing;
      }
      var n := Search(k);
      if n < |blocks| {
        var block := blocks[n];
        block.data, block.stamp, block.modified := data, now, true;
        replaced := Nothing;
      } else if |blocks| == bytes / CLUSTER_BYTES {
        replaced := ReplaceOldest(k, data, now);
      } else {
        replaced := AppendBlock(k, data, now);
      }
    }

    method ReplaceOldest(k: nat, data: seq<byte>, now: int) returns (replaced: Replaced)
      requires Valid() && Lru(Blocks(), now).Some?
      modifies blocks
      ensures var i := Lru(old(Blocks()), now).value;
              && Blocks() == old(Blocks())[i := Block(k, data, now, false)]
              && var out := old(Blocks())[i];
                 replaced == if out.modified then Replaced(out.cluster, out.data) else Nothing
    {
      var selected, _ := GetLru(now);
      replaced := if selected.modified then Replaced(selected.cluster, selected.data) else Nothing;
      selected.cluster, selected.data, selected.stamp, selected.modified := k, data, now, false;
    }

    /** Takes the first block off the list. */
    method TakeFirst() returns (block: CacheBlock)
      requires Valid() && blocks != []
      modifies this
      ensures Valid() && block == old(blocks)[0] && blocks == old(blocks)[1..]
    {
      block := blocks[0];
      blocks := blocks[1..];
    }

    method AppendBlock(k: nat, data: seq<byte>, now: int) returns (replaced: Replaced)
      requires Valid() && |blocks| < bytes / CLUSTER_BYTES
      modifies this
      ensures Valid() && replaced == Nothing && Blocks() == old(Blocks()) + [Block(k, data, now, false)]
      ensures forall i :: 0 <= i < |blocks| ==> blocks[i] in old(blocks) || fresh(blocks[i])
    {
      var block := new CacheBlock(k, data, now);
      blocks := blocks + [block];
      replaced := Nothing;
    }
  }

  /** The modified block an insertion puts out of the cache, if it puts one out. */
  ghost function Evicted(s: State, now: int): Replaced
    requires CanInsert(s, now)
  {
    if s.bytes == 0 || |s.blocks| < s.Capacity() then Nothing
    else
      var out := s.blocks[Lru(s.blocks, now).value];
      if out.modified then Replaced(out.cluster, out.data) else Nothing
  }
}
