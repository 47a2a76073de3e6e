/** The arena that formatting draws its memory from: a chain of blocks, the
    first of which is part of the arena itself. */
module Arena {
  import opened Bytes

  const BUFFER_SIZE: nat := 256
  const ALIGNMENT: nat := 16
  // three words: next, capacity, allocated
  const HEADER_SIZE: nat := 24

  class Block {
    const capacity: nat
    var next: Block?
    var used: nat

    constructor (capacity: nat)
      ensures this.capacity == capacity && next == null && used == 0
    {
      this.capacity := capacity;
      next, used := null, 0;
    }
  }

  /** A piece of a block, counted from the start of its header. */
  datatype Region = Region(block: Block, offset: nat, size: nat) {
    predicate Within()
      reads block`used
    {
      HEADER_SIZE <= offset && offset + size <= HEADER_SIZE + block.used
    }

    predicate Apart(r: Region) {
      block != r.block || offset + size <= r.offset || r.offset + r.size <= offset
    }
  }

  function AlignUp(n: nat): (m: nat)
    ensures n <= m < n + ALIGNMENT && m % ALIGNMENT == 0
  {
    n + ALIGNMENT - 1 - (n + ALIGNMENT - 1) % ALIGNMENT
  }

  /** The block after the i-th, if there is one. */
  function Follower(blocks: seq<Block>, i: nat): Block? {
    if i + 1 < |blocks| then blocks[i + 1] else null
  }

  /** The chain with b behind the i-th block. */
  function Inserted(blocks: seq<Block>, i: nat, b: Block): seq<Block>
    requires i < |blocks|
  {
    blocks[..i + 1] + [b] + blocks[i + 1..]
  }

  ghost predicate Chain(blocks: seq<Block>, first: Block)
    reads blocks`next
  {
    && blocks != [] && blocks[0] == first
    && (forall i, j :: 0 <= i < j < |blocks| ==> blocks[i] != blocks[j])
    && (forall i :: 0 <= i < |blocks| ==> blocks[i].next == Follower(blocks, i))
  }

  ghost predicate Filled(blocks: seq<Block>)
    reads blocks`used
  {
    forall b :: b in blocks ==> b.used <= b.capacity && b.used % ALIGNMENT == 0
  }

  /** What was handed out lies inside its block, at a multiple of eight. */
  ghost predicate Placed(blocks: seq<Block>, regions: seq<Region>)
    reads blocks`used
  {
    forall r :: r in regions ==> r.block in blocks && r.Within() && r.offset % 8 == 0 && r.size > 0
  }

  /** No two pieces overlap. */
  ghost predicate Disjoint(regions: seq<Region>) {
    forall i, j :: 0 <= i < j < |regions| ==> regions[i].Apart(regions[j])
  }

  lemma InsertedChain(before: seq<Block>, i: nat, b: Block, first: Block)
    requires i < |before| && b !in before && b.next == Follower(before, i) && before[i].next == b
    requires before[0] == first && forall j, k :: 0 <= j < k < |before| ==> before[j] != before[k]
    requires forall k :: 0 <= k < |before| && k != i ==> before[k].next == Follower(before, k)
    ensures Chain(Inserted(before, i, b), first)
  {
    var s := Inserted(before, i, b);
    forall k | 0 <= k < |s| ensures s[k].next == Follower(s, k) {
      if k <= i {
        assert s[k] == before[k];
      } else if k > i + 1 {
        assert s[k] == before[k - 1];
      }
    }
  }

  lemma InsertedHas(before: seq<Block>, i: nat, b: Block)
    requires i < |before|
    ensures forall x :: x in Inserted(before, i, b) <==> x in before || x == b
  {
    assert before == before[..i + 1] + before[i + 1..];
  }

  lemma InsertedRest(before: seq<Block>, i: nat, b: Block, regions: seq<Region>)
    requires i < |before| && Filled(before) && Placed(before, regions) && b.used == 0
    ensures var s := Inserted(before, i, b);
            && Filled(s) && Placed(s, regions) && forall x :: x in s <==> x in before || x == b
  {
    InsertedHas(before, i, b);
  }

  lemma NextIsApart(blocks: seq<Block>, regions: seq<Region>, r: Region)
    requires Placed(blocks, regions) && Disjoint(regions) && r.offset == HEADER_SIZE + r.block.used
    ensures Disjoint(regions + [r])
  {
    assert forall i :: 0 <= i < |regions| ==> regions[i] in regions && regions[i].Apart(r);
  }

  class QuickAlloc {
    const first: Block
    // the chain, from the first block on
    ghost var blocks: seq<Block>
    // everything handed out
    ghost var regions: seq<Region>

    ghost predicate Valid()
      reads this, blocks
    {
      Chain(blocks, first) && Filled(blocks) && Placed(blocks, regions) && Disjoint(regions)
    }

    constructor ()
      ensures Valid() && regions == [] && fresh(first) && blocks == [first]
    {
      first := new Block(BUFFER_SIZE - HEADER_SIZE);
      new;
      blocks, regions := [first], [];
    }

    /** Takes `size` bytes from a block of the chain, if it has them. */
    method Carve(h: Block, size: nat) returns (ok: bool, r: Region)
      requires Valid() && h in blocks && size % ALIGNMENT == 0 && size > 0
      modifies h`used, this`regions
      ensures Valid() && r.block == h && r.size == size
      ensures ok <==> old(h.used) + size <= h.capacity
      ensures regions == old(regions) + if ok then [r] else []
      ensures !ok ==> h.used == old(h.used)
    {
      hide Chain, Disjoint;
      r := Region(h, HEADER_SIZE + h.used, size);
      ok := h.used + size <= h.capacity;
      if ok {
        NextIsApart(blocks, regions, r);
        assert r.offset % 8 == 0;
        h.used := h.used + size;
        regions := regions + [r];
      }
    }

    /** Links a new block in behind h. */
    method Link(h: Block, ghost i: nat, capacity: nat) returns (b: Block)
      requires Valid() && i < |blocks| && blocks[i] == h
      modifies h`next, this`blocks
      ensures Valid() && fresh(b) && b in blocks && b.capacity == capacity && b.used == 0
      ensures regions == old(regions) && blocks == Inserted(old(blocks), i, b)
    {
      hide Filled, Placed, Disjoint, Inserted;
      ghost var before: seq<Block> := blocks;
      assert forall j, k :: 0 <= j < k < |before| ==> before[j] != before[k];
      assert forall k :: 0 <= k < |before| ==> before[k].next == Follower(before, k);
      assert forall k :: 0 <= k < |before| && k != i ==> before[k] != h;
      hide Chain;
      b := new Block(capacity);
      b.next := h.next;
      assert b.next == Follower(before, i);
      h.next := b;
      InsertedChain(before, i, b, first);
      InsertedRest(before, i, b, regions);
      blocks := Inserted(before, i, b);
    }

    lemma SecondInChain()
      requires Chain(blocks, first)
      ensures blocks != [] && blocks[0] == first && first.next == if |blocks| > 1 then blocks[1] else null
      ensures forall k :: 0 < k < |blocks| ==> blocks[k] != first
    {
      assert blocks[0].next == Follower(blocks, 0);
    }

    /** Whether a block has n bytes left. */
    predicate Room(b: Block, n: nat)
      reads b`used
    {
      b.used + n <= b.capacity
    }

    /** Hands out at least `size` bytes that nothing else holds, and fewer than
        sixteen more. They come from the first block, else from the second, else
        from a new one: a block of 256 bytes if they fit in, which becomes the
        second, or one they fill, which becomes the third unless there is no
        second. */
    method Alloc(size: nat) returns (r: Region)
      requires Valid()
      modifies this, blocks
      ensures Valid() && regions == old(regions) + [r]
      ensures r.size % 16 == 0 && size <= r.size < Max(size, 1) + 16
      ensures forall b :: b in old(blocks) && b != r.block ==> b.used == old(b.used)
      ensures forall k :: 0 <= k < |blocks| ==> blocks[k] in old(blocks) || fresh(blocks[k])
      ensures var n, second := r.size, |old(blocks)| > 1;
              if old(Room(first, n)) then r.block == first && blocks == old(blocks)
              else if second && old(Room(blocks[1], n)) then r.block == old(blocks[1]) && blocks == old(blocks)
              else
                && fresh(r.block) && r.block.capacity == (if n < 232 then 232 else n)
                && blocks == Inserted(old(blocks), if n >= 232 && second then 1 else 0, r.block)
    {
      hide Filled, Placed, Disjoint, Chain, Inserted;
      SecondInChain();
      var n := AlignUp(if size == 0 then 1 else size);
      var h := first;
      var ok;
      ok, r := Carve(h, n);
      if ok {
        return;
      }
      if h.next != null {
        h := h.next;
        ok, r := Carve(h, n);
        if ok {
          return;
        }
      }
      h := first;
      var bufsize := HEADER_SIZE + n;
      if bufsize < BUFFER_SIZE {
        bufsize := BUFFER_SIZE;
      } else if h.next != null {
        h := h.next;
      }
      ghost var at := if n >= 232 && |blocks| > 1 then 1 else 0;
      h := Link(h, at, bufsize - HEADER_SIZE);
      InsertedHas(old(blocks), at, h);
      ok, r := Carve(h, n);
    }

    /** Gives back every block but the first, each once. */
    method Release() returns (freed: seq<Block>)
      requires Valid()
      ensures freed == blocks[1..]
      ensures forall i, j :: 0 <= i < j < |freed| ==> freed[i] != freed[j]
      ensures first !in freed
    {
      freed := [];
      var next := first.next;
      while next != null
        invariant |freed| < |blocks| && freed == blocks[1..|freed| + 1]
        invariant next == Follower(blocks, |freed|)
        decreases |blocks| - |freed|
      {
        var p: Block := next;
        next := p.next;
        freed := freed + [p];
      }
    }
  }

  /** Any number of requests: each is met, and all that was handed out stays
      apart and in its place. */
  method AllocAll(a: QuickAlloc, sizes: seq<nat>)
    requires a.Valid() && a.regions == []
    modifies a, a.blocks
    ensures a.Valid() && |a.regions| == |sizes|
    ensures forall i :: 0 <= i < |sizes| ==> a.regions[i].size >= sizes[i]
  {
    hide QuickAlloc.Valid, Inserted;
    ghost var start := a.blocks;
    for i := 0 to |sizes|
      invariant a.Valid() && |a.regions| == i
      invariant forall j :: 0 <= j < i ==> a.regions[j].size >= sizes[j]
      invariant forall k :: 0 <= k < |a.blocks| ==> a.blocks[k] in start || fresh(a.blocks[k])
    {
      var _ := a.Alloc(sizes[i]);
    }
  }
}
