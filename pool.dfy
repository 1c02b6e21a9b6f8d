/** SimpleMemoryPool of capstone_project/order_book.cpp as an index arena.
    A slot is named by its index `block * BLOCK_SIZE + position`; the free list
    is a stack of released indices whose head is its first element. */
module Pool {
  import opened Records

  const BLOCK_SIZE: nat := 1024

  /** blockCount is blocks_.size(), currentBlock is current_block_index_,
      position is current_position_, freeList is the chain from free_list_head_. */
  datatype PoolState = PoolState(blockCount: nat, currentBlock: nat, position: nat, freeList: seq<nat>)

  function SlotIndex(block: nat, position: nat): nat
  {
    block * BLOCK_SIZE + position
  }

  /** How many fresh slots have been handed out: they are 0, 1, ..., Issued(s) - 1. */
  function Issued(s: PoolState): nat
  {
    SlotIndex(s.currentBlock, s.position)
  }

  ghost predicate NoDuplicates(xs: seq<nat>)
  {
    forall i, j :: 0 <= i < j < |xs| ==> xs[i] != xs[j]
  }

  ghost predicate PoolOk(s: PoolState)
  {
    && s.blockCount >= 1
    && s.currentBlock == s.blockCount - 1
    && s.position <= BLOCK_SIZE
    && (forall i :: 0 <= i < |s.freeList| ==> s.freeList[i] < Issued(s))
    && NoDuplicates(s.freeList)
  }

  /** A slot is outstanding when it has been handed out and not released since. */
  ghost predicate Outstanding(s: PoolState, h: nat)
  {
    h < Issued(s) && h !in s.freeList
  }

  /** The constructor allocates the first block. */
  function InitialPool(): (s: PoolState)
    ensures PoolOk(s) && Issued(s) == 0 && s.freeList == []
    ensures forall h :: !Outstanding(s, h)
  {
    PoolState(1, 0, 0, [])
  }

  /** allocate_new_block: one more block, which becomes current, at position 0. */
  function NewBlock(s: PoolState): (r: PoolState)
    ensures r.blockCount == s.blockCount + 1 && r.freeList == s.freeList
    ensures PoolOk(s) ==> PoolOk(r) && Issued(s) <= Issued(r)
    ensures PoolOk(s) && s.position == BLOCK_SIZE ==>
              Issued(r) == Issued(s) && forall h :: Outstanding(r, h) == Outstanding(s, h)
  {
    PoolState(s.blockCount + 1, s.blockCount, 0, s.freeList)
  }

  /** allocate(): the pool afterwards and the slot handed out. */
  function Allocated(s: PoolState): (r: (PoolState, nat))
    ensures s.freeList != [] ==> r == (s.(freeList := s.freeList[1..]), s.freeList[0])
    ensures PoolOk(s) && s.freeList == [] ==>
              r.1 == Issued(s) && Issued(r.0) == Issued(s) + 1 && r.0.freeList == []
    ensures PoolOk(s) && s.freeList == [] && s.position == BLOCK_SIZE ==>
              r.0.blockCount == s.blockCount + 1 && r.0.position == 1
    ensures PoolOk(s) && s.freeList == [] && s.position < BLOCK_SIZE ==>
              r.0.blockCount == s.blockCount && r.0.position == s.position + 1
  {
    if s.freeList != [] then
      (s.(freeList := s.freeList[1..]), s.freeList[0])
    else
      var t := if s.position >= BLOCK_SIZE then NewBlock(s) else s;
      (t.(position := t.position + 1), SlotIndex(t.currentBlock, t.position))
  }

  /** deallocate(p): a null pointer is ignored, any other slot is pushed on the free list. */
  function Released(s: PoolState, p: Ptr): (r: PoolState)
    ensures p.Null? ==> r == s
    ensures p.At? ==> r.freeList == [p.slot] + s.freeList
    ensures r.blockCount == s.blockCount && r.currentBlock == s.currentBlock && r.position == s.position
  {
    match p
    case Null => s
    case At(h) => s.(freeList := [h] + s.freeList)
  }

  /** allocate hands out a slot that was not outstanding, keeps every outstanding
      slot outstanding, and keeps the pool well formed. */
  lemma AllocateFresh(s: PoolState)
    requires PoolOk(s)
    ensures var (t, h) := Allocated(s);
            && PoolOk(t)
            && !Outstanding(s, h) && Outstanding(t, h)
            && forall k :: k != h ==> (Outstanding(t, k) <==> Outstanding(s, k))
  {
    var (t, h) := Allocated(s);
    if s.freeList != [] {
      assert h !in t.freeList by {
        forall i | 0 <= i < |t.freeList| ensures t.freeList[i] != h {
          assert t.freeList[i] == s.freeList[i + 1];
        }
      }
      forall k | k != h ensures Outstanding(t, k) <==> Outstanding(s, k) {
        assert s.freeList == [h] + t.freeList;
      }
    }
  }

  /** deallocate of an outstanding slot keeps the pool well formed; the slot is
      no longer outstanding and nothing else changes status. */
  lemma ReleaseKeeps(s: PoolState, h: nat)
    requires PoolOk(s) && Outstanding(s, h)
    ensures var t := Released(s, At(h));
            && PoolOk(t)
            && !Outstanding(t, h)
            && forall k :: k != h ==> (Outstanding(t, k) <==> Outstanding(s, k))
  {
    var t := Released(s, At(h));
    forall i, j | 0 <= i < j < |t.freeList| ensures t.freeList[i] != t.freeList[j] {
      if i == 0 {
        assert t.freeList[j] == s.freeList[j - 1];
      } else {
        assert t.freeList[i] == s.freeList[i - 1] && t.freeList[j] == s.freeList[j - 1];
      }
    }
  }

  /** LIFO: the slot released last is the next one allocated, and the pair of
      calls restores the pool. */
  lemma LastReleasedFirstReused(s: PoolState, h: nat)
    ensures Allocated(Released(s, At(h))) == (s, h)
  {
    var t := Released(s, At(h));
    assert t.freeList[1..] == s.freeList;
  }

  /** Fresh slots are issued in increasing order without gaps: from an empty free
      list, two allocations in a row yield consecutive indices, even across a
      block boundary. */
  lemma FreshSlotsConsecutive(s: PoolState)
    requires PoolOk(s) && s.freeList == []
    ensures var (t, h) := Allocated(s);
            var (_, h') := Allocated(t);
            h' == h + 1
  {
    var (t, h) := Allocated(s);
    AllocateFresh(s);
  }

  /** The pool as the source mutates it: fields for the block list length, the
      current block, the bump position and the free-list chain. */
  class SlotPool {
    var blockCount: nat
    var currentBlockIndex: nat
    var currentPosition: nat
    var freeList: seq<nat>

    ghost function State(): PoolState
      reads this
    {
      PoolState(blockCount, currentBlockIndex, currentPosition, freeList)
    }

    constructor ()
      ensures State() == InitialPool()
    {
      blockCount, currentBlockIndex, currentPosition, freeList := 0, 0, 0, [];
      new;
      AllocateNewBlock();
    }

    method Allocate() returns (h: nat)
      modifies this
      ensures (State(), h) == Allocated(old(State()))
    {
      var p := PopFreeList();
      if p.At? {
        return p.slot;
      }
      if currentPosition >= BLOCK_SIZE {
        AllocateNewBlock();
      }
      h := SlotIndex(currentBlockIndex, currentPosition);
      currentPosition := currentPosition + 1;
    }

    method Deallocate(p: Ptr)
      modifies this
      ensures State() == Released(old(State()), p)
    {
      if p.At? {
        PushFreeList(p.slot);
      }
    }

    method AllocateNewBlock()
      modifies this
      ensures State() == NewBlock(old(State()))
    {
      blockCount := blockCount + 1;
      currentBlockIndex := blockCount - 1;
      currentPosition := 0;
    }

    method PopFreeList() returns (p: Ptr)
      modifies this
      ensures old(freeList) == [] ==> p == Null && State() == old(State())
      ensures old(freeList) != [] ==>
                p == At(old(freeList)[0]) && State() == old(State()).(freeList := old(freeList)[1..])
    {
      if freeList != [] {
        p := At(freeList[0]);
        freeList := freeList[1..];
      } else {
        p := Null;
      }
    }

    method PushFreeList(h: nat)
      modifies this
      ensures State() == old(State()).(freeList := [h] + old(freeList))
    {
      freeList := [h] + freeList;
    }
  }
}
