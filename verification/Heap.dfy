/** The heap break (sw/device/lib/runtime/syscalls.c:278-302). */
module Heap {
  /** `_brk` with an address, or `_sbrk` with an increment. */
  datatype Call = Brk(addr: int) | Sbrk(incr: int)

  /** What the calls return; a failed `_sbrk` returns `(void *)-1`, and one without a heap `NULL`. */
  datatype Answer = Done | Granted(block: int) | NoHeap | Failed

  datatype Layout = Layout(start: int, end: int)

  /** One call: its answer and the new break. `_sbrk` keeps the break below the end, `_brk` may reach it. */
  function Step(l: Layout, brk: int, call: Call): (Answer, int) {
    match call
    case Brk(addr) => if l.start <= addr <= l.end then (Done, addr) else (Failed, brk)
    case Sbrk(incr) =>
      if l.start == l.end then (NoHeap, brk)
      else if l.start <= brk + incr < l.end then (Granted(brk), brk + incr)
      else (Failed, brk)
  }

  class Break {
    const layout: Layout
    var brk: int

    constructor (layout: Layout)
      ensures this.layout == layout && brk == layout.start
    {
      this.layout, brk := layout, layout.start;
    }

    /** `_brk` */
    method SetBrk(addr: int) returns (r: int)
      modifies this
      ensures r == if layout.start <= addr <= layout.end then 0 else -1
      ensures brk == if r == 0 then addr else old(brk)
      ensures brk == Step(layout, old(brk), Brk(addr)).1
    {
      if addr >= layout.start && addr <= layout.end {
        brk := addr;
        r := 0;
      } else {
        r := -1;
      }
    }

    /** `_sbrk` */
    method MoveBrk(incr: int) returns (answer: Answer)
      modifies this
      ensures (answer, brk) == Step(layout, old(brk), Sbrk(incr))
      ensures answer == NoHeap <==> layout.start == layout.end
      ensures answer == Granted(old(brk)) <==>
        layout.start != layout.end && layout.start <= old(brk) + incr && old(brk) + incr < layout.end
      ensures brk == if answer.Granted? then old(brk) + incr else old(brk)
    {
      var old_brk := brk;
      if layout.start == layout.end { return NoHeap; }
      if brk + incr < layout.end && brk + incr >= layout.start {
        brk := brk + incr;
      } else {
        return Failed;
      }
      answer := Granted(old_brk);
    }
  }

  /** The break after a sequence of calls. */
  function BreakAfter(l: Layout, calls: seq<Call>): int {
    if calls == [] then l.start else Step(l, BreakAfter(l, calls[..|calls| - 1]), calls[|calls| - 1]).1
  }

  /** Over every sequence of calls the break stays inside the heap, and failed calls change nothing. */
  lemma {:induction false} BreakInHeap(l: Layout, calls: seq<Call>, call: Call)
    requires l.start <= l.end
    ensures l.start <= BreakAfter(l, calls) <= l.end
    ensures var (answer, brk) := Step(l, BreakAfter(l, calls), call);
      answer.Failed? || answer.NoHeap? ==> brk == BreakAfter(l, calls)
  {
    if calls != [] {
      BreakInHeap(l, calls[..|calls| - 1], call);
    }
  }

  /** A block `[from, from + size)`. */
  datatype Block = Block(from: int, size: int)

  /** The blocks granted by the `_sbrk` calls of a run, in order. */
  function Blocks(l: Layout, calls: seq<Call>): seq<Block> {
    if calls == [] then []
    else
      var init, call := calls[..|calls| - 1], calls[|calls| - 1];
      Blocks(l, init) + match Step(l, BreakAfter(l, init), call).0
        case Granted(block) => [Block(block, call.incr)]
        case _ => []
  }

  function TotalSize(blocks: seq<Block>): int {
    if blocks == [] then 0 else TotalSize(blocks[..|blocks| - 1]) + blocks[|blocks| - 1].size
  }

  predicate OnlyGrowth(calls: seq<Call>) {
    forall i :: 0 <= i < |calls| ==> calls[i].Sbrk? && 0 < calls[i].incr
  }

  /** Non-empty blocks in `[start, brk)`, in ascending order and disjoint, with nothing left over. */
  predicate Partition(blocks: seq<Block>, start: int, brk: int) {
    && TotalSize(blocks) == brk - start
    && (forall i :: 0 <= i < |blocks| ==>
          start <= blocks[i].from && 0 < blocks[i].size && blocks[i].from + blocks[i].size <= brk)
    && (forall i, j :: 0 <= i < j < |blocks| ==> blocks[i].from + blocks[i].size <= blocks[j].from)
  }

  lemma PartitionMore(blocks: seq<Block>, start: int, brk: int, size: int)
    requires Partition(blocks, start, brk) && start <= brk && 0 < size
    ensures Partition(blocks + [Block(brk, size)], start, brk + size)
  {
    var more := blocks + [Block(brk, size)];
    assert more[..|more| - 1] == blocks;
    assert forall i :: 0 <= i < |blocks| ==> more[i] == blocks[i];
  }

  /**
   With growing `_sbrk` calls only, the granted blocks lie in the heap below the break, one
   behind the other without gap or overlap, and their sizes add up to what was allocated.
   */
  lemma {:induction false} BlocksPartition(l: Layout, calls: seq<Call>)
    requires l.start <= l.end && OnlyGrowth(calls)
    ensures Partition(Blocks(l, calls), l.start, BreakAfter(l, calls))
    ensures l.start <= BreakAfter(l, calls) <= l.end
  {
    hide Partition;
    if calls == [] {
      NoBlocks(l.start);
    } else {
      var init, call := calls[..|calls| - 1], calls[|calls| - 1];
      BlocksPartition(l, init);
      PartitionMore(Blocks(l, init), l.start, BreakAfter(l, init), call.incr);
      assert Blocks(l, init) + [] == Blocks(l, init);
    }
  }

  lemma NoBlocks(start: int)
    ensures Partition([], start, start)
  {}
}
