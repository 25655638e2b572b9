/** The heap: sbrk hands out word-aligned blocks from a bump pointer, and the profiler carves its records out
    of slabs it gets from sbrk. */
module Heap {

  const SLAB := 1020

  datatype Block = Block(addr: nat, size: nat)

  predicate Apart(a: Block, b: Block) {
    a.addr + a.size <= b.addr || b.addr + b.size <= a.addr
  }

  predicate Inside(a: Block, b: Block) {
    b.addr <= a.addr && a.addr + a.size <= b.addr + b.size
  }

  predicate AllApart(bs: seq<Block>) {
    forall i, j :: 0 <= i < j < |bs| ==> Apart(bs[i], bs[j])
  }

  /** Whatever lies in blocks that are apart is apart. */
  lemma InsideApart(a: Block, b: Block, c: Block, d: Block)
    requires Inside(a, c) && Inside(b, d) && Apart(c, d)
    ensures Apart(a, b)
  {
  }

  class Allocator {
    const start: nat
    const limit: nat
    var heapEnd: int
    var slabPtr: int
    var slabSize: int

    ghost var blocks: seq<Block>   // what callers other than the profiler got from sbrk
    ghost var slabs: seq<Block>    // what the profiler got
    ghost var records: seq<Block>  // what it carved out
    ghost var home: seq<nat>       // the slab of each record
    ghost var starved: bool        // sbrk has failed the profiler

    /** All blocks handed out are aligned, within the heap and apart, and until sbrk first fails the profiler
        every record lies in one slab, apart from the others; what is left of the last slab is unused. */
    ghost predicate Valid()
      reads this
    {
      && start <= heapEnd && |home| == |records|
      && (forall i :: 0 <= i < |blocks| ==> Given(blocks[i]))
      && (forall i :: 0 <= i < |slabs| ==> Given(slabs[i]) && slabs[i].size == SLAB)
      && AllApart(blocks) && AllApart(slabs)
      && (forall i, j :: 0 <= i < |blocks| && 0 <= j < |slabs| ==> Apart(blocks[i], slabs[j]))
      && (!starved ==> Carved())
    }

    ghost predicate Given(b: Block)
      reads this
    {
      b.addr % 4 == 0 && start <= b.addr && b.addr + b.size <= heapEnd && b.addr + b.size <= limit
    }

    ghost predicate Carved()
      requires |home| == |records|
      reads this
    {
      && (forall i :: 0 <= i < |records| ==> home[i] < |slabs| && Inside(records[i], slabs[home[i]]))
      && AllApart(records)
      && 0 <= slabSize <= SLAB && (slabs == [] ==> slabSize == 0)
      && (slabs != [] ==>
            var last := slabs[|slabs| - 1];
            && slabPtr + slabSize == last.addr + SLAB && last.size == SLAB
            && forall i :: 0 <= i < |records| && home[i] == |slabs| - 1 ==>
                  records[i].addr + records[i].size <= slabPtr)
    }

    constructor (from: nat, to: nat)
      requires from <= to
      ensures Valid() && blocks == [] && slabs == [] && records == [] && !starved
    {
      start, limit, heapEnd := from, to, from;
      slabPtr, slabSize := 0, 0;
      blocks, slabs, records, home, starved := [], [], [], [], false;
    }

    /** The heap end rounded up to a word. */
    ghost function Aligned(): (a: int)
      reads this`heapEnd
      ensures a % 4 == 0 && heapEnd <= a < heapEnd + 4
    {
      (heapEnd + 3) / 4 * 4
    }

    /** Nothing handed out reaches beyond `end`. */
    ghost predicate AllBelow(end: int)
      reads this`blocks, this`slabs
    {
      && (forall i :: 0 <= i < |blocks| ==> blocks[i].addr + blocks[i].size <= end)
      && (forall i :: 0 <= i < |slabs| ==> slabs[i].addr + slabs[i].size <= end)
    }

    /** The allocation itself, for whichever caller: it fails exactly when the increment does not fit, and
        otherwise gives the aligned heap end, past everything handed out before. A negative increment moves
        the end down; the heap stays in order unless that uncovers something handed out. */
    method Sbrk(incr: int) returns (addr: int)
      requires Valid()
      modifies this`heapEnd
      ensures addr == (if old(Aligned()) + incr > limit then -1 else old(Aligned()))
      ensures heapEnd == old(Aligned()) + if addr == -1 then 0 else incr
      ensures addr != -1 ==> addr >= start && old(AllBelow(addr)) && addr % 4 == 0
      ensures Valid() <==> start <= heapEnd && AllBelow(heapEnd)
      ensures incr >= 0 ==> Valid() && (addr != -1 ==> Given(Block(addr, incr)))
    {
      heapEnd := (heapEnd + 3) / 4 * 4;
      if heapEnd + incr > limit { return -1; }
      addr := heapEnd;
      heapEnd := heapEnd + incr;
    }

    /** sbrk() called by the application. */
    method Allocate(incr: nat) returns (addr: int)
      requires Valid()
      modifies this`heapEnd, this`blocks
      ensures Valid()
      ensures addr < 0 <==> old(Aligned()) + incr > limit
      ensures blocks == if addr < 0 then old(blocks) else old(blocks) + [Block(addr, incr)]
    {
      addr := Sbrk(incr);
      if addr >= 0 {
        blocks := blocks + [Block(addr, incr)];
      }
    }

    /** A new slab, exactly if what is left of the last one is too small; sbrk fails the profiler exactly when that
        does not fit. */
    method EnsureSlab(size: nat)
      requires Valid() && 0 < size <= SLAB
      modifies this`heapEnd, this`slabs, this`slabPtr, this`slabSize, this`starved
      ensures Valid()
      ensures starved <==> old(starved) || (size > old(slabSize) && old(Aligned()) + SLAB > limit)
      ensures !starved ==> slabs != [] && size <= slabSize && slabPtr >= 0
      ensures size <= old(slabSize) ==>
                heapEnd == old(heapEnd) && slabs == old(slabs) && slabPtr == old(slabPtr) && slabSize == old(slabSize)
      ensures size > old(slabSize) ==> slabSize == SLAB
      ensures size > old(slabSize) && old(Aligned()) + SLAB <= limit ==>
                slabPtr == old(Aligned()) && slabs == old(slabs) + [Block(slabPtr, SLAB)]
      ensures size > old(slabSize) && old(Aligned()) + SLAB > limit ==> slabPtr == -1 && slabs == old(slabs)
    {
      if size > slabSize {
        slabPtr := Sbrk(SLAB);
        slabSize := SLAB;
        if slabPtr >= 0 {
          slabs := slabs + [Block(slabPtr, SLAB)];
        } else {
          starved := true;
        }
      }
    }

    /** mcount_allocate, which does not look at what sbrk answers. Records follow each other: while there is room
        in the slab, the next one starts where the last one ended. */
    method Carve(size: nat) returns (data: int)
      requires Valid() && 0 < size <= SLAB
      modifies this
      ensures Valid() && blocks == old(blocks)
      ensures starved <==> old(starved) || (size > old(slabSize) && old(Aligned()) + SLAB > limit)
      ensures !starved ==> data >= 0 && records == old(records) + [Block(data, size)]
      ensures size <= old(slabSize) ==> data == old(slabPtr) && slabs == old(slabs) && heapEnd == old(heapEnd)
      ensures size > old(slabSize) && old(Aligned()) + SLAB <= limit ==>
                data == old(Aligned()) && slabs == old(slabs) + [Block(data, SLAB)]
      ensures size > old(slabSize) && old(Aligned()) + SLAB > limit ==> data == -1 && slabs == old(slabs)
      ensures slabPtr == data + size
      ensures slabSize == (if size <= old(slabSize) then old(slabSize) else SLAB) - size
    {
      EnsureSlab(size);
      data := CutOff(size);
    }

    /** Cuts the record off the front of what is left of the last slab, or, once sbrk has failed, of whatever the
        pointer says. */
    method CutOff(size: nat) returns (data: int)
      requires Valid() && (!starved ==> slabs != [] && 0 < size <= slabSize && slabPtr >= 0)
      modifies this`slabPtr, this`slabSize, this`records, this`home
      ensures Valid() && data == old(slabPtr)
      ensures slabPtr == old(slabPtr) + size && slabSize == old(slabSize) - size
      ensures !starved ==> data >= 0 && records == old(records) + [Block(data, size)]
    {
      data := slabPtr;
      if !starved {
        ghost var rec := Block(slabPtr, size);
        NewRecordApart(rec);
        records, home := records + [rec], home + [|slabs| - 1];
      }
      slabPtr := slabPtr + size;
      slabSize := slabSize - size;
    }

    /** The front of what is left of the last slab is apart from every record. */
    lemma NewRecordApart(rec: Block)
      requires Valid() && !starved && slabs != [] && rec.addr == slabPtr && rec.size <= slabSize
      ensures Inside(rec, slabs[|slabs| - 1])
      ensures forall i :: 0 <= i < |records| ==> Apart(records[i], rec)
    {
      forall i | 0 <= i < |records|
        ensures Apart(records[i], rec)
      {
        if home[i] != |slabs| - 1 {
          InsideApart(records[i], rec, slabs[home[i]], slabs[|slabs| - 1]);
        }
      }
    }

    /** Until sbrk first fails the profiler, its records are apart from the application's blocks too. */
    lemma RecordsApartFromBlocks()
      requires Valid() && !starved
      ensures forall i, j :: 0 <= i < |blocks| && 0 <= j < |records| ==> Apart(blocks[i], records[j])
    {
      forall i, j | 0 <= i < |blocks| && 0 <= j < |records|
        ensures Apart(blocks[i], records[j])
      {
        assert Apart(blocks[i], slabs[home[j]]);
        InsideApart(blocks[i], records[j], blocks[i], slabs[home[j]]);
      }
    }
  }
}
