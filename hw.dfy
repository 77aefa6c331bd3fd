/**
 * The hardware and allocator state the memory managers act on, reduced to
 * abstract identifiers: page-table entries named by (page table, virtual
 * page), their (ppn, flags) contents, the frame allocator's free set and
 * the contents of physical frames.
 *
 * `frame_alloc`, `PageTable` and `PageTableEntry` are not part of this
 * model; their behaviour here is what the managers rely on: an allocated
 * frame comes from the free set and is zeroed, a dropped frame returns to
 * it, `invalidate` clears the V bit and `revive_writability` sets W.
 */
module Hw {
  const PAGE_SIZE: nat := 4096

  type Ppn = nat

  /** A byte offset on a page boundary. */
  predicate PageAligned(x: nat)
  {
    x % PAGE_SIZE == 0
  }

  /** A page-table entry, identified by its page table and virtual page number. */
  datatype Pte = Pte(table: nat, vpn: nat)

  /** PTE flag bits (V R W X U), as in the RISC-V Sv39 format. */
  const FLAG_V: bv8 := 1
  const FLAG_R: bv8 := 2
  const FLAG_W: bv8 := 4
  const FLAG_X: bv8 := 8
  const FLAG_U: bv8 := 16

  /** `PageTableEntry::new(ppn, flags)`. */
  datatype Entry = Entry(ppn: Ppn, flags: bv8)

  /** `invalidate()` applied to an entry: V cleared, the rest kept. */
  function Invalidated(e: Entry): (r: Entry)
    ensures r.ppn == e.ppn && r.flags & FLAG_V == 0
    ensures r.flags & !FLAG_V == e.flags & !FLAG_V
  {
    Entry(e.ppn, e.flags & !FLAG_V)
  }

  /** Writing an entry twice keeps the second write. */
  lemma UpdateTwice(m: map<Pte, Entry>, p: Pte, a: Entry, b: Entry)
    ensures m[p := a][p := b] == m[p := b]
  {
  }

  type Bytes = seq<bv8>

  /** Copying frame `f` into a frame `g` just cleared leaves `g` holding what `f` holds. */
  lemma CopyOverCleared(mem: map<Ppn, Bytes>, g: Ppn, f: Ppn, z: Bytes)
    requires g != f && f in mem
    ensures mem[g := z][g := mem[g := z][f]] == mem[g := mem[f]]
  {
  }

  /** A freshly allocated (cleared) frame. */
  function ZeroPage(): (z: Bytes)
    ensures |z| == PAGE_SIZE && forall i :: 0 <= i < |z| ==> z[i] == 0
  {
    seq(PAGE_SIZE, _ => 0)
  }

  class Machine {
    var ptes: map<Pte, Entry>
    var free: set<Ppn>
    var mem: map<Ppn, Bytes>

    constructor (free: set<Ppn>)
      ensures ptes == map[] && this.free == free && mem == map[]
    {
      ptes := map[];
      this.free := free;
      mem := map[];
    }

    /** `present()`: the entry exists and has V set. */
    predicate Present(p: Pte)
      reads this
    {
      p in ptes && ptes[p].flags & FLAG_V != 0
    }

    /** `frame_alloc().unwrap()`: a cleared frame taken from the free set (none left panics). */
    method FrameAlloc() returns (f: Ppn)
      requires free != {}
      modifies this
      ensures f in old(free) && free == old(free) - {f}
      ensures mem == old(mem)[f := ZeroPage()] && ptes == old(ptes)
    {
      f :| f in free;
      free := free - {f};
      mem := mem[f := ZeroPage()];
    }

    /** Dropping a `FrameTracker`: the frame is free again (a double free panics). */
    method FrameDealloc(f: Ppn)
      requires f !in free
      modifies this
      ensures free == old(free) + {f} && mem == old(mem) && ptes == old(ptes)
    {
      free := free + {f};
    }

    /** `*pte = PageTableEntry::new(ppn, flags)`. */
    method SetPte(p: Pte, e: Entry)
      modifies this
      ensures ptes == old(ptes)[p := e] && free == old(free) && mem == old(mem)
    {
      ptes := ptes[p := e];
    }

    /** `invalidate()`: clear V, keep the rest. */
    method Invalidate(p: Pte)
      requires p in ptes
      modifies this
      ensures ptes == old(ptes)[p := Invalidated(old(ptes[p]))]
      ensures !Present(p) && free == old(free) && mem == old(mem)
    {
      ptes := ptes[p := Invalidated(ptes[p])];
    }

    /** Copy the bytes of frame `src` into frame `dst`. */
    method CopyFrame(dst: Ppn, src: Ppn)
      requires src in mem
      modifies this
      ensures mem == old(mem)[dst := old(mem[src])] && free == old(free) && ptes == old(ptes)
    {
      mem := mem[dst := mem[src]];
    }

    /** `create_force(vpn)`: the entry exists afterwards; a new one is all zero. */
    method CreateForce(p: Pte)
      modifies this
      ensures ptes == old(ptes)[p := if p in old(ptes) then old(ptes)[p] else Entry(0, 0)]
      ensures free == old(free) && mem == old(mem)
    {
      if p !in ptes {
        ptes := ptes[p := Entry(0, 0)];
      } else {
        assert ptes == ptes[p := ptes[p]];
      }
    }
  }
}
