/** The x86_64 address-space layout of the SEV shim and an abstraction of the
    two collaborators its loader drives: the boot-info frame allocator and the
    page-table mapper (`OffsetPageTable::map_to`). */
module Arch {
  import opened Wrappers

  // Layout constants of the shim (arch/x86_64/mod.rs).
  const PAGE_SIZE: nat := 4096
  const PHYSICAL_MEMORY_OFFSET: nat := 0x800_0000_0000
  const NEXT_MMAP_START: nat := 0x5555_0000_0000
  const USER_STACK_OFFSET: nat := 0x7eff_0000_0000
  const USER_APP_OFFSET: nat := 0x7e77_0000_0000
  const USER_STACK_SIZE: nat := 8 * 1024 * 1024

  /** `PT_LOAD`: the program-header type of a loadable segment. */
  const PT_LOAD: nat := 1

  /** Number of entries of one page table: a level-1 table maps 512 pages. */
  const TABLE_ENTRIES: nat := 512

  const TWO_TO_64: nat := 0x1_0000_0000_0000_0000

  type u64 = x: int | 0 <= x < 0x1_0000_0000_0000_0000
  type byte = x: int | 0 <= x < 256

  /** Machine pointer arithmetic: an address reduced to 64 bits. */
  function Wrap64(x: int): (r: u64)
    ensures (r - x) % TWO_TO_64 == 0
  {
    x % TWO_TO_64
  }

  /** `Page::containing_address`: the number of the 4 KiB page holding `addr`. */
  function PageOf(addr: int): int
  {
    addr / PAGE_SIZE
  }

  /** The level-1 table that holds the entry of `page`. */
  function TableOf(page: int): int
  {
    page / TABLE_ENTRIES
  }

  /** `PageTableFlags` bits the shim uses. */
  datatype Flag = Present | Writable | UserAccessible | NoExecute

  /** A level-1 page-table entry: the physical frame number and the flags. */
  datatype Entry = Entry(frame: nat, flags: set<Flag>)

  /** The `MapToError`s `map_to` can report in this model. */
  datatype MapError = FrameAllocationFailed | PageAlreadyMapped

  ghost predicate Distinct(s: seq<nat>)
  {
    forall i, j :: 0 <= i < j < |s| ==> s[i] != s[j]
  }

  /** `BootInfoFrameAllocator`: hands out, in order, the usable frames of the
      boot memory map; `next` counts the frames already handed out. */
  class FrameAllocator {
    const usable: seq<nat>
    var next: nat

    ghost predicate Valid()
      reads this
    {
      next <= |usable| && Distinct(usable)
    }

    /** The frames handed out so far. */
    function Issued(): seq<nat>
      reads this
      requires Valid()
    {
      usable[..next]
    }

    constructor (usable: seq<nat>)
      requires Distinct(usable)
      ensures Valid() && this.usable == usable && Issued() == []
    {
      this.usable := usable;
      next := 0;
    }

    /** `allocate_frame`: the next usable frame, or `None` once memory is
        exhausted. A frame is never handed out twice. */
    method AllocateFrame() returns (f: Option<nat>)
      requires Valid()
      modifies this
      ensures Valid()
      ensures old(next) < |usable| ==> f == Some(usable[old(next)]) && next == old(next) + 1
      ensures old(next) == |usable| ==> f == None && next == old(next)
      ensures f.Some? ==> f.value !in old(Issued()) && Issued() == old(Issued()) + [f.value]
    {
      if next < |usable| {
        f := Some(usable[next]);
        next := next + 1;
      } else {
        f := None;
      }
    }
  }

  /** `OffsetPageTable`, seen through its level-1 entries: `table` maps a
      virtual page number to its entry, `tables` holds the level-1 tables that
      exist (by `TableOf`). */
  class Mapper {
    var table: map<int, Entry>
    var tables: set<int>

    ghost predicate Valid()
      reads this
    {
      forall p :: p in table ==> TableOf(p) in tables
    }

    constructor ()
      ensures Valid() && table == map[] && tables == {}
    {
      table := map[];
      tables := {};
    }

    /** `map_to(page, frame, flags, allocator)`: first creates the missing
        level-1 table with a frame from `alloc` (failing with
        `FrameAllocationFailed` when there is none), then fails with
        `PageAlreadyMapped` when the page already has an entry, and otherwise
        installs the entry. */
    method MapTo(page: int, frame: nat, flags: set<Flag>, alloc: FrameAllocator) returns (r: Outcome<MapError>)
      requires Valid() && alloc.Valid()
      modifies this, alloc
      ensures Valid() && alloc.Valid()
      ensures TableOf(page) in old(tables) ==> alloc.next == old(alloc.next) && tables == old(tables)
      ensures TableOf(page) !in old(tables) && old(alloc.next) == |alloc.usable| ==>
                r == Fail(FrameAllocationFailed) && table == old(table) && tables == old(tables)
                && alloc.next == old(alloc.next)
      ensures TableOf(page) !in old(tables) && old(alloc.next) < |alloc.usable| ==>
                tables == old(tables) + {TableOf(page)} && alloc.next == old(alloc.next) + 1
      ensures r.Pass? <==> page !in old(table) && (TableOf(page) in old(tables) || old(alloc.next) < |alloc.usable|)
      ensures r.Pass? ==> table == old(table)[page := Entry(frame, flags)]
      ensures r.Fail? ==> table == old(table)
      ensures r == Fail(PageAlreadyMapped) <==> page in old(table)
    {
      if TableOf(page) !in tables {
        var f := alloc.AllocateFrame();
        if f.None? {
          return Fail(FrameAllocationFailed);
        }
        tables := tables + {TableOf(page)};
      }
      if page in table {
        return Fail(PageAlreadyMapped);
      }
      table := table[page := Entry(frame, flags)];
      r := Pass;
    }
  }
}
