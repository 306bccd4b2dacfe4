/** `exec_elf`: builds the payload's randomized address space and process
    stack, then either enters user mode at the payload's entry point or, for a
    null entry, exits the hypervisor.

    RDRAND, CPUID and the stack pointer reported by the process-stack builder
    are inputs; the ELF header and program headers the shim reads back from
    the loaded image are an `ElfView`. */
module Exec {
  import opened Wrappers
  import opened Arch

  const ELF64_HDR_SIZE: nat := 64
  const ELF64_PHDR_SIZE: nat := 56

  // The words used in a debug build when the CPU has no RDRAND.
  const FALLBACK_R1: u64 := 0xAFFE_AFFE_AFFE_AFFE
  const FALLBACK_R2: u64 := 0xC0FF_EEC0_FFEE_C0FF
  const FALLBACK_R3: u64 := 0xFCFC_0000

  /** The fields of a program header (`goblin` layout) that `exec_elf` reads. */
  datatype Phdr = Phdr(p_type: nat, p_flags: nat, p_vaddr: u64, p_memsz: u64)

  /** The ELF header's entry point and the program-header table, read back
      from the loaded image. */
  datatype ElfView = ElfView(e_entry: u64, phdrs: seq<Phdr>)

  /** Why `exec_elf` panics. */
  datatype Panic = NoRdRand | RdRandFailed | MapFailed(error: MapError)

  /* ---------------------------------------------------------------------
     Random words and the quantities derived from them
     --------------------------------------------------------------------- */

  /** Three draws of RDRAND (`None` when the CPU has none; a draw is `None`
      when `get_u64` fails), or the fixed debug words. */
  function RandomWords(rdrand: Option<(Option<u64>, Option<u64>, Option<u64>)>, debug: bool): Result<(u64, u64, u64), Panic>
  {
    match rdrand
    case None => if debug then Ok((FALLBACK_R1, FALLBACK_R2, FALLBACK_R3)) else Err(NoRdRand)
    case Some((a, b, c)) =>
      if a.Some? && b.Some? && c.Some? then Ok((a.value, b.value, c.value)) else Err(RdRandFailed)
  }

  /** Without RDRAND a debug build uses fixed words and a release build
      panics; with RDRAND the three draws are used in order. */
  lemma RandomWordsCases(rdrand: Option<(Option<u64>, Option<u64>, Option<u64>)>, debug: bool)
    ensures rdrand.None? && debug ==>
              RandomWords(rdrand, debug) == Ok((0xAFFE_AFFE_AFFE_AFFE, 0xC0FF_EEC0_FFEE_C0FF, 0xFCFC_0000))
    ensures rdrand.None? && !debug ==> RandomWords(rdrand, debug) == Err(NoRdRand)
    ensures rdrand.Some? ==>
              (RandomWords(rdrand, debug).Ok? <==> rdrand.value.0.Some? && rdrand.value.1.Some? && rdrand.value.2.Some?)
    ensures rdrand.Some? && RandomWords(rdrand, debug).Ok? ==>
              RandomWords(rdrand, debug).value == (rdrand.value.0.value, rdrand.value.1.value, rdrand.value.2.value)
  {
  }

  /** `USER_STACK_OFFSET + ((r3 & 0xFFFFF) << 12)`: the low 20 bits of `r3`
      choose one of 2^20 page-aligned stack bases in a 4 GiB window. */
  function StackStart(r3: u64): (s: nat)
    ensures s % PAGE_SIZE == 0
    ensures USER_STACK_OFFSET <= s < USER_STACK_OFFSET + 0x1_0000_0000
  {
    USER_STACK_OFFSET + (r3 % 0x10_0000) * 0x1000
  }

  /** `((r3 & 0xFFFFF0_0000) >> 8) + USER_APP_OFFSET`: bits 20 to 39 of `r3`
      choose one of 2^20 page-aligned load offsets in a 4 GiB window. */
  function RandomOffset(r3: u64): (o: nat)
    ensures o % PAGE_SIZE == 0
    ensures USER_APP_OFFSET <= o < USER_APP_OFFSET + 0x1_0000_0000
  {
    (r3 / 0x10_0000 % 0x10_0000) * 0x1000 + USER_APP_OFFSET
  }

  /** `(r3 & 0xFFF_FF00_0000_0000) >> 20`: what `NEXT_MMAP` is advanced by,
      a multiple of 1 MiB below 2^40. */
  function MmapShift(r3: u64): (d: nat)
    ensures d % 0x10_0000 == 0 && d < 0x100_0000_0000
  {
    (r3 / 0x100_0000_0000 % 0x10_0000) * 0x10_0000
  }

  /** The 4 GiB window of load offsets lies wholly below the stack window,
      whatever the random word. */
  lemma WindowsSeparate(r3: u64)
    ensures RandomOffset(r3) + 0x1_0000_0000 <= USER_STACK_OFFSET <= StackStart(r3)
  {
  }

  /** The page holding `stack_start + USER_STACK_SIZE - 256`. */
  function StackLastPage(s: nat): int
  {
    PageOf(s + USER_STACK_SIZE - 256)
  }

  /** For every random word the stack occupies exactly 2048 pages (8 MiB)
      starting at the page of the stack base. */
  lemma StackPageCount(r3: u64)
    ensures StackLastPage(StackStart(r3)) - PageOf(StackStart(r3)) + 1 == USER_STACK_SIZE / PAGE_SIZE
  {
    var s := StackStart(r3);
    var q := s / PAGE_SIZE;
    assert s == q * PAGE_SIZE;
    assert s + USER_STACK_SIZE - 256 == (q + 2047) * PAGE_SIZE + 3840;
  }

  /* ---------------------------------------------------------------------
     Page-table flags of a segment
     --------------------------------------------------------------------- */

  /** `p_flags & PF_X != 0` */
  predicate Executable(p_flags: nat)
  {
    p_flags % 2 == 1
  }

  /** `p_flags & PF_W != 0` */
  predicate WritableSegment(p_flags: nat)
  {
    p_flags / 2 % 2 == 1
  }

  /** The flags a `LOAD` segment's pages get: always present and
      user-accessible, writable when the segment is, and no-execute when the
      segment is not executable. */
  function SegmentFlags(p_flags: nat): (f: set<Flag>)
    ensures f <= {Present, UserAccessible, Writable, NoExecute}
    ensures Present in f && UserAccessible in f
    ensures Writable in f <==> WritableSegment(p_flags)
    ensures NoExecute in f <==> !Executable(p_flags)
  {
    var base := {Present, UserAccessible};
    var rw := if WritableSegment(p_flags) then base + {Writable} else base;
    if Executable(p_flags) then rw else rw + {NoExecute}
  }

  /** A segment marked both writable and executable is mapped writable AND
      executable: nothing resolves the conflict. */
  lemma WritableExecutableKeepsBoth(p_flags: nat)
    requires WritableSegment(p_flags) && Executable(p_flags)
    ensures Writable in SegmentFlags(p_flags) && NoExecute !in SegmentFlags(p_flags)
  {
  }

  /* ---------------------------------------------------------------------
     The segment mappings `exec_elf` asks for, and their effect
     --------------------------------------------------------------------- */

  /** One `map_to` call: a virtual page and the entry it should get. */
  datatype Request = Request(page: int, entry: Entry)

  /** The first and last page of a segment: from `p_vaddr + load` to
      `p_vaddr + load + p_memsz - 1`. */
  function FirstPage(h: Phdr, load: nat): nat
  {
    PageOf(h.p_vaddr + load)
  }

  function LastPage(h: Phdr, load: nat): int
  {
    PageOf(h.p_vaddr + load + h.p_memsz - 1)
  }

  /** The request for page `page` of a segment: shifted by the random offset,
      mapped to the frame of the same number, with the segment's flags. */
  function PageRequest(h: Phdr, page: nat, ro: nat): Request
  {
    Request(page + ro / PAGE_SIZE, Entry(page, SegmentFlags(h.p_flags)))
  }

  /** The requests for one program header, in page order; none unless it is
      a `PT_LOAD` header. */
  function HeaderRequests(h: Phdr, load: nat, ro: nat): (rs: seq<Request>)
    ensures h.p_type != PT_LOAD ==> rs == []
    ensures h.p_type == PT_LOAD ==> |rs| == if LastPage(h, load) < FirstPage(h, load) then 0
                                            else LastPage(h, load) - FirstPage(h, load) + 1
    ensures forall k :: 0 <= k < |rs| ==> rs[k] == PageRequest(h, FirstPage(h, load) + k, ro)
  {
    if h.p_type != PT_LOAD || LastPage(h, load) < FirstPage(h, load) then []
    else
      seq(LastPage(h, load) - FirstPage(h, load) + 1, k requires k >= 0 => PageRequest(h, FirstPage(h, load) + k, ro))
  }

  /** A header asks for virtual page `v` with entry `e` exactly when it is
      a `PT_LOAD` header, `v` lies (after taking off the random offset) in the
      segment's page range, and `e` maps the same-numbered frame with the
      segment's flags. */
  lemma HeaderRequestsMembership(h: Phdr, load: nat, ro: nat, v: int, e: Entry)
    ensures Request(v, e) in HeaderRequests(h, load, ro) <==>
              && h.p_type == PT_LOAD
              && FirstPage(h, load) <= v - ro / PAGE_SIZE <= LastPage(h, load)
              && e == Entry(v - ro / PAGE_SIZE, SegmentFlags(h.p_flags))
  {
    var rs := HeaderRequests(h, load, ro);
    var page := v - ro / PAGE_SIZE;
    if h.p_type == PT_LOAD && FirstPage(h, load) <= page <= LastPage(h, load)
       && e == Entry(page, SegmentFlags(h.p_flags)) {
      assert rs[page - FirstPage(h, load)] == Request(v, e);
    }
  }

  /** The requests for a whole program-header table, header by header. */
  function SegmentRequests(hs: seq<Phdr>, load: nat, ro: nat): seq<Request>
    decreases |hs|
  {
    if hs == [] then []
    else SegmentRequests(hs[..|hs| - 1], load, ro) + HeaderRequests(hs[|hs| - 1], load, ro)
  }

  /** One `map_to` whose `PageAlreadyMapped` error is ignored: a page that
      is already mapped keeps its entry. */
  function Install(t: map<int, Entry>, r: Request): map<int, Entry>
  {
    if r.page in t then t else t[r.page := r.entry]
  }

  /** The table after the requests in order, each tolerating an existing
      mapping. */
  function FirstWins(t: map<int, Entry>, rs: seq<Request>): map<int, Entry>
    decreases |rs|
  {
    if rs == [] then t else Install(FirstWins(t, rs[..|rs| - 1]), rs[|rs| - 1])
  }

  /** The mapped pages are those mapped before plus every requested page;
      no existing mapping is changed. */
  lemma {:induction false} FirstWinsDomain(t: map<int, Entry>, rs: seq<Request>)
    ensures FirstWins(t, rs).Keys == t.Keys + set k | 0 <= k < |rs| :: rs[k].page
    ensures forall p :: p in t ==> FirstWins(t, rs)[p] == t[p]
    decreases |rs|
  {
    if rs != [] {
      var n := |rs| - 1;
      FirstWinsDomain(t, rs[..n]);
      assert (set k | 0 <= k < |rs| :: rs[k].page)
          == (set k | 0 <= k < n :: rs[..n][k].page) + {rs[n].page} by {
        forall k | 0 <= k < n
          ensures rs[..n][k] == rs[k]
        {
        }
      }
    }
  }

  /** A page that was not mapped and whose requests all agree gets the entry
      they ask for. */
  lemma {:induction false} FirstWinsAgreeing(t: map<int, Entry>, rs: seq<Request>, r: Request)
    requires r.page !in t && r in rs
    requires forall k :: 0 <= k < |rs| && rs[k].page == r.page ==> rs[k] == r
    ensures r.page in FirstWins(t, rs) && FirstWins(t, rs)[r.page] == r.entry
    decreases |rs|
  {
    var n := |rs| - 1;
    var prefix := rs[..n];
    if r in prefix {
      FirstWinsAgreeing(t, prefix, r);
    } else {
      assert rs[n] == r;
      FirstWinsDomain(t, prefix);
      assert r.page !in set k | 0 <= k < n :: prefix[k].page;
    }
  }

  /** A request of header `i` is among the requests of the whole table. */
  lemma {:induction false} HeaderRequestIncluded(hs: seq<Phdr>, load: nat, ro: nat, i: nat, r: Request)
    requires i < |hs| && r in HeaderRequests(hs[i], load, ro)
    ensures r in SegmentRequests(hs, load, ro)
    decreases |hs|
  {
    if i < |hs| - 1 {
      assert hs[..|hs| - 1][i] == hs[i];
      HeaderRequestIncluded(hs[..|hs| - 1], load, ro, i, r);
    }
  }

  /** Every request of the table comes from one of its headers. */
  lemma {:induction false} RequestOrigin(hs: seq<Phdr>, load: nat, ro: nat, r: Request) returns (i: nat)
    requires r in SegmentRequests(hs, load, ro)
    ensures i < |hs| && r in HeaderRequests(hs[i], load, ro)
    decreases |hs|
  {
    var n := |hs| - 1;
    if r in HeaderRequests(hs[n], load, ro) {
      i := n;
    } else {
      i := RequestOrigin(hs[..n], load, ro, r);
      assert hs[..n][i] == hs[i];
    }
  }

  /** Every page of every `PT_LOAD` segment ends up mapped at its page plus
      the random offset. When it was unmapped before and no other `PT_LOAD`
      segment covers it, it maps to the frame of the same number with the
      flags that segment's `p_flags` give. */
  lemma SegmentPageMapped(t: map<int, Entry>, hs: seq<Phdr>, load: nat, ro: nat, i: nat, page: nat)
    requires i < |hs| && hs[i].p_type == PT_LOAD
    requires FirstPage(hs[i], load) <= page <= LastPage(hs[i], load)
    ensures page + ro / PAGE_SIZE in FirstWins(t, SegmentRequests(hs, load, ro))
    ensures page + ro / PAGE_SIZE !in t
            && (forall j :: 0 <= j < |hs| && j != i && hs[j].p_type == PT_LOAD ==>
                  !(FirstPage(hs[j], load) <= page <= LastPage(hs[j], load)))
            ==> FirstWins(t, SegmentRequests(hs, load, ro))[page + ro / PAGE_SIZE]
                == Entry(page, SegmentFlags(hs[i].p_flags))
  {
    var rs := SegmentRequests(hs, load, ro);
    var r := PageRequest(hs[i], page, ro);
    var hr := HeaderRequests(hs[i], load, ro);
    assert hr[page - FirstPage(hs[i], load)] == r;
    HeaderRequestIncluded(hs, load, ro, i, r);
    FirstWinsDomain(t, rs);
    var k :| 0 <= k < |rs| && rs[k] == r;
    assert r.page in set k | 0 <= k < |rs| :: rs[k].page;
    if r.page !in t
       && (forall j :: 0 <= j < |hs| && j != i && hs[j].p_type == PT_LOAD ==>
             !(FirstPage(hs[j], load) <= page <= LastPage(hs[j], load)))
    {
      forall k | 0 <= k < |rs| && rs[k].page == r.page
        ensures rs[k] == r
      {
        var j := RequestOrigin(hs, load, ro, rs[k]);
        var h := HeaderRequests(hs[j], load, ro);
        var m :| 0 <= m < |h| && h[m] == rs[k];
        assert rs[k] == PageRequest(hs[j], FirstPage(hs[j], load) + m, ro);
      }
      FirstWinsAgreeing(t, rs, r);
    }
  }

  /** The requests of a prefix of the table come first, in the same order. */
  lemma {:induction false} SegmentRequestsPrefix(hs: seq<Phdr>, load: nat, ro: nat, i: nat)
    requires i <= |hs|
    ensures SegmentRequests(hs[..i], load, ro) <= SegmentRequests(hs, load, ro)
    decreases |hs|
  {
    if i < |hs| {
      var n := |hs| - 1;
      assert hs[..n][..i] == hs[..i];
      SegmentRequestsPrefix(hs[..n], load, ro, i);
    } else {
      assert hs[..i] == hs;
    }
  }

  /* ---------------------------------------------------------------------
     Mapping the stack and the segments
     --------------------------------------------------------------------- */

  const STACK_FLAGS: set<Flag> := {Present, Writable, UserAccessible}

  /** Pages `first` up to (excluding) `upto` were unmapped in `before` and
      are mapped in `after`, writable, each to its own frame that was handed
      out after `issuedBefore` and by `issuedAfter`; every other page keeps its
      entry. */
  ghost predicate StackMappedUpTo(before: map<int, Entry>, after: map<int, Entry>, first: int, upto: int,
                                  issuedBefore: seq<nat>, issuedAfter: seq<nat>)
  {
    (forall p :: first <= p < upto ==>
       p !in before && p in after && after[p].flags == STACK_FLAGS
       && after[p].frame in issuedAfter && after[p].frame !in issuedBefore)
    && (forall p, q :: first <= p < q < upto && p in after && q in after ==> after[p].frame != after[q].frame)
    && (forall p :: p in before ==> p in after && after[p] == before[p])
    && (forall p :: p in after ==> p in before || first <= p < upto)
  }

  /** The whole stack of base `s` is mapped. */
  ghost predicate StackMapped(before: map<int, Entry>, after: map<int, Entry>, s: nat,
                              issuedBefore: seq<nat>, issuedAfter: seq<nat>)
  {
    StackMappedUpTo(before, after, PageOf(s), StackLastPage(s) + 1, issuedBefore, issuedAfter)
  }

  /** Frames once handed out stay handed out. */
  lemma IssuedKept(usable: seq<nat>, a: nat, b: nat, x: nat)
    requires a <= b <= |usable| && x in usable[..a]
    ensures x in usable[..b]
  {
    assert usable[..a] == usable[..b][..a];
  }

  /** One step of the stack loop: mapping the next page, while it is free,
      to the frame just handed out extends the mapped run by that page. */
  lemma StackMappedStep(before: map<int, Entry>, t: map<int, Entry>, t2: map<int, Entry>, first: int, page: int,
                        usable: seq<nat>, n0: nat, n1: nat, n2: nat)
    requires Distinct(usable) && n0 <= n1 < n2 <= |usable| && first <= page
    requires StackMappedUpTo(before, t, first, page, usable[..n0], usable[..n1])
    requires page !in t && t2 == t[page := Entry(usable[n1], STACK_FLAGS)]
    ensures StackMappedUpTo(before, t2, first, page + 1, usable[..n0], usable[..n2])
  {
    forall p | first <= p < page
      ensures t2[p].frame in usable[..n2] && t2[p].frame != usable[n1]
    {
      IssuedKept(usable, n1, n2, t[p].frame);
      var i :| 0 <= i < n1 && usable[i] == t[p].frame;
    }
    assert usable[n1] == usable[..n2][n1];
  }

  /** The stack loop: each page of the stack gets a fresh frame and the
      flags present, writable and user-accessible; an exhausted allocator or
      any `map_to` error is fatal. */
  method MapStack(m: Mapper, alloc: FrameAllocator, s: nat) returns (r: Outcome<MapError>)
    requires m.Valid() && alloc.Valid()
    modifies m, alloc
    ensures m.Valid() && alloc.Valid()
    ensures old(alloc.next) <= alloc.next <= old(alloc.next) + 2 * (StackLastPage(s) - PageOf(s) + 1)
    ensures r.Pass? ==> StackMapped(old(m.table), m.table, s, old(alloc.Issued()), alloc.Issued())
    ensures (forall p :: PageOf(s) <= p <= StackLastPage(s) ==> p !in old(m.table))
            && |alloc.usable| - old(alloc.next) >= 2 * (StackLastPage(s) - PageOf(s) + 1)
            ==> r.Pass?
  {
    var first := PageOf(s);
    var last := StackLastPage(s);
    var page := first;
    assert first <= last + 1;
    while page <= last
      invariant first <= page <= last + 1
      invariant m.Valid() && alloc.Valid()
      invariant old(alloc.next) <= alloc.next <= old(alloc.next) + 2 * (page - first)
      invariant StackMappedUpTo(old(m.table), m.table, first, page, old(alloc.Issued()), alloc.Issued())
      decreases last + 1 - page
    {
      ghost var t := m.table;
      ghost var n1 := alloc.next;
      var f := alloc.AllocateFrame();
      if f.None? {
        return Fail(FrameAllocationFailed);
      }
      var res := m.MapTo(page, f.value, STACK_FLAGS, alloc);
      if res.Fail? {
        return res;
      }
      StackMappedStep(old(m.table), t, m.table, first, page, alloc.usable, old(alloc.next), n1, alloc.next);
      page := page + 1;
    }
    r := Pass;
  }

  /** Applying two runs of requests one after the other is applying their
      concatenation. */
  lemma {:induction false} FirstWinsAppend(t: map<int, Entry>, a: seq<Request>, b: seq<Request>)
    ensures FirstWins(t, a + b) == FirstWins(FirstWins(t, a), b)
    decreases |b|
  {
    if b == [] {
      assert a + b == a;
    } else {
      var n := |b| - 1;
      assert (a + b)[..|a + b| - 1] == a + b[..n];
      FirstWinsAppend(t, a, b[..n]);
    }
  }

  /** The page loop of one program header. */
  method MapHeader(m: Mapper, alloc: FrameAllocator, h: Phdr, load: nat, ro: nat) returns (r: Outcome<MapError>)
    requires m.Valid() && alloc.Valid()
    modifies m, alloc
    ensures m.Valid() && alloc.Valid() && old(m.tables) <= m.tables
    ensures old(alloc.next) <= alloc.next <= old(alloc.next) + |HeaderRequests(h, load, ro)|
    ensures r.Pass? ==> m.table == FirstWins(old(m.table), HeaderRequests(h, load, ro))
    ensures r.Fail? ==> r.error == FrameAllocationFailed
    ensures |alloc.usable| - old(alloc.next) >= |HeaderRequests(h, load, ro)| ==> r.Pass?
  {
    ghost var rs := HeaderRequests(h, load, ro);
    if h.p_type != PT_LOAD {
      return Pass;
    }
    var start := h.p_vaddr + load;
    var end := start + h.p_memsz - 1;
    var flags := SegmentFlags(h.p_flags);
    var page := PageOf(start);
    assert PageOf(start) - 1 <= PageOf(end);
    while page <= PageOf(end)
      invariant PageOf(start) <= page <= PageOf(end) + 1
      invariant page - PageOf(start) <= |rs|
      invariant m.Valid() && alloc.Valid() && old(m.tables) <= m.tables
      invariant old(alloc.next) <= alloc.next <= old(alloc.next) + (page - PageOf(start))
      invariant m.table == FirstWins(old(m.table), rs[..page - PageOf(start)])
      decreases PageOf(end) + 1 - page
    {
      ghost var k := page - PageOf(start);
      assert rs[k] == Request(page + ro / PAGE_SIZE, Entry(page, flags));
      assert rs[..k + 1][..k] == rs[..k];
      var res := m.MapTo(page + ro / PAGE_SIZE, page, flags, alloc);
      if res.Fail? && res.error != PageAlreadyMapped {
        return res;
      }
      page := page + 1;
    }
    assert rs[..page - PageOf(start)] == rs;
    r := Pass;
  }

  /** The segment loop: for every `PT_LOAD` header, every page of the
      segment is mapped at its page plus the random offset, to the frame of
      the same number; a page that is already mapped keeps its entry, any
      other `map_to` error is fatal. */
  method MapSegments(m: Mapper, alloc: FrameAllocator, hs: seq<Phdr>, load: nat, ro: nat) returns (r: Outcome<MapError>)
    requires m.Valid() && alloc.Valid()
    modifies m, alloc
    ensures m.Valid() && alloc.Valid() && old(m.tables) <= m.tables
    ensures old(alloc.next) <= alloc.next
    ensures r.Pass? ==> m.table == FirstWins(old(m.table), SegmentRequests(hs, load, ro))
    ensures r.Fail? ==> r.error == FrameAllocationFailed
    ensures |alloc.usable| - old(alloc.next) >= |SegmentRequests(hs, load, ro)| ==> r.Pass?
  {
    var i := 0;
    while i < |hs|
      invariant 0 <= i <= |hs|
      invariant m.Valid() && alloc.Valid() && old(m.tables) <= m.tables
      invariant old(alloc.next) <= alloc.next <= old(alloc.next) + |SegmentRequests(hs[..i], load, ro)|
      invariant m.table == FirstWins(old(m.table), SegmentRequests(hs[..i], load, ro))
    {
      ghost var done := SegmentRequests(hs[..i], load, ro);
      ghost var rs := HeaderRequests(hs[i], load, ro);
      assert hs[..i + 1][..i] == hs[..i];
      assert SegmentRequests(hs[..i + 1], load, ro) == done + rs;
      SegmentRequestsPrefix(hs, load, ro, i + 1);
      FirstWinsAppend(old(m.table), done, rs);
      r := MapHeader(m, alloc, hs[i], load, ro);
      if r.Fail? {
        return;
      }
      i := i + 1;
    }
    assert hs[..i] == hs;
    r := Pass;
  }

  /* ---------------------------------------------------------------------
     The process stack
     --------------------------------------------------------------------- */

  type u32 = x: int | 0 <= x < 0x1_0000_0000

  /** The `n` bytes of `x` in memory, least significant first (x86_64 is
      little-endian). */
  function LeBytes(x: nat, n: nat): (b: seq<byte>)
    ensures |b| == n
  {
    if n == 0 then [] else [x % 256] + LeBytes(x / 256, n - 1)
  }

  /** The number whose little-endian bytes are `b`. */
  function FromLe(b: seq<byte>): nat
  {
    if b == [] then 0 else b[0] + 256 * FromLe(b[1..])
  }

  function Pow256(n: nat): (p: nat)
    ensures p >= 1
  {
    if n == 0 then 1 else 256 * Pow256(n - 1)
  }

  /** Reading back the bytes of a number that fits gives the number. */
  lemma {:induction false} LeBytesRoundTrip(x: nat, n: nat)
    requires x < Pow256(n)
    ensures FromLe(LeBytes(x, n)) == x
  {
    if n > 0 {
      assert x / 256 < Pow256(n - 1);
      LeBytesRoundTrip(x / 256, n - 1);
    }
  }

  /** The 16 bytes of `AT_RANDOM`: the bytes of `r1`, then those of `r2`. */
  method RandomBytes(r1: u64, r2: u64) returns (ra: seq<byte>)
    ensures ra == LeBytes(r1, 8) + LeBytes(r2, 8)
  {
    var a := new byte[16](_ => 0);
    var r1u8 := LeBytes(r1, 8);
    var r2u8 := LeBytes(r2, 8);
    forall k | 0 <= k < 8 {
      a[k] := r1u8[k];
    }
    forall k | 8 <= k < 16 {
      a[k] := r2u8[k - 8];
    }
    ra := a[..];
  }

  /** Both random words can be read back from the `AT_RANDOM` bytes. */
  lemma RandomBytesRecoverWords(r1: u64, r2: u64)
    ensures |LeBytes(r1, 8) + LeBytes(r2, 8)| == 16
    ensures FromLe((LeBytes(r1, 8) + LeBytes(r2, 8))[..8]) == r1
    ensures FromLe((LeBytes(r1, 8) + LeBytes(r2, 8))[8..]) == r2
  {
    var ra := LeBytes(r1, 8) + LeBytes(r2, 8);
    assert Pow256(8) == TWO_TO_64;
    assert ra[..8] == LeBytes(r1, 8);
    assert ra[8..] == LeBytes(r2, 8);
    LeBytesRoundTrip(r1, 8);
    LeBytesRoundTrip(r2, 8);
  }

  /** The auxiliary-vector entries `exec_elf` pushes. */
  datatype AuxEntry =
    | ExecFilename(name: string)
    | Platform(name: string)
    | Uid(id: nat)
    | EUid(id: nat)
    | Gid(id: nat)
    | EGid(id: nat)
    | PageSize(size: nat)
    | Secure(secure: bool)
    | ClockTick(hz: nat)
    | Flags(bits: nat)
    | PHdr(addr: nat)
    | PHent(size: nat)
    | PHnum(count: nat)
    | HwCap(bits: nat)
    | HwCap2(bits: nat)
    | Random(bytes: seq<byte>)

  /** The initial process stack as the `crt0stack` builder lays it out: the
      arguments, the environment and the auxiliary vector. */
  datatype ProcessStack = ProcessStack(argv: seq<string>, envp: seq<string>, auxv: seq<AuxEntry>)

  /** The auxiliary vector for a payload whose program headers are at
      `phdr`, `phnum` of them. */
  function AuxVector(phdr: nat, phnum: nat, hwcap: u32, ra: seq<byte>): seq<AuxEntry>
  {
    [ ExecFilename("/init"), Platform("x86_64"), Uid(1000), EUid(1000), Gid(1000), EGid(1000),
      PageSize(PAGE_SIZE), Secure(false), ClockTick(100), Flags(0),
      PHdr(phdr), PHent(ELF64_PHDR_SIZE), PHnum(phnum), HwCap(hwcap), HwCap2(0), Random(ra) ]
  }

  function InitialStack(phdr: nat, phnum: nat, hwcap: u32, ra: seq<byte>): ProcessStack
  {
    ProcessStack(["/init", "arg1", "arg2"], ["LANG=C"], AuxVector(phdr, phnum, hwcap, ra))
  }

  /** The phases of the builder: arguments, then environment, then the
      auxiliary vector, then done. */
  datatype Section = Args | Env | Aux | Finished

  /** `crt0stack::Builder`: a type-state builder; `push` appends to the
      current section and `done` moves to the next one. */
  class StackBuilder {
    var section: Section
    var argv: seq<string>
    var envp: seq<string>
    var auxv: seq<AuxEntry>

    constructor ()
      ensures section == Args && argv == [] && envp == [] && auxv == []
    {
      section := Args;
      argv := [];
      envp := [];
      auxv := [];
    }

    method PushArg(arg: string)
      requires section == Args
      modifies this
      ensures section == Args && argv == old(argv) + [arg] && envp == old(envp) && auxv == old(auxv)
    {
      argv := argv + [arg];
    }

    method PushEnv(env: string)
      requires section == Env
      modifies this
      ensures section == Env && envp == old(envp) + [env] && argv == old(argv) && auxv == old(auxv)
    {
      envp := envp + [env];
    }

    method PushAux(aux: AuxEntry)
      requires section == Aux
      modifies this
      ensures section == Aux && auxv == old(auxv) + [aux] && argv == old(argv) && envp == old(envp)
    {
      auxv := auxv + [aux];
    }

    method Done()
      requires section != Finished
      modifies this
      ensures section == match old(section) case Args => Env case Env => Aux case _ => Finished
      ensures argv == old(argv) && envp == old(envp) && auxv == old(auxv)
    {
      section := match section case Args => Env case Env => Aux case _ => Finished;
    }
  }

  /** The pushes of `exec_elf`, in order; the stack it builds is
      `InitialStack`. */
  method BuildStack(phdr: nat, phnum: nat, hwcap: u32, ra: seq<byte>) returns (st: ProcessStack)
    ensures st == InitialStack(phdr, phnum, hwcap, ra)
    ensures st.argv[0] == "/init" && st.auxv[|st.auxv| - 1] == Random(ra)
  {
    var b := new StackBuilder();
    b.PushArg("/init");
    b.PushArg("arg1");
    b.PushArg("arg2");
    b.Done();
    b.PushEnv("LANG=C");
    b.Done();
    var entries := AuxVector(phdr, phnum, hwcap, ra);
    var k := 0;
    while k < |entries|
      invariant 0 <= k <= |entries|
      invariant b.section == Aux && b.auxv == entries[..k]
      invariant b.argv == ["/init", "arg1", "arg2"] && b.envp == ["LANG=C"]
    {
      b.PushAux(entries[k]);
      k := k + 1;
    }
    b.Done();
    assert entries[..k] == entries;
    st := ProcessStack(b.argv, b.envp, b.auxv);
  }

  /* ---------------------------------------------------------------------
     exec_elf
     --------------------------------------------------------------------- */

  /** `NEXT_MMAP`: where the shim's `mmap` places the next mapping. */
  class MmapCursor {
    var next: nat

    constructor ()
      ensures next == NEXT_MMAP_START
    {
      next := NEXT_MMAP_START;
    }
  }

  datatype HyperVisorExitCode = Success

  /** How `exec_elf` ends: it never returns. */
  datatype ExecOutcome =
    | Panicked(why: Panic)
    | ExitedHypervisor(code: HyperVisorExitCode)
    | EnteredUserMode(entry: u64, sp: nat, arg: nat)

  /** The load address as a physical address: an address above the direct
      map's offset has the offset taken off. */
  function NormalLoad(loadAddr: u64): (a: nat)
    ensures a <= loadAddr
    ensures loadAddr <= PHYSICAL_MEMORY_OFFSET ==> a == loadAddr
    ensures loadAddr > PHYSICAL_MEMORY_OFFSET ==> a + PHYSICAL_MEMORY_OFFSET == loadAddr
  {
    if loadAddr > PHYSICAL_MEMORY_OFFSET then loadAddr - PHYSICAL_MEMORY_OFFSET else loadAddr
  }

  /** The entry point after randomization, as a 64-bit pointer. */
  function EntryPoint(loadAddr: u64, e_entry: u64, r3: u64): u64
  {
    Wrap64(NormalLoad(loadAddr) + e_entry + RandomOffset(r3))
  }

  /** The payload is entered unless its randomized entry point is null, which
      happens only when the pointer arithmetic wraps past 2^64. */
  lemma NullEntryOnlyOnWrap(loadAddr: u64, e_entry: u64, r3: u64)
    ensures NormalLoad(loadAddr) + e_entry + RandomOffset(r3) > 0
    ensures EntryPoint(loadAddr, e_entry, r3) == 0 <==>
            NormalLoad(loadAddr) + e_entry + RandomOffset(r3) in {TWO_TO_64, 2 * TWO_TO_64}
  {
    var x := NormalLoad(loadAddr) + e_entry + RandomOffset(r3);
    assert 0 < x < 3 * TWO_TO_64;
  }

  /** Handing out more frames keeps a mapped stack mapped. */
  lemma StackMappedIssuedGrows(before: map<int, Entry>, after: map<int, Entry>, first: int, upto: int,
                               issuedBefore: seq<nat>, usable: seq<nat>, n1: nat, n2: nat)
    requires n1 <= n2 <= |usable|
    requires StackMappedUpTo(before, after, first, upto, issuedBefore, usable[..n1])
    ensures StackMappedUpTo(before, after, first, upto, issuedBefore, usable[..n2])
  {
    forall p | first <= p < upto
      ensures after[p].frame in usable[..n2]
    {
      IssuedKept(usable, n1, n2, after[p].frame);
    }
  }

  /** The mapping half of `exec_elf`: the stack, the `NEXT_MMAP` advance and
      the segments, in that order. */
  method MapAddressSpace(m: Mapper, alloc: FrameAllocator, mmap: MmapCursor, hs: seq<Phdr>, load: nat, r3: u64)
    returns (r: Outcome<MapError>, ghost stackTable: map<int, Entry>)
    requires m.Valid() && alloc.Valid()
    modifies m, alloc, mmap
    ensures m.Valid() && alloc.Valid()
    ensures r.Pass? ==>
              && StackMapped(old(m.table), stackTable, StackStart(r3), old(alloc.Issued()), alloc.Issued())
              && m.table == FirstWins(stackTable, SegmentRequests(hs, load, RandomOffset(r3)))
              && mmap.next == old(mmap.next) + MmapShift(r3)
    ensures (forall p :: PageOf(StackStart(r3)) <= p <= StackLastPage(StackStart(r3)) ==> p !in old(m.table))
            && |alloc.usable| - old(alloc.next)
               >= 2 * (StackLastPage(StackStart(r3)) - PageOf(StackStart(r3)) + 1)
                  + |SegmentRequests(hs, load, RandomOffset(r3))|
            ==> r.Pass?
  {
    var stackStart := StackStart(r3);
    r := MapStack(m, alloc, stackStart);
    stackTable := m.table;
    if r.Fail? {
      return;
    }
    ghost var mid := alloc.next;
    mmap.next := mmap.next + MmapShift(r3);
    r := MapSegments(m, alloc, hs, load, RandomOffset(r3));
    if r.Fail? {
      return;
    }
    StackMappedIssuedGrows(old(m.table), stackTable, PageOf(stackStart), StackLastPage(stackStart) + 1,
                           old(alloc.Issued()), alloc.usable, mid, alloc.next);
  }

  /** What `exec_elf` does once it has its three random words. */
  method ExecWithWords(m: Mapper, alloc: FrameAllocator, mmap: MmapCursor, loadAddr: u64, elf: ElfView,
                       r1: u64, r2: u64, r3: u64, hwcap: u32, sp: nat)
    returns (out: ExecOutcome, ghost stackTable: map<int, Entry>, stack: ProcessStack)
    requires m.Valid() && alloc.Valid()
    modifies m, alloc, mmap
    ensures m.Valid() && alloc.Valid()
    ensures out.Panicked? ==> out.why.MapFailed?
    ensures !out.Panicked? ==>
              && StackMapped(old(m.table), stackTable, StackStart(r3), old(alloc.Issued()), alloc.Issued())
              && m.table == FirstWins(stackTable, SegmentRequests(elf.phdrs, NormalLoad(loadAddr), RandomOffset(r3)))
              && mmap.next == old(mmap.next) + MmapShift(r3)
              && stack == InitialStack(Wrap64(NormalLoad(loadAddr) + RandomOffset(r3)) + ELF64_HDR_SIZE,
                                       |elf.phdrs|, hwcap, LeBytes(r1, 8) + LeBytes(r2, 8))
              && out == if EntryPoint(loadAddr, elf.e_entry, r3) == 0 then ExitedHypervisor(Success)
                        else EnteredUserMode(EntryPoint(loadAddr, elf.e_entry, r3), sp, 0)
    ensures (forall p :: PageOf(StackStart(r3)) <= p <= StackLastPage(StackStart(r3)) ==> p !in old(m.table))
            && |alloc.usable| - old(alloc.next)
               >= 2 * (StackLastPage(StackStart(r3)) - PageOf(StackStart(r3)) + 1)
                  + |SegmentRequests(elf.phdrs, NormalLoad(loadAddr), RandomOffset(r3))|
            ==> !out.Panicked?
  {
    stack := ProcessStack([], [], []);
    var res;
    res, stackTable := MapAddressSpace(m, alloc, mmap, elf.phdrs, NormalLoad(loadAddr), r3);
    if res.Fail? {
      return Panicked(MapFailed(res.error)), stackTable, stack;
    }
    out, stack := EnterPayload(loadAddr, elf, r1, r2, r3, hwcap, sp);
  }

  /** The last half of `exec_elf`: build the process stack, then exit the
      hypervisor on a null entry point or drop to user mode at it. */
  method EnterPayload(loadAddr: u64, elf: ElfView, r1: u64, r2: u64, r3: u64, hwcap: u32, sp: nat)
    returns (out: ExecOutcome, stack: ProcessStack)
    ensures stack == InitialStack(Wrap64(NormalLoad(loadAddr) + RandomOffset(r3)) + ELF64_HDR_SIZE,
                                  |elf.phdrs|, hwcap, LeBytes(r1, 8) + LeBytes(r2, 8))
    ensures out == if EntryPoint(loadAddr, elf.e_entry, r3) == 0 then ExitedHypervisor(Success)
                   else EnteredUserMode(EntryPoint(loadAddr, elf.e_entry, r3), sp, 0)
  {
    var load := NormalLoad(loadAddr);
    var ro := RandomOffset(r3);
    var entry := EntryPoint(loadAddr, elf.e_entry, r3);
    var ra := RandomBytes(r1, r2);
    stack := BuildStack(Wrap64(load + ro) + ELF64_HDR_SIZE, |elf.phdrs|, hwcap, ra);
    if entry == 0 {
      out := ExitedHypervisor(Success);
    } else {
      out := EnteredUserMode(entry, sp, 0);
    }
  }

  /** `exec_elf(mapper, frame_allocator, _, app_load_addr, _)`. `rdrand` is
      what RDRAND delivers, `hwcap` what CPUID leaf 1 reports in EDX, and `sp`
      the stack pointer the finished builder reports. `stackTable` is the
      page table after the stack was mapped. */
  method ExecElf(m: Mapper, alloc: FrameAllocator, mmap: MmapCursor, loadAddr: u64, elf: ElfView,
                 rdrand: Option<(Option<u64>, Option<u64>, Option<u64>)>, debug: bool, hwcap: u32, sp: nat)
    returns (out: ExecOutcome, ghost stackTable: map<int, Entry>, stack: ProcessStack)
    requires m.Valid() && alloc.Valid()
    modifies m, alloc, mmap
    ensures m.Valid() && alloc.Valid()
    ensures RandomWords(rdrand, debug).Err? ==>
              out == Panicked(RandomWords(rdrand, debug).error)
              && m.table == old(m.table) && alloc.next == old(alloc.next) && mmap.next == old(mmap.next)
    ensures RandomWords(rdrand, debug).Ok? && out.Panicked? ==> out.why.MapFailed?
    ensures RandomWords(rdrand, debug).Ok? && !out.Panicked? ==>
              var (r1, r2, r3) := RandomWords(rdrand, debug).value;
              && StackMapped(old(m.table), stackTable, StackStart(r3), old(alloc.Issued()), alloc.Issued())
              && m.table == FirstWins(stackTable, SegmentRequests(elf.phdrs, NormalLoad(loadAddr), RandomOffset(r3)))
              && mmap.next == old(mmap.next) + MmapShift(r3)
              && stack == InitialStack(Wrap64(NormalLoad(loadAddr) + RandomOffset(r3)) + ELF64_HDR_SIZE,
                                       |elf.phdrs|, hwcap, LeBytes(r1, 8) + LeBytes(r2, 8))
              && out == if EntryPoint(loadAddr, elf.e_entry, r3) == 0 then ExitedHypervisor(Success)
                        else EnteredUserMode(EntryPoint(loadAddr, elf.e_entry, r3), sp, 0)
  {
    var words := RandomWords(rdrand, debug);
    if words.Err? {
      return Panicked(words.error), m.table, ProcessStack([], [], []);
    }
    var (r1, r2, r3) := words.value;
    out, stackTable, stack := ExecWithWords(m, alloc, mmap, loadAddr, elf, r1, r2, r3, hwcap, sp);
  }
}
