/** The shim's in-keep ELF loader (`load_elf` and `map_user_segment`): walks
    the program headers of the embedded payload, fixes one load bias from the
    first `LOAD` segment, copies every `LOAD` segment's file bytes into memory
    and zero-fills the rest of its memory size.

    Memory is a byte array indexed by physical address: the shim writes a
    segment through the direct map at `virtual_addr + bias`, so that is the
    index used here. The payload image is the byte sequence `image`, and the
    result of parsing it (`ElfFile::new` and `sanity_check`) is an input. */
module LoadElf {
  import opened Wrappers
  import opened Arch

  const PT_INTERP: nat := 3
  const PT_LOOS: nat := 0x6000_0000
  const PT_HIPROC: nat := 0x7fff_ffff

  /** The bias given to a position-independent payload whose first `LOAD`
      segment has physical address 0. */
  const DYN_OFFSET: nat := 0x40_0000

  datatype SegmentType = Load | Interp | Other(raw: nat)

  /** A 64-bit program header, as `ProgramHeader64` holds it. */
  datatype Segment = Segment(
    p_type: nat,
    offset: u64,
    virtual_addr: u64,
    physical_addr: u64,
    file_size: u64,
    mem_size: u64)

  /** An entry of `program_iter()`: a 64-bit header, or a 32-bit one. */
  datatype ProgramHeader = Ph64(seg: Segment) | Ph32

  /** What the loader reads from the parsed payload. */
  datatype ElfFile = ElfFile(entry_point: u64, headers: seq<ProgramHeader>)

  /** Each way the loader panics. `Fault` stands for a copy or fill whose
      range lies outside the image or the memory. */
  datatype LoadError =
    | ParseFailed
    | Elf32Header
    | BadSegmentType
    | LoadAddrUnderflow
    | InterpSegment
    | SizeUnderflow
    | Fault
    | NoLoadSegment

  /** The triple `load_elf` returns: entry point, load address and the number
      of program headers. */
  datatype Loaded = Loaded(entry: nat, loadAddr: nat, phnum: nat)

  /** `get_type()`: the ELF library decodes the standard types 0 to 7 and the
      OS- and processor-specific ranges, and rejects every other value. */
  function DecodeType(raw: nat): Option<SegmentType>
  {
    if raw == PT_LOAD then Some(Load)
    else if raw == PT_INTERP then Some(Interp)
    else if raw <= 7 || PT_LOOS <= raw <= PT_HIPROC then Some(Other(raw))
    else None
  }

  predicate IsLoad(h: ProgramHeader)
  {
    h.Ph64? && DecodeType(h.seg.p_type) == Some(Load)
  }

  /** A header the loader always panics on: a 32-bit header, an undecodable
      type, or an `INTERP` segment (a dynamically linked payload). */
  predicate Rejected(h: ProgramHeader)
  {
    h.Ph32? || DecodeType(h.seg.p_type).None? || DecodeType(h.seg.p_type) == Some(Interp)
  }

  predicate IsFirstLoad(hs: seq<ProgramHeader>, j: int)
  {
    0 <= j < |hs| && IsLoad(hs[j]) && forall k :: 0 <= k < j ==> !IsLoad(hs[k])
  }

  /** The bias chosen when `seg` is the first `LOAD` segment. */
  function BiasFor(seg: Segment): nat
  {
    if seg.physical_addr == 0 then DYN_OFFSET else 0
  }

  /** Where a segment's bytes go under a given bias. */
  function Dest(seg: Segment, bias: nat): nat
  {
    seg.virtual_addr + bias
  }

  /** The copy and the fill of a `LOAD` segment both stay inside the image
      and the memory. */
  predicate Fits(seg: Segment, bias: nat, imageLen: nat, memLen: nat)
  {
    seg.file_size <= seg.mem_size
    && seg.offset + seg.file_size <= imageLen
    && Dest(seg, bias) + seg.mem_size <= memLen
  }

  function Zeros(n: nat): (z: seq<byte>)
    ensures |z| == n && forall i :: 0 <= i < n ==> z[i] == 0
  {
    seq(n, _ => 0)
  }

  /** Memory after a `LOAD` segment has been placed: its file bytes copied
      from the image, zeros up to its memory size, all else untouched. */
  function Place(mem: seq<byte>, image: seq<byte>, seg: Segment, bias: nat): (r: seq<byte>)
    requires Fits(seg, bias, |image|, |mem|)
    ensures |r| == |mem|
    ensures forall a :: Dest(seg, bias) <= a < Dest(seg, bias) + seg.file_size ==>
              r[a] == image[a - Dest(seg, bias) + seg.offset]
    ensures forall a :: Dest(seg, bias) + seg.file_size <= a < Dest(seg, bias) + seg.mem_size ==> r[a] == 0
    ensures forall a :: 0 <= a < |mem| && !(Dest(seg, bias) <= a < Dest(seg, bias) + seg.mem_size) ==>
              r[a] == mem[a]
  {
    var dst := Dest(seg, bias);
    mem[..dst] + image[seg.offset..seg.offset + seg.file_size]
      + Zeros(seg.mem_size - seg.file_size) + mem[dst + seg.mem_size..]
  }

  /** The effect of `map_user_segment` on memory. */
  function SegmentEffect(seg: Segment, image: seq<byte>, bias: nat, mem: seq<byte>): Result<seq<byte>, LoadError>
  {
    match DecodeType(seg.p_type)
    case None => Err(BadSegmentType)
    case Some(Interp) => Err(InterpSegment)
    case Some(Other(_)) => Ok(mem)
    case Some(Load) =>
      if seg.offset + seg.file_size > |image| || Dest(seg, bias) + seg.file_size > |mem| then Err(Fault)
      else if seg.mem_size < seg.file_size then Err(SizeUnderflow)
      else if Dest(seg, bias) + seg.mem_size > |mem| then Err(Fault)
      else Ok(Place(mem, image, seg, bias))
  }

  /** The loop variables of `load_elf` together with the memory. */
  datatype Progress = Progress(loadAddr: Option<nat>, bias: nat, mem: seq<byte>)

  /** The first `LOAD` segment anchors the load address and, when its
      physical address is 0, sets the bias; afterwards nothing changes. */
  function Anchor(p: Progress, seg: Segment): Result<Progress, LoadError>
  {
    if p.loadAddr.Some? then Ok(p)
    else match DecodeType(seg.p_type)
      case None => Err(BadSegmentType)
      case Some(t) =>
        if t != Load then Ok(p)
        else
          var bias := if seg.physical_addr == 0 then DYN_OFFSET else p.bias;
          if seg.virtual_addr + bias < seg.offset then Err(LoadAddrUnderflow)
          else Ok(p.(loadAddr := Some(seg.virtual_addr + bias - seg.offset), bias := bias))
  }

  /** One iteration of the header loop. */
  function Step(p: Progress, h: ProgramHeader, image: seq<byte>): Result<Progress, LoadError>
  {
    match h
    case Ph32 => Err(Elf32Header)
    case Ph64(seg) =>
      var q :- Anchor(p, seg);
      var mem :- SegmentEffect(seg, image, q.bias, q.mem);
      Ok(q.(mem := mem))
  }

  /** The header loop run over `hs`, from the first header to the last. */
  function Run(p0: Progress, hs: seq<ProgramHeader>, image: seq<byte>): Result<Progress, LoadError>
    decreases |hs|
  {
    if hs == [] then Ok(p0)
    else
      var p :- Run(p0, hs[..|hs| - 1], image);
      Step(p, hs[|hs| - 1], image)
  }

  /** All of `load_elf`: the returned triple and the memory it leaves. */
  function LoadSpec(elf: Option<ElfFile>, image: seq<byte>, mem: seq<byte>): Result<(Loaded, seq<byte>), LoadError>
  {
    match elf
    case None => Err(ParseFailed)
    case Some(f) =>
      var p :- Run(Progress(None, 0, mem), f.headers, image);
      if p.loadAddr.None? then Err(NoLoadSegment)
      else Ok((Loaded(f.entry_point + p.bias, p.loadAddr.value, |f.headers|), p.mem))
  }

  /** `map_user_segment`: panics on an `INTERP` segment, copies and
      zero-fills a `LOAD` segment in place, and ignores every other type. */
  method MapUserSegment(seg: Segment, image: seq<byte>, bias: nat, mem: array<byte>) returns (r: Outcome<LoadError>)
    modifies mem
    ensures SegmentEffect(seg, image, bias, old(mem[..])) == if r.Pass? then Ok(mem[..]) else Err(r.error)
  {
    var t := DecodeType(seg.p_type);
    if t.None? {
      return Fail(BadSegmentType);
    }
    match t.value
    case Interp =>
      return Fail(InterpSegment);
    case Other(_) =>
      return Pass;
    case Load =>
      var dst := Dest(seg, bias);
      if seg.offset + seg.file_size > |image| || dst + seg.file_size > mem.Length {
        return Fail(Fault);
      }
      forall a | dst <= a < dst + seg.file_size {
        mem[a] := image[a - dst + seg.offset];
      }
      if seg.mem_size < seg.file_size {
        return Fail(SizeUnderflow);
      }
      if dst + seg.mem_size > mem.Length {
        return Fail(Fault);
      }
      forall a | dst + seg.file_size <= a < dst + seg.mem_size {
        mem[a] := 0;
      }
      ghost var placed := Place(old(mem[..]), image, seg, bias);
      assert forall a :: 0 <= a < mem.Length ==> mem[a] == placed[a];
      assert mem[..] == placed;
      return Pass;
  }

  /** The body of the header loop for a 64-bit header: anchors the load
      address at the first `LOAD` segment, then maps the segment. */
  method VisitSegment(seg: Segment, image: seq<byte>, loadAddr: Option<nat>, bias: nat, mem: array<byte>)
    returns (r: Outcome<LoadError>, loadAddr': Option<nat>, bias': nat)
    modifies mem
    ensures var expected := Step(Progress(loadAddr, bias, old(mem[..])), Ph64(seg), image);
      if r.Pass? then expected == Ok(Progress(loadAddr', bias', mem[..])) else expected == Err(r.error)
  {
    loadAddr', bias' := loadAddr, bias;
    if loadAddr.None? {
      var t := DecodeType(seg.p_type);
      if t.None? {
        return Fail(BadSegmentType), loadAddr', bias';
      }
      if t.value == Load {
        if seg.physical_addr == 0 {
          bias' := DYN_OFFSET;
        }
        if seg.virtual_addr + bias' < seg.offset {
          return Fail(LoadAddrUnderflow), loadAddr', bias';
        }
        loadAddr' := Some(seg.virtual_addr + bias' - seg.offset);
      }
    }
    assert Anchor(Progress(loadAddr, bias, old(mem[..])), seg) == Ok(Progress(loadAddr', bias', mem[..]));
    r := MapUserSegment(seg, image, bias', mem);
  }

  /** `load_elf`: the header walk, in place on `mem`. */
  method LoadElf(elf: Option<ElfFile>, image: seq<byte>, mem: array<byte>) returns (r: Result<Loaded, LoadError>)
    modifies mem
    ensures r.Ok? <==> LoadSpec(elf, image, old(mem[..])).Ok?
    ensures r.Ok? ==> LoadSpec(elf, image, old(mem[..])).value == (r.value, mem[..])
    ensures r.Err? ==> LoadSpec(elf, image, old(mem[..])).error == r.error
  {
    if elf.None? {
      return Err(ParseFailed);
    }
    var hs := elf.value.headers;
    ghost var p0 := Progress(None, 0, mem[..]);
    var loadAddr: Option<nat> := None;
    var bias: nat := 0;
    var i := 0;
    while i < |hs|
      invariant 0 <= i <= |hs|
      invariant Run(p0, hs[..i], image) == Ok(Progress(loadAddr, bias, mem[..]))
    {
      RunSnoc(p0, hs, i, image);
      if hs[i].Ph32? {
        RunErrExtends(p0, hs, i + 1, image);
        return Err(Elf32Header);
      }
      var o;
      o, loadAddr, bias := VisitSegment(hs[i].seg, image, loadAddr, bias, mem);
      if o.Fail? {
        RunErrExtends(p0, hs, i + 1, image);
        return Err(o.error);
      }
      i := i + 1;
    }
    assert hs[..i] == hs;
    if loadAddr.None? {
      return Err(NoLoadSegment);
    }
    r := Ok(Loaded(elf.value.entry_point + bias, loadAddr.value, |hs|));
  }

  /** One more header extends the run by one step. */
  lemma RunSnoc(p0: Progress, hs: seq<ProgramHeader>, i: nat, image: seq<byte>)
    requires i < |hs|
    ensures Run(p0, hs[..i + 1], image)
      == match Run(p0, hs[..i], image)
         case Err(e) => Err(e)
         case Ok(p) => Step(p, hs[i], image)
  {
    assert hs[..i + 1][..i] == hs[..i];
  }

  /** Once the loop has panicked, the remaining headers change nothing. */
  lemma {:induction false} RunErrExtends(p0: Progress, hs: seq<ProgramHeader>, i: nat, image: seq<byte>)
    requires i <= |hs| && Run(p0, hs[..i], image).Err?
    ensures Run(p0, hs, image) == Run(p0, hs[..i], image)
    decreases |hs| - i
  {
    if i < |hs| {
      var prefix := hs[..|hs| - 1];
      assert prefix[..i] == hs[..i];
      RunErrExtends(p0, prefix, i, image);
    } else {
      assert hs[..i] == hs;
    }
  }

  /** A header of a rejected kind anywhere in the table makes the load fail,
      whatever precedes it: a dynamic or 32-bit payload is never loaded. */
  lemma RejectedHeaderFails(f: ElfFile, image: seq<byte>, mem: seq<byte>, i: nat)
    requires i < |f.headers| && Rejected(f.headers[i])
    ensures LoadSpec(Some(f), image, mem).Err?
  {
    var p0 := Progress(None, 0, mem);
    var hs := f.headers;
    assert hs[..i + 1][..i] == hs[..i];
    RunErrExtends(p0, hs, i + 1, image);
  }

  /** One successful iteration keeps the anchors: an anchored load address
      and bias never change again, and the first `LOAD` segment anchors
      them. */
  lemma StepAnchors(q: Progress, h: ProgramHeader, image: seq<byte>)
    requires Step(q, h, image).Ok?
    ensures var p := Step(q, h, image).value;
      && h.Ph64?
      && (q.loadAddr.Some? ==> p.loadAddr == q.loadAddr && p.bias == q.bias)
      && (q.loadAddr.None? && !IsLoad(h) ==> p.loadAddr.None? && p.bias == q.bias)
      && (q.loadAddr.None? && IsLoad(h) ==>
            p.bias == (if h.seg.physical_addr == 0 then DYN_OFFSET else q.bias)
            && p.loadAddr == Some(h.seg.virtual_addr + p.bias - h.seg.offset))
  {
  }

  /** One successful iteration's memory: a `LOAD` segment is placed with the
      resulting bias and any other segment writes nothing. */
  lemma StepEffect(q: Progress, h: ProgramHeader, image: seq<byte>)
    requires Step(q, h, image).Ok?
    ensures var p := Step(q, h, image).value;
      && (IsLoad(h) ==> Fits(h.seg, p.bias, |image|, |q.mem|) && p.mem == Place(q.mem, image, h.seg, p.bias))
      && (!IsLoad(h) ==> p.mem == q.mem)
  {
  }

  /** What the loop has established after running over `hs` from the start:
      the load address and bias are fixed exactly by the first `LOAD`
      segment, and no `LOAD` segment means no load address. */
  lemma {:induction false} RunAnchors(mem: seq<byte>, hs: seq<ProgramHeader>, image: seq<byte>)
    requires Run(Progress(None, 0, mem), hs, image).Ok?
    ensures var p := Run(Progress(None, 0, mem), hs, image).value;
      && (p.loadAddr.None? <==> forall k :: 0 <= k < |hs| ==> !IsLoad(hs[k]))
      && (p.loadAddr.None? ==> p.bias == 0)
      && forall j :: IsFirstLoad(hs, j) ==>
           p.bias == BiasFor(hs[j].seg)
           && p.loadAddr == Some(hs[j].seg.virtual_addr + BiasFor(hs[j].seg) - hs[j].seg.offset)
    decreases |hs|
  {
    if hs != [] {
      var n := |hs| - 1;
      var prefix := hs[..n];
      RunAnchors(mem, prefix, image);
      var q := Run(Progress(None, 0, mem), prefix, image).value;
      var p := Run(Progress(None, 0, mem), hs, image).value;
      assert Step(q, hs[n], image) == Ok(p);
      StepAnchors(q, hs[n], image);
      forall j | IsFirstLoad(hs, j)
        ensures p.bias == BiasFor(hs[j].seg)
        ensures p.loadAddr == Some(hs[j].seg.virtual_addr + BiasFor(hs[j].seg) - hs[j].seg.offset)
      {
        forall k | 0 <= k < j && k < n
          ensures !IsLoad(prefix[k])
        {
          assert prefix[k] == hs[k];
        }
        if j < n {
          assert prefix[j] == hs[j];
          assert IsFirstLoad(prefix, j);
        }
      }
      if q.loadAddr.None? {
        forall k | 0 <= k < n
          ensures !IsLoad(hs[k])
        {
          assert prefix[k] == hs[k];
        }
      } else {
        var k :| 0 <= k < n && IsLoad(prefix[k]);
        assert prefix[k] == hs[k];
      }
    }
  }

  /** The triple returned on success: the entry point shifted by the bias of
      the first `LOAD` segment, the load address that segment anchors, and
      the number of program headers of every type. */
  lemma LoadResult(f: ElfFile, image: seq<byte>, mem: seq<byte>, j: nat)
    requires LoadSpec(Some(f), image, mem).Ok?
    requires IsFirstLoad(f.headers, j)
    ensures var seg := f.headers[j].seg; var r := LoadSpec(Some(f), image, mem).value.0;
      && r.entry == f.entry_point + BiasFor(seg)
      && r.loadAddr == seg.virtual_addr + BiasFor(seg) - seg.offset
      && r.phnum == |f.headers|
  {
    RunAnchors(mem, f.headers, image);
  }

  /** Without any `LOAD` segment the load panics instead of returning. */
  lemma NoLoadSegmentFails(f: ElfFile, image: seq<byte>, mem: seq<byte>)
    requires forall k :: 0 <= k < |f.headers| ==> !IsLoad(f.headers[k])
    ensures LoadSpec(Some(f), image, mem).Err?
  {
    if Run(Progress(None, 0, mem), f.headers, image).Ok? {
      RunAnchors(mem, f.headers, image);
    }
  }

  /** Memory after placing every `LOAD` segment of `hs`, in order, with one
      common bias. */
  function PlaceAll(mem: seq<byte>, hs: seq<ProgramHeader>, bias: nat, image: seq<byte>): (r: seq<byte>)
    ensures |r| == |mem|
    decreases |hs|
  {
    if hs == [] then mem
    else
      var m := PlaceAll(mem, hs[..|hs| - 1], bias, image);
      var h := hs[|hs| - 1];
      if IsLoad(h) && Fits(h.seg, bias, |image|, |m|) then Place(m, image, h.seg, bias) else m
  }

  predicate AllFit(hs: seq<ProgramHeader>, bias: nat, imageLen: nat, memLen: nat)
  {
    forall k :: 0 <= k < |hs| && IsLoad(hs[k]) ==> Fits(hs[k].seg, bias, imageLen, memLen)
  }

  lemma {:induction false} PlaceAllNoLoads(mem: seq<byte>, hs: seq<ProgramHeader>, bias: nat, image: seq<byte>)
    requires forall k :: 0 <= k < |hs| ==> !IsLoad(hs[k])
    ensures PlaceAll(mem, hs, bias, image) == mem
    decreases |hs|
  {
    if hs != [] {
      PlaceAllNoLoads(mem, hs[..|hs| - 1], bias, image);
    }
  }

  /** The memory the loop leaves is every `LOAD` segment placed with the one
      bias fixed by the first of them; each of them fits. */
  lemma {:induction false} RunPlacesAll(mem: seq<byte>, hs: seq<ProgramHeader>, image: seq<byte>)
    requires Run(Progress(None, 0, mem), hs, image).Ok?
    ensures var p := Run(Progress(None, 0, mem), hs, image).value;
      p.mem == PlaceAll(mem, hs, p.bias, image) && AllFit(hs, p.bias, |image|, |mem|)
    decreases |hs|
  {
    if hs != [] {
      var n := |hs| - 1;
      var prefix := hs[..n];
      RunPlacesAll(mem, prefix, image);
      RunAnchors(mem, prefix, image);
      var q := Run(Progress(None, 0, mem), prefix, image).value;
      var p := Run(Progress(None, 0, mem), hs, image).value;
      assert Step(q, hs[n], image) == Ok(p);
      StepAnchors(q, hs[n], image);
      StepEffect(q, hs[n], image);
      assert forall k :: 0 <= k < n ==> prefix[k] == hs[k];
      if q.loadAddr.None? {
        PlaceAllNoLoads(mem, prefix, q.bias, image);
        PlaceAllNoLoads(mem, prefix, p.bias, image);
      }
      assert PlaceAll(mem, prefix, p.bias, image) == q.mem;
      assert |q.mem| == |mem|;
    }
  }

  predicate Disjoint(a: Segment, b: Segment, bias: nat)
  {
    Dest(a, bias) + a.mem_size <= Dest(b, bias) || Dest(b, bias) + b.mem_size <= Dest(a, bias)
  }

  /** The byte at offset `k` of a placed segment: file byte or zero fill. */
  function SegmentByte(seg: Segment, image: seq<byte>, k: nat): byte
    requires k < seg.mem_size && seg.offset + seg.file_size <= |image|
  {
    if k < seg.file_size then image[seg.offset + k] else 0
  }

  /** A byte of a `LOAD` segment's range that no later `LOAD` segment covers
      keeps what that segment placed there. */
  lemma {:induction false} PlaceAllAt(mem: seq<byte>, hs: seq<ProgramHeader>, bias: nat, image: seq<byte>, i: nat, a: nat)
    requires AllFit(hs, bias, |image|, |mem|)
    requires i < |hs| && IsLoad(hs[i])
    requires Dest(hs[i].seg, bias) <= a < Dest(hs[i].seg, bias) + hs[i].seg.mem_size
    requires forall k :: i < k < |hs| && IsLoad(hs[k]) ==>
               !(Dest(hs[k].seg, bias) <= a < Dest(hs[k].seg, bias) + hs[k].seg.mem_size)
    ensures PlaceAll(mem, hs, bias, image)[a] == SegmentByte(hs[i].seg, image, a - Dest(hs[i].seg, bias))
    decreases |hs|
  {
    var n := |hs| - 1;
    var prefix := hs[..n];
    var m := PlaceAll(mem, prefix, bias, image);
    var h := hs[n];
    assert Fits(hs[i].seg, bias, |image|, |mem|);
    if i < n {
      assert prefix[i] == hs[i];
      assert AllFit(prefix, bias, |image|, |mem|) by {
        assert forall k :: 0 <= k < n ==> prefix[k] == hs[k];
      }
      assert forall k :: i < k < n ==> prefix[k] == hs[k];
      PlaceAllAt(mem, prefix, bias, image, i, a);
    }
  }

  lemma {:induction false} PlaceAllUntouched(mem: seq<byte>, hs: seq<ProgramHeader>, bias: nat, image: seq<byte>, a: nat)
    requires a < |mem|
    requires forall k :: 0 <= k < |hs| && IsLoad(hs[k]) ==>
               !(Dest(hs[k].seg, bias) <= a < Dest(hs[k].seg, bias) + hs[k].seg.mem_size)
    ensures PlaceAll(mem, hs, bias, image)[a] == mem[a]
    decreases |hs|
  {
    if hs != [] {
      PlaceAllUntouched(mem, hs[..|hs| - 1], bias, image, a);
    }
  }

  /** After a successful load, every `LOAD` segment that no later `LOAD`
      segment overlaps holds exactly its file bytes, followed by zeros up to
      its memory size, at `virtual_addr` plus the bias of the first `LOAD`
      segment. */
  lemma LoadedSegmentContents(f: ElfFile, image: seq<byte>, mem: seq<byte>, j: nat, i: nat)
    requires LoadSpec(Some(f), image, mem).Ok?
    requires IsFirstLoad(f.headers, j)
    requires i < |f.headers| && IsLoad(f.headers[i])
    requires forall k :: i < k < |f.headers| && IsLoad(f.headers[k]) ==>
               Disjoint(f.headers[k].seg, f.headers[i].seg, BiasFor(f.headers[j].seg))
    ensures var m := LoadSpec(Some(f), image, mem).value.1;
      var seg := f.headers[i].seg; var dst := Dest(seg, BiasFor(f.headers[j].seg));
      && Fits(seg, BiasFor(f.headers[j].seg), |image|, |m|)
      && (forall a :: dst <= a < dst + seg.file_size ==> m[a] == image[a - dst + seg.offset])
      && (forall a :: dst + seg.file_size <= a < dst + seg.mem_size ==> m[a] == 0)
  {
    var hs := f.headers;
    var p := Run(Progress(None, 0, mem), hs, image).value;
    RunAnchors(mem, hs, image);
    RunPlacesAll(mem, hs, image);
    var bias := p.bias;
    assert bias == BiasFor(hs[j].seg);
    assert LoadSpec(Some(f), image, mem).value.1 == p.mem;
    PlaceAllSegment(mem, hs, bias, image, i);
  }

  /** With no later `LOAD` segment overlapping it, segment `i` keeps its
      file bytes and zero fill after all segments are placed. */
  lemma PlaceAllSegment(mem: seq<byte>, hs: seq<ProgramHeader>, bias: nat, image: seq<byte>, i: nat)
    requires AllFit(hs, bias, |image|, |mem|)
    requires i < |hs| && IsLoad(hs[i])
    requires forall k :: i < k < |hs| && IsLoad(hs[k]) ==> Disjoint(hs[k].seg, hs[i].seg, bias)
    ensures var m := PlaceAll(mem, hs, bias, image);
      var seg := hs[i].seg; var dst := Dest(seg, bias);
      && Fits(seg, bias, |image|, |m|)
      && (forall a :: dst <= a < dst + seg.file_size ==> m[a] == image[a - dst + seg.offset])
      && (forall a :: dst + seg.file_size <= a < dst + seg.mem_size ==> m[a] == 0)
  {
    var seg := hs[i].seg;
    var m := PlaceAll(mem, hs, bias, image);
    assert Fits(seg, bias, |image|, |mem|);
    SegmentFileBytes(mem, hs, bias, image, i, m);
    SegmentZeroFill(mem, hs, bias, image, i, m);
  }

  /** The file part of segment `i` after all segments are placed. */
  lemma SegmentFileBytes(mem: seq<byte>, hs: seq<ProgramHeader>, bias: nat, image: seq<byte>, i: nat, m: seq<byte>)
    requires AllFit(hs, bias, |image|, |mem|)
    requires i < |hs| && IsLoad(hs[i])
    requires forall k :: i < k < |hs| && IsLoad(hs[k]) ==> Disjoint(hs[k].seg, hs[i].seg, bias)
    requires m == PlaceAll(mem, hs, bias, image) && Fits(hs[i].seg, bias, |image|, |m|)
    ensures forall a :: Dest(hs[i].seg, bias) <= a < Dest(hs[i].seg, bias) + hs[i].seg.file_size ==>
              m[a] == image[a - Dest(hs[i].seg, bias) + hs[i].seg.offset]
  {
    forall a | Dest(hs[i].seg, bias) <= a < Dest(hs[i].seg, bias) + hs[i].seg.file_size
      ensures m[a] == image[a - Dest(hs[i].seg, bias) + hs[i].seg.offset]
    {
      PlaceAllSegmentAt(mem, hs, bias, image, i, a);
    }
  }

  /** The zero fill of segment `i` after all segments are placed. */
  lemma SegmentZeroFill(mem: seq<byte>, hs: seq<ProgramHeader>, bias: nat, image: seq<byte>, i: nat, m: seq<byte>)
    requires AllFit(hs, bias, |image|, |mem|)
    requires i < |hs| && IsLoad(hs[i])
    requires forall k :: i < k < |hs| && IsLoad(hs[k]) ==> Disjoint(hs[k].seg, hs[i].seg, bias)
    requires m == PlaceAll(mem, hs, bias, image) && Fits(hs[i].seg, bias, |image|, |m|)
    ensures forall a :: Dest(hs[i].seg, bias) + hs[i].seg.file_size <= a < Dest(hs[i].seg, bias) + hs[i].seg.mem_size ==>
              m[a] == 0
  {
    forall a | Dest(hs[i].seg, bias) + hs[i].seg.file_size <= a < Dest(hs[i].seg, bias) + hs[i].seg.mem_size
      ensures m[a] == 0
    {
      PlaceAllSegmentAt(mem, hs, bias, image, i, a);
    }
  }

  /** One byte of segment `i` when no later `LOAD` segment overlaps it. */
  lemma PlaceAllSegmentAt(mem: seq<byte>, hs: seq<ProgramHeader>, bias: nat, image: seq<byte>, i: nat, a: nat)
    requires AllFit(hs, bias, |image|, |mem|)
    requires i < |hs| && IsLoad(hs[i])
    requires forall k :: i < k < |hs| && IsLoad(hs[k]) ==> Disjoint(hs[k].seg, hs[i].seg, bias)
    requires Dest(hs[i].seg, bias) <= a < Dest(hs[i].seg, bias) + hs[i].seg.mem_size
    ensures a < Dest(hs[i].seg, bias) + hs[i].seg.file_size ==>
              PlaceAll(mem, hs, bias, image)[a] == image[a - Dest(hs[i].seg, bias) + hs[i].seg.offset]
    ensures Dest(hs[i].seg, bias) + hs[i].seg.file_size <= a ==> PlaceAll(mem, hs, bias, image)[a] == 0
  {
    forall k | i < k < |hs| && IsLoad(hs[k])
      ensures !(Dest(hs[k].seg, bias) <= a < Dest(hs[k].seg, bias) + hs[k].seg.mem_size)
    {
      assert Disjoint(hs[k].seg, hs[i].seg, bias);
    }
    PlaceAllAt(mem, hs, bias, image, i, a);
  }

  /** A successful load writes no byte outside the `LOAD` segments' ranges. */
  lemma LoadWritesOnlySegments(f: ElfFile, image: seq<byte>, mem: seq<byte>, j: nat, a: nat)
    requires LoadSpec(Some(f), image, mem).Ok?
    requires IsFirstLoad(f.headers, j) && a < |mem|
    requires forall k :: 0 <= k < |f.headers| && IsLoad(f.headers[k]) ==>
               !(Dest(f.headers[k].seg, BiasFor(f.headers[j].seg)) <= a
                 < Dest(f.headers[k].seg, BiasFor(f.headers[j].seg)) + f.headers[k].seg.mem_size)
    ensures |LoadSpec(Some(f), image, mem).value.1| == |mem|
    ensures LoadSpec(Some(f), image, mem).value.1[a] == mem[a]
  {
    RunAnchors(mem, f.headers, image);
    RunPlacesAll(mem, f.headers, image);
    var p := Run(Progress(None, 0, mem), f.headers, image).value;
    PlaceAllUntouched(mem, f.headers, p.bias, image, a);
  }

  /** A segment of a type other than `LOAD` and `INTERP` leaves memory as it
      is and lets the load go on. */
  lemma OtherSegmentWritesNothing(p: Progress, seg: Segment, image: seq<byte>)
    requires DecodeType(seg.p_type).Some? && DecodeType(seg.p_type).value.Other?
    ensures Step(p, Ph64(seg), image).Ok?
    ensures Step(p, Ph64(seg), image).value == p
  {
  }
}
