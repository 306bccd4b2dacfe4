# A verified model of the Enarx SEV shim loader and the host control loop

Enarx runs a payload inside a keep: an isolated, hardware-protected
environment. The host creates the keep from two images, the shim and the
payload. It then re-enters the keep's thread until the payload asks to exit.
Inside the keep, the shim loads the payload's ELF segments and randomizes the
address space (ASLR). It maps the user stack and builds the initial process
stack (arguments, environment, auxiliary vector), then drops to user mode at
the payload's entry point.

This project models that core in Dafny and proves properties of the model.
The modules are:

- `Wrappers` (`wrappers.dfy`): `Option`, `Result` and `Outcome`.
- `Arch` (`arch.dfy`): the x86_64 layout constants of the shim, plus two collaborators.
  - The boot-info frame allocator is a class. It hands out the usable frames in order and never hands one out twice.
  - `OffsetPageTable::map_to` is a class over the level-1 entries. A missing level-1 table costs one frame. A mapped page fails with `PageAlreadyMapped`.
- `LoadElf` (`load_elf.dfy`): `load_elf` and `map_user_segment`.
  - The bias is fixed by the first `LOAD` segment. A segment's file bytes are copied and the rest of its memory size is zero-filled.
  - Rejected inputs: 32-bit headers, `INTERP` segments, undecodable segment types, and the unwraps that panic.
  - The methods work on a byte array. They are proved against the specification function `LoadSpec`.
- `Exec` (`exec.dfy`): `exec_elf`.
  - The random words come from RDRAND, or from fixed words in a debug build.
  - Stack base, load offset and `NEXT_MMAP` shift are derived from the third word.
  - The stack loop and the segment loop map pages into the page table.
  - The page-table flags are derived from `p_flags`.
  - The 16 `AT_RANDOM` bytes are built from the first two words.
  - The `crt0stack` builder has a type-state for its phases and is pushed in order.
  - The final branch either exits the hypervisor (null entry) or enters user mode.
- `NoStd` (`no_std.dfy`): `memcpy`, `memmove`, `memset`, `memcmp` and `bcmp`.
  - Each is a loop over one byte array whose indices play the role of raw pointers.
- `Host` (`keep_exec.dfy`): `keep_exec`.
  - The backend is an oracle with fixed replies that records the calls made on it.
  - The loop re-enters on `Continue`, returns on `Exit(code)` and propagates errors.

Bit masks on `u64` values are written as integer arithmetic:

- `x & 0xFFFFF` is `x % 2^20`;
- `(x & 0xFFFFF0_0000) >> 8` is `(x / 2^20 % 2^20) * 2^12`;
- `(x & 0xFFF_FF00_0000_0000) >> 20` is `(x / 2^40 % 2^20) * 2^20`.

Pointer arithmetic that can wrap is reduced modulo 2^64 (`Arch.Wrap64`). A
panic is an error value, and the state after it is left unconstrained.

Three behaviours of the code are worth stating outright:

- `exec.rs:121-128` maps a segment with both `PF_W` and `PF_X` writable and executable (`Exec.WritableExecutableKeepsBoth`).
- A payload without a `LOAD` segment panics at `load_addr.unwrap()` (`load_elf.rs:81`, `LoadElf.NoLoadSegmentFails`). The null-entry exit in `exec.rs:218-226` happens only when the randomized entry point wraps past 2^64 (`Exec.NullEntryOnlyOnWrap`).
- `Command` has only `Continue` and `Exit(code)` (`main.rs:130-131`).

## Model

| member | source | states |
|---|---|---|
| Arch.FrameAllocator.AllocateFrame | enarx-keep-sev-shim/src/arch/x86_64/exec.rs:50-53 | returns the next usable frame or `None` when none is left; a frame handed out is never one handed out before |
| Arch.Mapper.MapTo | enarx-keep-sev-shim/src/arch/x86_64/exec.rs:54-65 | a missing level-1 table takes one frame (failing with `FrameAllocationFailed` when there is none); an already mapped page fails with `PageAlreadyMapped` and changes nothing; otherwise exactly that page gets the new entry; existing level-1 tables are never removed |
| NoStd.ForwardCopy | enarx-keep-sev-shim/src/no_std.rs:46-53 | the forward byte loop leaves every byte outside the destination range unchanged |
| NoStd.ForwardCopyCopies | enarx-keep-sev-shim/src/no_std.rs:46-53 | when the destination does not start inside the source range, the forward loop reproduces the source bytes at the destination |
| NoStd.Memcpy | enarx-keep-sev-shim/src/no_std.rs:46-53 | memory after the loop is the forward copy of memory before; for non-overlapping ranges the destination holds the source bytes, nothing else changes, and `dest` is returned |
| NoStd.Memmove | enarx-keep-sev-shim/src/no_std.rs:57-74 | copying backwards when `src < dest` and forwards otherwise, the destination holds the ORIGINAL source bytes for every overlap; nothing else changes; `dest` is returned |
| NoStd.LowByte | enarx-keep-sev-shim/src/no_std.rs:81 | `c as u8` is the byte congruent to `c` modulo 256 |
| NoStd.Memset | enarx-keep-sev-shim/src/no_std.rs:78-85 | every byte of the range is the low byte of `c`, every other byte is unchanged, and `s` is returned |
| NoStd.Compare | enarx-keep-sev-shim/src/no_std.rs:89-100 | the difference of the first differing bytes: zero exactly when the ranges are equal, and between -255 and 255 |
| NoStd.CompareFirstDifference | enarx-keep-sev-shim/src/no_std.rs:94-95 | after an equal prefix, the first differing position decides the result as `a - b` |
| NoStd.CompareAntisymmetric | enarx-keep-sev-shim/src/no_std.rs:89-100 | swapping the arguments negates the result |
| NoStd.Memcmp | enarx-keep-sev-shim/src/no_std.rs:89-100 | the loop with its early return yields `Compare` of the two ranges: zero iff equal, sign of the first difference otherwise |
| NoStd.Bcmp | enarx-keep-sev-shim/src/no_std.rs:104-106 | the same result as `memcmp` |
| LoadElf.Place | enarx-keep-sev-shim/src/arch/x86_64/qemu_pvh/load_elf.rs:99-126 | after one `LOAD` segment the file bytes sit at `virtual_addr + bias`, the rest of `mem_size` is zero and every other byte is unchanged |
| LoadElf.MapUserSegment | enarx-keep-sev-shim/src/arch/x86_64/qemu_pvh/load_elf.rs:86-130 | the array after the call is what `SegmentEffect` prescribes: `INTERP` and undecodable types panic, `mem_size < file_size` panics, other types do nothing, and `LOAD` copies and zero-fills |
| LoadElf.VisitSegment | enarx-keep-sev-shim/src/arch/x86_64/qemu_pvh/load_elf.rs:53-74 | one loop iteration: the first `LOAD` fixes the bias and load address, then the segment is mapped |
| LoadElf.LoadElf | enarx-keep-sev-shim/src/arch/x86_64/qemu_pvh/load_elf.rs:43-83 | succeeds exactly when `LoadSpec` does, with the same triple and memory; otherwise fails with the same error |
| LoadElf.RejectedHeaderFails | enarx-keep-sev-shim/src/arch/x86_64/qemu_pvh/load_elf.rs:75 | a 32-bit header, an `INTERP` segment or an undecodable type anywhere in the table makes loading fail |
| LoadElf.RunAnchors | enarx-keep-sev-shim/src/arch/x86_64/qemu_pvh/load_elf.rs:56-65 | the bias and load address are those of the FIRST `LOAD` segment (bias 0x40_0000 when its physical address is 0); without a `LOAD` segment no load address is set |
| LoadElf.LoadResult | enarx-keep-sev-shim/src/arch/x86_64/qemu_pvh/load_elf.rs:79-83 | the entry is `entry_point + bias`, the load address is `virtual_addr + bias - offset` of the first `LOAD` segment, and the count is the number of program headers |
| LoadElf.NoLoadSegmentFails | enarx-keep-sev-shim/src/arch/x86_64/qemu_pvh/load_elf.rs:81 | a payload without a `LOAD` segment makes loading fail |
| LoadElf.RunPlacesAll | enarx-keep-sev-shim/src/arch/x86_64/qemu_pvh/load_elf.rs:51-77 | the memory after the loop is every `LOAD` segment placed in order with the one bias, and every segment fitted |
| LoadElf.PlaceAllNoLoads | enarx-keep-sev-shim/src/arch/x86_64/qemu_pvh/load_elf.rs:127 | headers that are not `LOAD` leave memory as it was |
| LoadElf.PlaceAllAt | enarx-keep-sev-shim/src/arch/x86_64/qemu_pvh/load_elf.rs:99-126 | a byte inside a segment that no later segment covers holds that segment's file byte or zero |
| LoadElf.PlaceAllUntouched | enarx-keep-sev-shim/src/arch/x86_64/qemu_pvh/load_elf.rs:99-126 | a byte outside every segment keeps its value |
| LoadElf.LoadedSegmentContents | enarx-keep-sev-shim/src/arch/x86_64/qemu_pvh/load_elf.rs:99-126 | after a successful load, a `LOAD` segment not overwritten by a later one holds its file bytes followed by zeros up to `mem_size` |
| LoadElf.LoadWritesOnlySegments | enarx-keep-sev-shim/src/arch/x86_64/qemu_pvh/load_elf.rs:51-77 | after a successful load, memory outside every segment is unchanged |
| LoadElf.OtherSegmentWritesNothing | enarx-keep-sev-shim/src/arch/x86_64/qemu_pvh/load_elf.rs:127 | a segment of another valid type changes neither memory nor the bias |
| Exec.RandomWordsCases | enarx-keep-sev-shim/src/arch/x86_64/exec.rs:24-43 | without RDRAND a debug build uses the fixed words and a release build panics; with RDRAND any failed draw panics and otherwise the three draws are used in order |
| Exec.StackStart | enarx-keep-sev-shim/src/arch/x86_64/exec.rs:45 | the stack base is page-aligned and lies in the 4 GiB window above `USER_STACK_OFFSET` |
| Exec.RandomOffset | enarx-keep-sev-shim/src/arch/x86_64/exec.rs:102 | the load offset is page-aligned and lies in the 4 GiB window above `USER_APP_OFFSET` |
| Exec.MmapShift | enarx-keep-sev-shim/src/arch/x86_64/exec.rs:104 | `NEXT_MMAP` advances by a multiple of 1 MiB below 2^40 |
| Exec.WindowsSeparate | enarx-keep-sev-shim/src/arch/x86_64/mod.rs:67-68 | the 4 GiB window of load offsets lies below the stack window, whatever the random word |
| Exec.StackPageCount | enarx-keep-sev-shim/src/arch/x86_64/exec.rs:46-48 | the stack range covers exactly 2048 pages, 8 MiB |
| Exec.SegmentFlags | enarx-keep-sev-shim/src/arch/x86_64/exec.rs:121-128 | present and user-accessible always; writable iff `PF_W`; no-execute iff not `PF_X`; no other flag |
| Exec.WritableExecutableKeepsBoth | enarx-keep-sev-shim/src/arch/x86_64/exec.rs:121-128 | a segment with `PF_W` and `PF_X` is mapped writable and executable |
| Exec.HeaderRequestsMembership | enarx-keep-sev-shim/src/arch/x86_64/exec.rs:109-137 | a header asks for virtual page `v` with entry `e` exactly when it is `PT_LOAD`, `v` minus the random offset's pages lies between the pages of `p_vaddr + load` and `p_vaddr + load + p_memsz - 1`, and `e` is that identity frame with the segment's flags |
| Exec.FirstWinsDomain | enarx-keep-sev-shim/src/arch/x86_64/exec.rs:139-155 | tolerating `PageAlreadyMapped`: the mapped pages are the old ones plus every requested page, and no existing entry changes |
| Exec.FirstWinsAgreeing | enarx-keep-sev-shim/src/arch/x86_64/exec.rs:151-154 | a page free before and requested consistently gets exactly the requested entry |
| Exec.HeaderRequestIncluded | enarx-keep-sev-shim/src/arch/x86_64/exec.rs:108-111 | every request of any header is made by the segment loop |
| Exec.RequestOrigin | enarx-keep-sev-shim/src/arch/x86_64/exec.rs:108-111 | every request the segment loop makes belongs to one header |
| Exec.SegmentRequestsPrefix | enarx-keep-sev-shim/src/arch/x86_64/exec.rs:108 | headers are processed in order: the requests of a prefix come first |
| Exec.FirstWinsAppend | enarx-keep-sev-shim/src/arch/x86_64/exec.rs:108-157 | mapping two runs of pages one after the other equals mapping them as one run |
| Exec.SegmentPageMapped | enarx-keep-sev-shim/src/arch/x86_64/exec.rs:108-156 | every page of every `PT_LOAD` segment is mapped at page plus random offset; if that page was free and no other segment covers it, it maps to the same-numbered frame with that segment's flags |
| Exec.MapStack | enarx-keep-sev-shim/src/arch/x86_64/exec.rs:46-66 | on success every stack page was unmapped, is now writable and user-accessible, and has its own newly allocated frame; other entries are unchanged; with free stack pages and two frames per page it cannot fail |
| Exec.MapHeader | enarx-keep-sev-shim/src/arch/x86_64/exec.rs:112-156 | one header's page loop applies its requests, ignoring `PageAlreadyMapped`; only `FrameAllocationFailed` stops it, and one frame per page suffices |
| Exec.MapSegments | enarx-keep-sev-shim/src/arch/x86_64/exec.rs:108-157 | the table after the loop is the old one with all segment requests applied in order, first mapping winning; only frame exhaustion fails it |
| Exec.LeBytesRoundTrip | enarx-keep-sev-shim/src/arch/x86_64/exec.rs:168-169 | reading back the in-memory bytes of a word gives the word |
| Exec.RandomBytes | enarx-keep-sev-shim/src/arch/x86_64/exec.rs:167-171 | the 16 bytes are the little-endian bytes of `r1` followed by those of `r2` |
| Exec.RandomBytesRecoverWords | enarx-keep-sev-shim/src/arch/x86_64/exec.rs:167-171 | both random words are recoverable from the `AT_RANDOM` bytes |
| Exec.StackBuilder.PushArg | enarx-keep-sev-shim/src/arch/x86_64/exec.rs:178-180 | in the argument phase a push appends an argument and changes nothing else |
| Exec.StackBuilder.PushEnv | enarx-keep-sev-shim/src/arch/x86_64/exec.rs:182 | in the environment phase a push appends a variable |
| Exec.StackBuilder.PushAux | enarx-keep-sev-shim/src/arch/x86_64/exec.rs:203 | in the auxiliary phase a push appends an entry |
| Exec.StackBuilder.Done | enarx-keep-sev-shim/src/arch/x86_64/exec.rs:181-205 | `done` moves arguments → environment → auxiliary vector → finished |
| Exec.BuildStack | enarx-keep-sev-shim/src/arch/x86_64/exec.rs:177-205 | the stack holds `/init arg1 arg2`, `LANG=C` and the sixteen auxiliary entries in order, ending with `AT_RANDOM` |
| Exec.NullEntryOnlyOnWrap | enarx-keep-sev-shim/src/arch/x86_64/exec.rs:218-226 | the unwrapped entry address is never zero; the entry pointer is null exactly when it wraps to a multiple of 2^64 |
| Exec.MapAddressSpace | enarx-keep-sev-shim/src/arch/x86_64/exec.rs:45-157 | the stack is mapped first, then `NEXT_MMAP` advances by the shift, then the segments are mapped over the table the stack left; with a free stack and enough frames it cannot fail |
| Exec.EnterPayload | enarx-keep-sev-shim/src/arch/x86_64/exec.rs:159-226 | the process stack is `InitialStack` with the 16 `AT_RANDOM` bytes of `r1` and `r2`; a null entry point exits the hypervisor with `Success`, any other enters user mode there with `sp` and argument 0 |
| Exec.ExecWithWords | enarx-keep-sev-shim/src/arch/x86_64/exec.rs:45-226 | given the words: the stack is mapped, then the segments; `NEXT_MMAP` advances; the process stack is `InitialStack`; a null entry exits the hypervisor with `Success`, otherwise user mode is entered at the entry with `sp` and argument 0; only map errors panic, and with enough frames and a free stack none does |
| Exec.ExecElf | enarx-keep-sev-shim/src/arch/x86_64/exec.rs:17-227 | a missing or failed RDRAND panics before anything is mapped; otherwise the effects of `ExecWithWords` on the drawn words |
| Exec.MmapCursor.constructor | enarx-keep-sev-shim/src/arch/x86_64/mod.rs:66 | `NEXT_MMAP` starts at 0x5555_0000_0000 |
| Host.Backend.Keep | src/main.rs:126 | creating the keep records the call and yields the backend's reply |
| Host.Backend.SpawnThread | src/main.rs:127 | spawning records the call and yields the backend's reply |
| Host.Backend.EnterThread | src/main.rs:129 | each `enter` records the call and yields the next reply |
| Host.FirstStop | src/main.rs:128-133 | the first reply that is not `Ok(Continue)`, with only `Continue`s before it; `None` when all are `Continue` |
| Host.EnterCount | src/main.rs:128-133 | `enter` is called at most once per reply |
| Host.KeepExec | src/main.rs:120-134 | the result is `KeepExecResult` of the replies, and the calls made are exactly create keep, spawn, then one `enter` per reply up to the first stop, and the backend's reply cursor advances by that number of `enter` calls |
| Host.FirstStopAt | src/main.rs:128-133 | the first stop is the first reply after a run of `Continue`s that is not `Continue` |
| Host.ContinueOnlyReenters | src/main.rs:130 | a leading `Continue` costs one more `enter` and changes nothing else |
| Host.ExitReturnsItsCode | src/main.rs:131 | the first `Exit(code)` makes `keep_exec` return `Ok(code)` after exactly that many `enter`s |
| Host.EnterErrorPropagates | src/main.rs:129 | an error from `enter` is returned after that many `enter`s |
| Host.ReturnedCodeCameFromExit | src/main.rs:126-133 | `Ok(code)` is returned only if keep and spawn succeeded and the last `enter` returned `Exit(code)` after only `Continue`s |

## Left out

- Parsing: `ElfFile::new` and `sanity_check` (`load_elf.rs:43-44`) are an input, `Option<ElfFile>`, where `None` means a parse failure. xmas_elf's parser is not part of this model.
- Address canonicality: `VirtAddr::new` panics on non-canonical addresses, and integer additions and casts (`u64`, `i64`: `virtual_addr as i64 + elf_dyn_offset` and `entry_point as i64 + elf_dyn_offset` in `load_elf.rs:62,80`, `p_vaddr + load + p_memsz - 1` in `exec.rs:113`) panic or wrap on overflow. Neither is modelled. Addresses are unbounded integers, except where `Wrap64` reduces them.
- Direct map: the shim reads and writes physical memory through `PHYSICAL_MEMORY_OFFSET`. The loader's memory is one byte array indexed by `virtual_addr + bias`.
- LoadElf.LoadElf: the payload image is a separate, unchanging byte sequence. In the source, the image and the program-header table (`load_elf.rs:36-47`, read lazily by `program_iter()`) lie in the same direct-mapped memory the segments are copied into (`load_elf.rs:103-118`). A `LOAD` destination that overlaps the image would change the bytes and headers later segments are read from; that aliasing is not modelled.
- LoadElf.LoadedSegmentContents: for the same reason it, like `LoadElf.RunPlacesAll`, also holds for payloads whose segments overwrite the image, where the source would copy already-overwritten bytes.
- Out-of-range copies: a copy or fill outside the image or the memory is undefined behaviour in the source. The model reports it as the error `Fault`.
- Page tables above level 1 and huge pages (`ParentEntryHugePage`, and allocations of level-4 to level-2 tables) are not modelled. Neither are TLB flushes.
- Output: `eprintln!` logging, `exit_hypervisor` and `usermode` do not return. They are modelled as the final outcome.
- Exec.ExecElf: does not model the byte layout that `crt0stack` writes into the 8 MiB stack, nor its `OutOfSpace` error. The stack is the sequence of pushed items, and `sp` is an input.
- Hardware inputs: RDRAND and CPUID are inputs (`rdrand`, `debug`, `hwcap`).
- Exec.ExecElf: the ELF header and program headers read back from the loaded image are an input (`ElfView`). The two parameters `exec_elf` ignores (`_app_entry_point`, `_app_phnum`) are not modelled.
- Exec.MapStack: does not say when a frame runs out part-way; failure only says that mapping stopped.
- Exec.MmapCursor: only the advance of `NEXT_MMAP` is modelled. Its later use by the shim's `mmap` is not part of this model.
- Host.KeepExec: the backend is an oracle with finitely many `enter` replies. When they run out the model ends in `Pending`; the source would go on looping.
- `main()`: CLI parsing, logging, file-descriptor checks, mapping the binary and `process::exit` are not modelled. The shim and the payload are byte sequences.
- Bit masks: `Exec.StackStart`, `Exec.RandomOffset` and `Exec.MmapShift` state the masks as integer division and remainder. The equivalence with the bit operations is not proved.
