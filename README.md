# ArceOS console I/O, trap dispatch and VirtIO glue, in Dafny

This project models four pieces of the ArceOS kernel's I/O and device layer:

- **Console adapters** (`stdio.rs`).
  - Console input is read into a caller's buffer, with every `\r` rewritten to `\n`.
  - `StdinRaw` drains the UART until the buffer is full or a hardware read comes back empty.
  - The `Stdin` handle blocks until at least one byte arrives. It keeps a one-byte lookahead that `poll` fills and the next read hands over first.
  - `Stdout` writes straight to the console.
  - Both adapters give fixed `stat` and wrong-direction (EPERM) answers. Both always poll as writable; `Stdout` never polls as readable, while `Stdin`'s readability depends on the input.
- **POSIX entry points** (`io.rs`, the build without the descriptor table).
  - `read` and `write` check for a null buffer, then route descriptor 0 to stdin and descriptors 1 and 2 to stdout.
  - `readv` and `writev` check `iocnt` against 1024, walk the elements in order with a running total, and stop at the first short element.
- **Trap dispatch** (`trap.rs`). Each trap kind (`IRQ`, `PAGE_FAULT`) has its own ordered handler list. A trap goes to the first handler, with a warning when there are several and a `false` answer when there are none.
- **VirtIO glue** (`virtio.rs`).
  - The per-driver MMIO probe decides between no transport, wrong device type, constructor failure and a new device.
  - The boot loop registers at most one device per configured MMIO region.
  - The DMA bridge (`VirtIoHal`) sits between the VirtIO drivers and the page allocator and address translation.

Hardware and foreign code are replaced as follows:

- **The UART** (`ConsoleHw`) is a receive FIFO plus a finite schedule of bursts still to arrive. One burst lands before each hardware read. The transmit side is an output log.
- **A blocking read that could wait forever** returns `None`. That happens exactly when nothing is pending and nothing is left to arrive.
- **The transport handshake, the drivers' `try_new` constructors and the page allocator's answers** are parameters.
- **Address translation** is a fixed linear offset on 64-bit addresses.

Files:

- `common.dfy`: machine integers, `Option`/`Result`, Linux errno values, and the `syscall_body!` convention (an error becomes its negated errno).
- `console_hw.dfy`: the UART stand-in and the `Console` object holding its state.
- `stdio.dfy`: the console adapters. The specification functions are `RawRead`, `Retry`, `BlockedRead`, `PollProbe` and `Pending`. The `Stdin` and `Stdout` classes are proved against them.
- `io.dfy`: routing, `sys_read`/`sys_write`, and the vectored loops, proved against the specification functions `Writev` and `Readv`.
- `trap.dfy`: handler selection.
- `virtio.dfy`: the probe decision, the `AllDevices` boot loop and the DMA bridge.

## Model

| member | source | states |
|---|---|---|
| Common.AsIsize | api/arceos_posix_api/src/imp/io.rs:95 | `len as isize` is the `isize` (between -2^63 and 2^63 - 1) congruent to the length modulo 2^64, i.e. the value with the same bit pattern |
| Common.SyscallRet | api/arceos_posix_api/src/imp/io.rs:15-30 | a success value is returned as is; an error becomes its negated (strictly negative) errno |
| Stdio.CrToLfSpec | api/arceos_posix_api/src/imp/stdio.rs:14-18 | after normalisation no `\r` is left, each `\r` became `\n` and every other byte is unchanged |
| Stdio.CrToLfAppend | api/arceos_posix_api/src/imp/stdio.rs:14-18 | normalising chunk by chunk gives the same bytes as normalising the whole stream |
| Stdio.CrToLfIdempotent | api/arceos_posix_api/src/imp/stdio.rs:14-18 | normalising twice is the same as normalising once |
| Stdio.CrToLfInPlace | api/arceos_posix_api/src/imp/stdio.rs:14-18 | the in-place loop rewrites each byte of the received prefix by the `\r`→`\n` rule and leaves every other byte of the array as it was |
| Stdio.ConsoleReadBytes | api/arceos_posix_api/src/imp/stdio.rs:9-20 | returns the hardware count; the slice then holds the received bytes normalised, followed by zeros from the copied-back kernel buffer; nothing before the slice changes and nothing is written to the console |
| Stdio.ConsoleWriteBytes | api/arceos_posix_api/src/imp/stdio.rs:22-25 | the bytes reach the console unmodified and their count is returned |
| Stdio.RawReadStream | api/arceos_posix_api/src/imp/stdio.rs:32-42 | the raw read returns a prefix of the input stream and leaves exactly the rest: no byte lost, reordered or invented |
| Stdio.RawReadShort | api/arceos_posix_api/src/imp/stdio.rs:34-40 | a raw read that leaves the buffer partly unfilled stopped because the FIFO was empty; a raw read never adds to the schedule of bursts still to arrive, and consumes at least one burst when any is left |
| Stdio.RawReadOne | api/arceos_posix_api/src/imp/stdio.rs:160-162 | a one-byte probe finds a byte exactly when one is received or lands now, and it is the next byte of the stream |
| Stdio.StdinRawRead | api/arceos_posix_api/src/imp/stdio.rs:32-42 | the draining loop returns the specified raw-read count (at most the slice length), leaves the UART in the specified state and stores the normalised bytes at the front of the slice |
| Stdio.RetrySpec | api/arceos_posix_api/src/imp/stdio.rs:89-95 | the retry loop ends exactly when some input is still to come, and then delivers between 1 and `buf.len()` bytes from the front of the stream |
| Stdio.BlockedReadSpec | api/arceos_posix_api/src/imp/stdio.rs:68-96 | an empty buffer gets 0 and leaves UART and lookahead alone; otherwise the read delivers 1 to `buf.len()` bytes that are a prefix of what is pending, the held byte first, and it waits forever exactly when nothing is pending |
| Stdio.PollProbeSpec | api/arceos_posix_api/src/imp/stdio.rs:158-173 | readable exactly when a byte is received or lands now; the probed byte becomes the lookahead, replacing an older one, which is lost; with nothing held, nothing pending is lost |
| Stdio.PollThenRead | api/arceos_posix_api/src/imp/stdio.rs:158-173 | whether or not a byte was held before, a byte that `poll` reports is the first byte the next read of a non-empty buffer delivers |
| Stdio.PollTwiceLosesByte | api/arceos_posix_api/src/imp/stdio.rs:163-167 | two polls in a row on input "AB" leave only 'B' pending: the byte taken by the first poll is overwritten (see Findings) |
| Stdio.PollProbeHeldKeepsPending | api/arceos_posix_api/src/imp/stdio.rs:158-173 | the corrected probe, which does not read while a byte is held, never loses pending input and is readable exactly when a byte is held, received or landing (see Findings) |
| Stdio.Stdin.constructor | api/arceos_posix_api/src/imp/stdio.rs:120-126 | a fresh handle on the console holds no lookahead byte |
| Stdio.Stdin.ReadBlocked | api/arceos_posix_api/src/imp/stdio.rs:68-96 | returns the count of `BlockedRead` on the old lookahead and UART, stores those bytes at the front of the buffer, and empties the lookahead unless the buffer is empty |
| Stdio.Stdin.ReadHeld | api/arceos_posix_api/src/imp/stdio.rs:75-87 | the held byte goes to `buf[0]` and the lookahead is cleared; one raw read fills `buf[1..]`, and the result counts both |
| Stdio.Stdin.ReadFresh | api/arceos_posix_api/src/imp/stdio.rs:84-95 | with nothing held, raw reads of the whole buffer are retried until one yields bytes, as `Retry` specifies |
| Stdio.Stdin.RetryPass | api/arceos_posix_api/src/imp/stdio.rs:90-93 | one retry: a successful raw read is the result `Retry` specifies, with its bytes in the buffer; an empty one consumes a burst and leaves the rest of the retry unchanged, or proves the retry never succeeds when none is left |
| Stdio.Stdin.Poll | api/arceos_posix_api/src/imp/stdio.rs:158-173 | always writable; readability, lookahead and UART are as `PollProbe` specifies |
| Stdio.Stdin.Write | api/arceos_posix_api/src/imp/stdio.rs:140-142 | writing to stdin is EPERM |
| Stdio.Stdin.Stat | api/arceos_posix_api/src/imp/stdio.rs:144-152 | inode 1, one link, a character device readable by owner and group only, with no setuid, setgid or sticky bit and nothing above the file-type bits, i.e. exactly mode 0o20440 |
| Stdio.Stdin.SetNonblocking | api/arceos_posix_api/src/imp/stdio.rs:175-177 | accepted |
| Stdio.Stdout.constructor | api/arceos_posix_api/src/imp/stdio.rs:129-132 | a handle on the console |
| Stdio.Stdout.Write | api/arceos_posix_api/src/imp/stdio.rs:109-112 | every byte is appended to the console output and the whole length is returned |
| Stdio.Stdout.Read | api/arceos_posix_api/src/imp/stdio.rs:182-184 | reading from stdout is EPERM |
| Stdio.Stdout.Stat | api/arceos_posix_api/src/imp/stdio.rs:190-198 | inode 1, one link, a character device writable by owner and group only, with no setuid, setgid or sticky bit and nothing above the file-type bits, i.e. exactly mode 0o20220 |
| Stdio.Stdout.Poll | api/arceos_posix_api/src/imp/stdio.rs:204-209 | never readable, always writable |
| Stdio.Stdout.SetNonblocking | api/arceos_posix_api/src/imp/stdio.rs:211-213 | accepted |
| Io.RouteSpec | api/arceos_posix_api/src/imp/io.rs:16-47 | a null buffer is EFAULT whatever the descriptor; only 0 is readable and only 1 and 2 are writable; the wrong direction on 0–2 is EPERM; any other descriptor is EBADF |
| Io.ReadOutcomeSpec | api/arceos_posix_api/src/imp/io.rs:13-31 | an error returns its negated errno and leaves the console alone; a read of stdin returns the number of bytes delivered, at least 1 for a non-empty buffer, and they are the next pending bytes in order |
| Io.SysRead | api/arceos_posix_api/src/imp/io.rs:13-31 | the return value and console state are those of `ReadOutcome`, for descriptor 0 the buffer holds the delivered bytes, and on every other descriptor the buffer is left as it was |
| Io.WriteAllOrNothing | api/arceos_posix_api/src/imp/io.rs:33-48 | a write succeeds exactly for a non-null buffer on 1 or 2, and then writes every byte and returns the count; an error writes nothing |
| Io.WriteImpl | api/arceos_posix_api/src/imp/io.rs:33-48 | returns `WriteResult` and appends `Written` to the console, leaving input alone |
| Io.SysWrite | api/arceos_posix_api/src/imp/io.rs:53-56 | the negated-errno form of `write_impl`, with the same console effect |
| Io.WritevStdout | api/arceos_posix_api/src/imp/io.rs:66-77 | on stdout, writev writes the elements in order up to the first null base; it returns their total length, or EFAULT (with the earlier bytes still written) when a null base is met |
| Io.WritevElsewhere | api/arceos_posix_api/src/imp/io.rs:69 | on any other descriptor, the first element's error is the whole result and nothing is written |
| Io.SysWritev | api/arceos_posix_api/src/imp/io.rs:59-79 | `iocnt` outside [0, 1024] is EINVAL and writes nothing; otherwise the return value and output are those of the loop specification `Writev` over the first `iocnt` elements |
| Io.VectoredEmpty | api/arceos_posix_api/src/imp/io.rs:66-100 | with no elements both vectored calls return 0 and move no byte |
| Io.ReadvFails | api/arceos_posix_api/src/imp/io.rs:91-97 | a failing element ends readv at once with its negated errno as the total, unless its length, as an `isize`, is at or below the negated errno, in which case the error is added to the total and the loop goes on |
| Io.ReadvStdin | api/arceos_posix_api/src/imp/io.rs:89-99 | readv of stdin delivers, element after element, the next pending bytes in order and returns their count |
| Io.SysReadv | api/arceos_posix_api/src/imp/io.rs:82-102 | `iocnt` outside [0, 1024] is EINVAL and leaves the console and every element buffer as they were; otherwise the return value and console state are those of the loop specification `Readv` over the first `iocnt` elements |
| Trap.HandleTrap | modules/axhal/src/trap.rs:17-30 | with no handler: `false`, a "no handler" warning and no call; otherwise exactly the first handler is called and its answer returned, with a warning exactly when there are two or more |
| Trap.FirstHandlerDecides | modules/axhal/src/trap.rs:20-25 | handlers after the first are never consulted: replacing them changes nothing |
| Trap.HandleIrq | modules/axhal/src/trap.rs:10-11 | an IRQ is dispatched over the `IRQ` list: `false` when empty, otherwise the first handler's answer for the IRQ number |
| Trap.HandlePageFault | modules/axhal/src/trap.rs:14-15 | a page fault is dispatched over the `PAGE_FAULT` list with address, flags and user bit |
| Trap.KindsSeparate | modules/axhal/src/trap.rs:9-15 | what is registered for one trap kind never changes how the other is dispatched |
| Virtio.TranslationRoundTrip | modules/axdriver/src/virtio.rs:80 | the physical-to-virtual and virtual-to-physical translations undo each other |
| Virtio.ProbeMmioSpec | modules/axdriver/src/virtio.rs:79-100 | no transport, a transport of another type and a constructor failure each give `None`, each under exactly its condition; `Some(dev)` exactly when the types match and `try_new` succeeds, and `dev` is what `try_new` built |
| Virtio.ProbeMmioIgnoresTryNew | modules/axdriver/src/virtio.rs:84-85 | with no transport or a type mismatch the outcome is the same whatever the constructor would do, so `try_new` is not called |
| Virtio.FirstProbeSpec | modules/axdriver/src/virtio.rs:142-153 | drivers are tried in order and the first that yields a device decides; when none does, the region stays empty |
| Virtio.OnlyMatchingDriver | modules/axdriver/src/virtio.rs:142-153 | with one driver per device type, only the driver of the type found can yield the device, so a constructor failure leaves the region empty |
| Virtio.ProbeAllSpec | modules/axdriver/src/virtio.rs:141-154 | at most one device per region, and the devices appear in region order (probing two lists in turn equals probing their concatenation) |
| Virtio.AllDevices.AddDevice | modules/axdriver/src/virtio.rs:150 | a device is registered after those already present |
| Virtio.AllDevices.ProbeVirtioDevices | modules/axdriver/src/virtio.rs:139-155 | the nested loop appends exactly `ProbeAll` over the configured regions to the registered devices |
| Virtio.DmaAllocSpec | modules/axdriver/src/virtio.rs:106-115 | allocator failure gives the sentinel (0, dangling); success gives the pointer and a physical address that translates back to it; only a null page panics |
| Virtio.DmaDeallocSpec | modules/axdriver/src/virtio.rs:117-120 | always returns 0, frees by pointer and page count, and ignores the physical address |
| Virtio.ShareSpec | modules/axdriver/src/virtio.rs:122-134 | `share` gives the device an address that maps back to the buffer; `mmio_phys_to_virt` inverts it and panics only on a null result; `unshare` changes nothing |

## Left out

- The UART hardware (`axhal::console::read_bytes`/`write_bytes`) is not part of this model. It is replaced by a receive FIFO, a finite burst schedule and an output log.
- The `axio::BufReader` around `StdinRaw` is not part of this model. Reads go to `StdinRaw` directly; its internal buffering is not visible in this source.
- Blocking: input that never arrives is modelled by a finite burst schedule. A read that would spin forever returns `None` instead of looping without end.
- `sys_sched_yield` between retries has no effect in the model.
- The `Mutex` locks are left out: one thread is modelled.
- Each `read`/`write` call builds a fresh `Stdin`/`Stdout` handle on one shared console object, as `stdin()`/`stdout()` do. So in these entry points no lookahead byte is ever held.
- The descriptor-table build (`get_file_like`, feature `fd`) is not part of this model. Only the fixed routing of descriptors 0–2 is modelled.
- `into_any`, the `flush` of `Stdout`, and the logging (`warn!`, `info!`, `debug!`) are left out.
- `Io.SysReadv`: for an `iocnt` in range, the contents of the element buffers after the call are not stated. Elements may alias the same array, so only the return value and the console state are specified. `Io.ReadvStdin` states which bytes are delivered, in order.
- `Io.SysWritev`, `Io.SysReadv`: a running total that would overflow `isize` is not modelled. Totals are unbounded integers.
- Raw-pointer slices are arrays (`array?`, null for a null pointer) or optional sequences. Their length is the pointer's `count`.
- `sys_pread64` is commented out in the source and has no behaviour.
- `ulib/c_libax/src/stdlib.c` is not part of this model. It only forwards to functions outside this model.
- `Trap`: the link-time registration (`linkme::distributed_slice`) is modelled as fixed ordered lists. The meaning of `MappingFlags` is not modelled.
- `Virtio`: the transport handshake and the drivers' constructors are parameters. The `for_each_drivers!` expansion is a fixed ordered list of drivers. `add_device` appends to one ordered list instead of per-kind containers.
- `Virtio`: the page allocator's answer is a parameter, and `phys_to_virt`/`virt_to_phys` are a linear offset wrapping modulo 2^64.
- `Virtio`: a constructor failure does not stop the inner loop. The next driver is still tried on the same region. After a `try_new` failure `probe_mmio` returns `None` and `probe_virtio_devices` goes on with the next driver on the same region (modules/axdriver/src/virtio.rs:87-94, 142-153); `Virtio.OnlyMatchingDriver` shows that with one driver per device type no other driver can match, so the region stays empty.
- `Virtio`: `NonNull::new(..).unwrap()` in `dma_alloc` and `mmio_phys_to_virt` panics on a null address; the model returns `Panics` there rather than leaving the case out.

## Findings

| source | as written | input that shows it | evidently intended | confidence | as-written member | corrected member |
|---|---|---|---|---|---|---|
| api/arceos_posix_api/src/imp/stdio.rs:158-173 | `poll` always takes a byte from the console when one is there and stores it as the lookahead, overwriting a byte that is already held | input "AB", then two `poll` calls before any read: the first holds 'A', the second replaces it by 'B', and 'A' is never delivered | a held byte already makes stdin readable, so `poll` takes no further byte while `available` is set | not executed; high, since the lookahead exists so that polled input is not lost | Stdio.PollTwiceLosesByte (on `Stdio.PollProbe`) | Stdio.PollProbeHeldKeepsPending (on `Stdio.PollProbeHeld`) |

`Stdio.Stdin.Poll` still follows the code as written, so that the rest of the model describes the program as it is. `Stdio.PollProbeHeld` is the corrected probe, and its property is proved separately.
