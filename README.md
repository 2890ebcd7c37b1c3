# A model of a minimal RISC-V kernel's SBI transport and startup routine

This project models the C core of a tiny bare-metal RISC-V kernel (`kernel.c`) and proves properties of the model in Dafny.

- **Memory fill.** `memset` fills a byte range in place and returns its start address. Memory is an `array<Byte>`, and an address is an index into it.
- **SBI transport.** `sbi_call` issues a Supervisor Binary Interface call. It pins its eight operands to the argument registers a0..a7 and executes `ecall`. It then packages a0 (error) and a1 (value) into `struct sbiret`. The layout follows the binary encoding of the RISC-V SBI, v0.2 and later: EID in a7, FID in a6, arguments in a0..a5.
  - The register file is a sequence of eight integers indexed by register number.
  - The firmware behind `ecall` is a parameter: any function from the register file to the pair it leaves in a0 and a1.
  - `Observe` is the firmware's side of the encoding. The round-trip lemmas tie it to the marshaling.
- **Console sink.** `putchar` makes one legacy "Console Putchar" call: EID 1, FID 0, the character in a0 and zero in a1..a5. Its result is discarded.
- **Startup routine.** `kernel_main` runs these steps, in the order the code has them:
  1. It prints `"\n\nHello World!\n"` with a `for` loop that calls `putchar` until the NUL.
  2. It makes two `printk` calls.
  3. It zeroes the BSS range `[__bss, __bss_end)` with `memset`.
  4. It parks in a `wfi` loop.

  The model returns the observable steps as a trace of `Step` values: `Ecall(regs)` for each SBI trap, `Printk(format, args)`, `Fill(buf, c, n)` for the `memset` call, and `Idle`. The memory array is changed in place.

The source's own comment (kernel.c:105-107) says boot code should zero BSS before `main()` runs. `kernel_main` zeroes it at kernel.c:113, after the output at kernel.c:88-93. The model follows the code, and `KernelMain`'s trace states that order.

Files: `sbi.dfy` (module `Sbi`, the transport) and `kernel.dfy` (module `Kernel`: `memset`, `putchar`, `kernel_main`).

## Model

| member | source | states |
|---|---|---|
| `Sbi.Marshal` | kernel.c:36-43 | arg0..arg5 occupy registers a0..a5 in order, fid occupies a6 and eid occupies a7 |
| `Sbi.Observe` | kernel.c:28-34 | the firmware's reading of a call under the SBI encoding: EID is a7, FID is a6, and the six arguments are a0..a5 in order |
| `Sbi.ObserveMarshal` | kernel.c:28-43 | firmware reading the marshaled registers by the SBI encoding recovers exactly the call made: EID = eid, FID = fid, arguments = [arg0..arg5] |
| `Sbi.MarshalObserve` | kernel.c:36-43 | every register file is the marshaling of the request decoded from it, so no slot is dropped or used twice |
| `Sbi.Trap` | kernel.c:63-69 | the ecall leaves the handler's reply in a0 and a1 and leaves a2..a7 (inputs only) unchanged |
| `Sbi.Decode` | kernel.c:72 | `struct sbiret` holds a0 and a1 exactly: writing `.error` back into a0 and `.value` into a1 reproduces the registers |
| `Sbi.DecodeTrap` | kernel.c:65-72 | after the trap, `struct sbiret` carries the handler's a0 as `.error` and its a1 as `.value` |
| `Sbi.DecodeReadsResultRegisters` | kernel.c:72 | the result is read from a0 and a1 only; registers that agree there decode to the same `sbiret` |
| `Sbi.SbiCall` | kernel.c:22-73 | for every handler, the result is the handler's (a0, a1) reply to the register file [arg0..arg5, fid, eid]; a nonzero error is returned as data, with no check or retry |
| `Sbi.SbiCallDependsOnlyOnMarshaledRegs` | kernel.c:63-72 | the result depends on the handler only through its reply to the marshaled registers: two handlers that agree there give the same result |
| `Kernel.Truncate` | kernel.c:15 | the byte stored through a `uint8_t *` lies in 0..255 and is congruent to `c` modulo 256 |
| `Kernel.FilledAt` | kernel.c:13-15 | the fill specification keeps the length; every byte in [buf, buf+n) is the fill byte and every other byte is unchanged |
| `Kernel.FilledNothing` | kernel.c:14 | a fill of length zero leaves memory unchanged |
| `Kernel.Memset` | kernel.c:12-17 | returns `buf`; bytes in [buf, buf+n) equal `c` truncated to 8 bits; all other bytes are unchanged; the new memory equals the fill specification of the old |
| `Kernel.Putchar` | kernel.c:81-83 | `putchar(ch)` traps with a call the firmware decodes as EID 1, FID 0, arguments [ch, 0, 0, 0, 0, 0] |
| `Kernel.PutcharIsSbiCall` | kernel.c:82 | for every handler, the discarded result of `putchar`'s `sbi_call(ch, 0, 0, 0, 0, 0, 0, 1)` is the reply decoded after trapping with `Putchar`'s registers |
| `Kernel.ConsoleTrace` | kernel.c:88-90 | printing a byte string yields one trap per byte, in index order, each carrying the `putchar` registers of that byte |
| `Kernel.ConsoleTraceObserved` | kernel.c:82-89 | every step of a console trace is a legacy console putchar call carrying the corresponding character |
| `Kernel.CStr` | kernel.c:88 | the characters a NUL-terminated loop visits form a NUL-free prefix of the string, and the byte right after that prefix is NUL |
| `Kernel.CStrOfTerminated` | kernel.c:86-88 | a NUL-free string followed by its terminator reads back as exactly that string |
| `Kernel.EmitCString` | kernel.c:88-90 | the loop's trace is one console trap per character before the first NUL, in order |
| `Kernel.Ascii` | kernel.c:86 | the bytes of the greeting literal: one byte per character, each equal to that character's code |
| `Kernel.KernelMain` | kernel.c:85-121 | the trace is the greeting's 15 putchar calls, the two printk calls, the BSS fill, then Idle; bytes in [bss, bss_end) become 0 and all others are unchanged; an empty BSS range writes nothing |

## Left out

- `boot` (kernel.c:144-153) is not modelled. It is a naked asm stub that loads `__stack_top` into `sp` and jumps to `kernel_main`, so it has no data-level behaviour to state. Its section placement belongs to the linker.
- The firmware behind `ecall` is not modelled. It is an arbitrary handler parameter, a pure function of the registers, so the model also does not capture its side effects on the console or on memory.
- The `"memory"` clobber (kernel.c:68) is not modelled. It only orders code generation, which has no counterpart in a sequential model.
- `printk` is not part of this model. Its definition is in another file, so its two calls are recorded as opaque `Printk` steps with their format strings and arguments, and the characters they would print are not modelled.
- The `wfi` loop (kernel.c:118-120) is modelled as a final `Idle` step. `KernelMain` returns there, while the real loop never exits.
- The linker symbols `__bss`, `__bss_end` and `__stack_top` are not modelled as an address layout. `__bss` and `__bss_end` are parameters with `bss <= bss_end <= memory length`, and `__stack_top` only appears in `boot`.
- Register width is not modelled. Registers hold unbounded integers rather than 32-bit `long`s.
- `putchar` takes its character as a byte in 0..255, so the signedness of `char` and its widening to `long` are not modelled.
- `memset` is not modelled as raw pointers. Its `buf` is an array index and its `n` is unbounded, limited only by the memory's length, so `size_t` wrap-around is not modelled. The final decrement of `n` after the loop test fails has no observable effect and is not modelled.
- The legacy console FID is fixed at 0, as `putchar` passes it. Firmware variants that expect 1 are not modelled.
