/** The kernel proper: `memset`, the console sink `putchar`, and
    `kernel_main`, which prints a greeting one character at a time, makes two
    `printk` calls, zeroes the BSS range and then idles for ever.

    Memory is an array of bytes and addresses are indices into it. The
    linker symbols `__bss` and `__bss_end` are parameters. Everything
    `kernel_main` does that is observable from outside is recorded, in
    program order, as a trace of `Step`s. */
module Kernel {
  import opened Sbi

  /** An 8-bit byte, `uint8_t`. */
  type Byte = b: int | 0 <= b < 256

  /** The byte that storing `c` through a `uint8_t *` leaves: `c` modulo 2^8. */
  function Truncate(c: int): (b: Byte)
    ensures (c - b) % 256 == 0
  {
    c % 256
  }

  // ---------------------------------------------------------------- memset

  /** The memory image `s` after bytes [buf, buf + n) are set to `b`: the
      part before, n copies of `b`, the part after. */
  function Filled(s: seq<Byte>, buf: nat, n: nat, b: Byte): (t: seq<Byte>)
    requires buf + n <= |s|
  {
    s[..buf] + seq(n, _ => b) + s[buf + n..]
  }

  /** Byte by byte: inside [buf, buf + n) every byte is `b`, outside it every
      byte is the old one, and the length is unchanged. */
  lemma FilledAt(s: seq<Byte>, buf: nat, n: nat, b: Byte, i: int)
    requires buf + n <= |s| && 0 <= i < |s|
    ensures |Filled(s, buf, n, b)| == |s|
    ensures Filled(s, buf, n, b)[i] == if buf <= i < buf + n then b else s[i]
  {
  }

  /** A zero-length fill writes nothing. */
  lemma FilledNothing(s: seq<Byte>, buf: nat, b: Byte)
    requires buf <= |s|
    ensures Filled(s, buf, 0, b) == s
  {
  }

  /** `memset(buf, c, n)`: while the count, decremented on every test, was
      nonzero, store `c` at the cursor and advance it; return `buf`. */
  method Memset(mem: array<Byte>, buf: nat, c: int, n: nat) returns (r: nat)
    requires buf + n <= mem.Length
    modifies mem
    ensures r == buf
    ensures forall i :: buf <= i < buf + n ==> mem[i] == Truncate(c)
    ensures forall i :: 0 <= i < mem.Length && !(buf <= i < buf + n) ==> mem[i] == old(mem[i])
    ensures mem[..] == Filled(old(mem[..]), buf, n, Truncate(c))
  {
    var ptr := buf;
    var count: nat := n;
    while count != 0
      invariant ptr + count == buf + n && buf <= ptr
      invariant forall i :: 0 <= i < mem.Length ==>
        mem[i] == if buf <= i < ptr then Truncate(c) else old(mem[i])
      decreases count
    {
      count := count - 1;
      mem[ptr] := Truncate(c);
      ptr := ptr + 1;
    }
    forall i | 0 <= i < mem.Length
      ensures mem[..][i] == Filled(old(mem[..]), buf, n, Truncate(c))[i]
    {
      FilledAt(old(mem[..]), buf, n, Truncate(c), i);
    }
    r := buf;
  }

  // --------------------------------------------------------------- putchar

  /** Extension ID of the legacy SBI "Console Putchar" call. */
  const ConsolePutcharEid := 1
  /** Function ID `putchar` passes with it. */
  const ConsolePutcharFid := 0

  /** `putchar(ch)`: the registers of its single `sbi_call`. The `sbiret` is
      discarded, so these registers are all that the call leaves behind. */
  function Putchar(ch: Byte): (regs: RegFile)
    ensures Observe(regs) == Request(ConsolePutcharEid, ConsolePutcharFid, [ch, 0, 0, 0, 0, 0])
  {
    ObserveMarshal(ch, 0, 0, 0, 0, 0, ConsolePutcharFid, ConsolePutcharEid);
    Marshal(ch, 0, 0, 0, 0, 0, ConsolePutcharFid, ConsolePutcharEid)
  }

  /** `putchar` goes through the transport: for every handler, the `sbiret`
      its `sbi_call` returns (and `putchar` discards) is the reply decoded
      after trapping with `Putchar`'s registers. */
  lemma PutcharIsSbiCall(h: Handler, ch: Byte)
    ensures SbiCall(h, ch, 0, 0, 0, 0, 0, ConsolePutcharFid, ConsolePutcharEid)
         == Decode(Trap(h, Putchar(ch)))
  {
  }

  // ----------------------------------------------------------- kernel_main

  /** An argument of a `printk` call. */
  datatype PrintkArg = Str(s: string) | Int(n: int)

  /** One observable step of `kernel_main`. */
  datatype Step =
    | Ecall(regs: RegFile)                            // an `sbi_call` trap, with its registers
    | Printk(format: string, args: seq<PrintkArg>)   // a `printk` call; its output is not modelled
    | Fill(buf: nat, c: int, n: nat)                   // a `memset` call
    | Idle                                             // entry into the `wfi` loop, which never returns

  /** The steps of calling `putchar` on each byte of `cs`, in order. */
  function ConsoleTrace(cs: seq<Byte>): (t: seq<Step>)
    ensures |t| == |cs|
    ensures forall i :: 0 <= i < |cs| ==> t[i] == Ecall(Putchar(cs[i]))
  {
    if cs == [] then [] else ConsoleTrace(cs[..|cs| - 1]) + [Ecall(Putchar(cs[|cs| - 1]))]
  }

  /** Every step of a console trace is a legacy console call carrying the
      corresponding character in a0 and zero in a1..a5. */
  lemma ConsoleTraceObserved(cs: seq<Byte>, i: int)
    requires 0 <= i < |cs|
    ensures ConsoleTrace(cs)[i].Ecall?
    ensures Observe(ConsoleTrace(cs)[i].regs)
         == Request(ConsolePutcharEid, ConsolePutcharFid, [cs[i], 0, 0, 0, 0, 0])
  {
  }

  /** The characters a loop `for (i = 0; s[i] != '\0'; i++)` visits: all of
      `s` before its first NUL. */
  function CStr(s: seq<Byte>): (r: seq<Byte>)
    requires 0 in s
    ensures |r| < |s| && s[|r|] == 0
    ensures r == s[..|r|] && 0 !in r
  {
    if s[0] == 0 then [] else [s[0]] + CStr(s[1..])
  }

  /** A NUL-free string followed by its terminator reads back as itself. */
  lemma CStrOfTerminated(t: seq<Byte>)
    requires 0 !in t
    ensures CStr(t + [0]) == t
  {
  }

  /** The loop of `kernel_main` that prints a NUL-terminated string with
      `putchar`, one character per iteration, stopping at the first NUL. */
  method EmitCString(s: seq<Byte>) returns (trace: seq<Step>)
    requires 0 in s
    ensures trace == ConsoleTrace(CStr(s))
  {
    trace := [];
    var i := 0;
    while s[i] != 0
      invariant 0 <= i <= |CStr(s)|
      invariant trace == ConsoleTrace(s[..i])
      decreases |CStr(s)| - i
    {
      assert s[..i + 1][..i] == s[..i];
      trace := trace + [Ecall(Putchar(s[i]))];
      i := i + 1;
    }
  }

  /** The bytes of an 8-bit string literal. */
  function Ascii(s: string): (b: seq<Byte>)
    requires forall i :: 0 <= i < |s| ==> s[i] as int < 256
    ensures |b| == |s| && forall i :: 0 <= i < |s| ==> b[i] == s[i] as int
  {
    seq(|s|, i requires 0 <= i < |s| => s[i] as int)
  }

  /** The greeting `kernel_main` prints character by character. */
  const Greeting: string := "\n\nHello World!\n"

  /** The two `printk` calls that follow it. */
  const GreetingPrintks: seq<Step> :=
    [ Printk("\n\nHello %s\n", [Str("World!")]),
      Printk("1 + 2 = %d, %x\n", [Int(1 + 2), Int(0x1234abcd)]) ]

  /** `kernel_main`, up to the idle loop. Output comes first: the greeting,
      one legacy console call per character, then the two `printk` calls;
      after that `memset` zeroes [bss, bssEnd); last, the core parks in the
      `wfi` loop. */
  method KernelMain(mem: array<Byte>, bss: nat, bssEnd: nat) returns (trace: seq<Step>)
    requires bss <= bssEnd <= mem.Length
    modifies mem
    ensures trace == ConsoleTrace(Ascii(Greeting)) + GreetingPrintks + [Fill(bss, 0, bssEnd - bss), Idle]
    ensures forall i :: bss <= i < bssEnd ==> mem[i] == 0
    ensures forall i :: 0 <= i < mem.Length && !(bss <= i < bssEnd) ==> mem[i] == old(mem[i])
    ensures bss == bssEnd ==> mem[..] == old(mem[..])
  {
    var text := Ascii(Greeting);
    CStrOfTerminated(text);
    trace := EmitCString(text + [0]);
    trace := trace + GreetingPrintks;
    var _ := Memset(mem, bss, 0, bssEnd - bss);
    trace := trace + [Fill(bss, 0, bssEnd - bss)];
    trace := trace + [Idle];
    if bss == bssEnd {
      FilledNothing(old(mem[..]), bss, 0);
    }
  }
}
