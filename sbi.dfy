/** The SBI transport of the kernel: `sbi_call` places its eight operands in
    the RISC-V argument registers a0..a7, executes `ecall`, and reads the
    firmware's answer back from a0 (error) and a1 (value).

    The register layout is the binary encoding of the RISC-V Supervisor
    Binary Interface (v0.2 and later): the extension ID goes in a7, the
    function ID in a6, the call arguments in a0..a5, and the result comes
    back as error in a0 and value in a1. The firmware on the other side of
    `ecall` is not modelled: it is a parameter, an arbitrary function from
    the register file to the pair it leaves in a0 and a1. */
module Sbi {

  /** Register numbers of the argument registers, as indices into a `RegFile`. */
  const A0: nat := 0
  const A1: nat := 1
  const A2: nat := 2
  const A3: nat := 3
  const A4: nat := 4
  const A5: nat := 5
  const A6: nat := 6
  const A7: nat := 7

  /** The eight argument registers a0..a7, indexed by register number. Each
      holds a `long`; its width is not modelled. */
  type RegFile = r: seq<int> | |r| == 8 witness [0, 0, 0, 0, 0, 0, 0, 0]

  /** `struct sbiret`: the status code and the return value of one call. */
  datatype SbiRet = SbiRet(error: int, value: int)

  /** A call as the firmware decodes it from the registers. */
  datatype Request = Request(eid: int, fid: int, args: seq<int>)

  /** The privileged handler behind `ecall`: given the registers at the trap,
      the pair (error, value) it leaves in a0 and a1. */
  type Handler = RegFile -> (int, int)

  /** The register variables of `sbi_call`: arg0..arg5 pinned to a0..a5,
      fid to a6 and eid to a7. */
  function Marshal(arg0: int, arg1: int, arg2: int, arg3: int, arg4: int,
                   arg5: int, fid: int, eid: int): (regs: RegFile)
    ensures regs[A0] == arg0 && regs[A1] == arg1 && regs[A2] == arg2
    ensures regs[A3] == arg3 && regs[A4] == arg4 && regs[A5] == arg5
    ensures regs[A6] == fid && regs[A7] == eid
  {
    [arg0, arg1, arg2, arg3, arg4, arg5, fid, eid]
  }

  /** How the firmware reads a call out of the registers under the SBI
      binary encoding: EID from a7, FID from a6, six arguments from a0..a5. */
  function Observe(regs: RegFile): (req: Request)
    ensures req.eid == regs[A7] && req.fid == regs[A6]
    ensures |req.args| == 6 && forall i :: 0 <= i < 6 ==> req.args[i] == regs[A0 + i]
  {
    Request(regs[A7], regs[A6], regs[A0..A6])
  }

  /** The firmware sees exactly the call `sbi_call` was given: every operand
      lands in the slot the SBI encoding reads it from. */
  lemma ObserveMarshal(arg0: int, arg1: int, arg2: int, arg3: int, arg4: int,
                       arg5: int, fid: int, eid: int)
    ensures Observe(Marshal(arg0, arg1, arg2, arg3, arg4, arg5, fid, eid))
         == Request(eid, fid, [arg0, arg1, arg2, arg3, arg4, arg5])
  {
  }

  /** Conversely, every register file is the marshaling of the request the
      firmware decodes from it: no slot is left out or used twice. */
  lemma MarshalObserve(regs: RegFile)
    ensures var req := Observe(regs);
      Marshal(req.args[0], req.args[1], req.args[2], req.args[3], req.args[4],
              req.args[5], req.fid, req.eid) == regs
  {
  }

  /** The `ecall` itself. The handler sees the registers as marshaled; its
      reply overwrites a0 and a1, the two outputs of the asm statement. The
      registers a2..a7 are inputs only and keep their values. */
  function Trap(h: Handler, regs: RegFile): (post: RegFile)
    ensures post[A0] == h(regs).0 && post[A1] == h(regs).1
    ensures post[A2..] == regs[A2..]
  {
    var reply := h(regs);
    regs[A0 := reply.0][A1 := reply.1]
  }

  /** Packaging the registers after the trap into `struct sbiret`. The
      result holds a0 and a1 exactly: writing its error back into a0 and its
      value into a1 gives the registers back unchanged. */
  function Decode(regs: RegFile): (ret: SbiRet)
    ensures regs[A0 := ret.error][A1 := ret.value] == regs
  {
    SbiRet(regs[A0], regs[A1])
  }

  /** Decoding after a trap yields exactly the handler's reply: error from
      a0, value from a1. */
  lemma DecodeTrap(h: Handler, regs: RegFile)
    ensures Decode(Trap(h, regs)) == SbiRet(h(regs).0, h(regs).1)
  {
  }

  /** Decoding reads a0 and a1 and nothing else. */
  lemma DecodeReadsResultRegisters(r1: RegFile, r2: RegFile)
    requires r1[A0] == r2[A0] && r1[A1] == r2[A1]
    ensures Decode(r1) == Decode(r2)
  {
  }

  /** `sbi_call`: one trap with the operands in a0..a7, then the reply is
      returned as data. For every handler, the result is what the handler
      answers when shown [arg0, .., arg5, fid, eid]; a nonzero error is
      passed through unchecked and the trap is not retried. */
  function SbiCall(h: Handler, arg0: int, arg1: int, arg2: int, arg3: int,
                   arg4: int, arg5: int, fid: int, eid: int): (ret: SbiRet)
    ensures var seen := [arg0, arg1, arg2, arg3, arg4, arg5, fid, eid];
      ret.error == h(seen).0 && ret.value == h(seen).1
  {
    Decode(Trap(h, Marshal(arg0, arg1, arg2, arg3, arg4, arg5, fid, eid)))
  }

  /** The result depends on the handler only through its reply to the
      marshaled registers: two handlers that agree there give the same
      `sbiret`. */
  lemma SbiCallDependsOnlyOnMarshaledRegs(h1: Handler, h2: Handler, arg0: int,
                                           arg1: int, arg2: int, arg3: int, arg4: int,
                                           arg5: int, fid: int, eid: int)
    requires var regs := Marshal(arg0, arg1, arg2, arg3, arg4, arg5, fid, eid);
      h1(regs) == h2(regs)
    ensures SbiCall(h1, arg0, arg1, arg2, arg3, arg4, arg5, fid, eid)
         == SbiCall(h2, arg0, arg1, arg2, arg3, arg4, arg5, fid, eid)
  {
  }
}
