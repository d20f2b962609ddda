/** Classic BPF as seccomp runs it: loads of the two data words, equality jumps, returns. */
module Bpf {
  import opened Bytes

  datatype Op = Ld | Jeq | Ret

  /** A `sock_filter`: jump distances are bytes. */
  datatype Insn = Insn(op: Op, jt: byte, jf: byte, k: nat)

  const SDAT_NR: nat := 0
  const SDAT_ARCH: nat := 4

  function Stmt(op: Op, k: nat): Insn {
    Insn(op, 0, 0, k)
  }

  /** The builders cast both distances to a byte. */
  function Jump(k: nat, jt: nat, jf: nat): Insn {
    Insn(Jeq, jt % 256, jf % 256, k)
  }

  datatype Outcome = Action(value: nat) | Fault

  /** The filter run from pc. Jumps only go forward, so it terminates on every program. */
  function Run(prog: seq<Insn>, arch: nat, nr: nat, pc: nat, acc: nat): Outcome
    decreases |prog| - pc
  {
    if pc >= |prog| then Fault
    else
      var insn := prog[pc];
      match insn.op
      case Ret => Action(insn.k)
      case Ld =>
        if insn.k == SDAT_NR then Run(prog, arch, nr, pc + 1, nr)
        else if insn.k == SDAT_ARCH then Run(prog, arch, nr, pc + 1, arch)
        else Fault
      case Jeq => Run(prog, arch, nr, pc + 1 + (if acc == insn.k then insn.jt else insn.jf), acc)
  }

  /** What the kernel checks before it takes a filter. */
  predicate InsnOk(prog: seq<Insn>, i: nat)
    requires i < |prog|
  {
    match prog[i].op
    case Ret => true
    case Ld => i + 1 < |prog| && (prog[i].k == SDAT_NR || prog[i].k == SDAT_ARCH)
    case Jeq => i + 1 + prog[i].jt < |prog| && i + 1 + prog[i].jf < |prog|
  }

  predicate Checked(prog: seq<Insn>) {
    |prog| > 0 && forall i :: 0 <= i < |prog| ==> InsnOk(prog, i)
  }

  /** Every path through a checked filter ends at a return. */
  lemma {:induction false} CheckedReturns(prog: seq<Insn>, arch: nat, nr: nat, pc: nat, acc: nat)
    requires Checked(prog) && pc < |prog|
    ensures Run(prog, arch, nr, pc, acc).Action?
    decreases |prog| - pc
  {
    assert InsnOk(prog, pc);
    var insn := prog[pc];
    match insn.op {
      case Ret =>
      case Ld => CheckedReturns(prog, arch, nr, pc + 1, if insn.k == SDAT_NR then nr else arch);
      case Jeq => CheckedReturns(prog, arch, nr, pc + 1 + (if acc == insn.k then insn.jt else insn.jf), acc);
    }
  }
}
