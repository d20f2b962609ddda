/** The three filter builders: allowlists compiled to jump code. */
module SeccompFilters {
  import opened Bpf

  const ALLOW: nat := 0x7fff_0000
  const KILL_PROCESS: nat := 0x8000_0000
  const ARCH_RISCV64: nat := 0xc000_00f3
  const ARCH_RISCV32: nat := 0x4000_00f3

  /** One `JEQ nr, 0, 1; RET ALLOW` for each listed number. */
  function Checks(nrs: seq<nat>): (p: seq<Insn>)
    ensures |p| == 2 * |nrs|
  {
    if nrs == [] then [] else Checks(nrs[..|nrs| - 1]) + [Jump(nrs[|nrs| - 1], 0, 1), Stmt(Ret, ALLOW)]
  }

  /** Load the number, check it, fall through to the default. */
  function Block(nrs: seq<nat>, action: nat): (p: seq<Insn>)
    ensures |p| == 2 + 2 * |nrs|
  {
    [Stmt(Ld, SDAT_NR)] + Checks(nrs) + [Stmt(Ret, action)]
  }

  /** One architecture, any other killed. */
  function SingleArch(arch: nat, nrs: seq<nat>, action: nat): (p: seq<Insn>)
    ensures |p| == 5 + 2 * |nrs|
  {
    [Stmt(Ld, SDAT_ARCH), Jump(arch, 1, 0), Stmt(Ret, KILL_PROCESS)] + Block(nrs, action)
  }

  /** Two architectures, each with its own list. */
  function Dispatch(nrs64: seq<nat>, nrs32: seq<nat>): (p: seq<Insn>)
    ensures |p| == 8 + 2 * (|nrs64| + |nrs32|)
  {
    [Stmt(Ld, SDAT_ARCH), Jump(ARCH_RISCV64, 0, 2 + 2 * |nrs64|)] + Block(nrs64, KILL_PROCESS)
    + [Jump(ARCH_RISCV32, 1, 0), Stmt(Ret, KILL_PROCESS)] + Block(nrs32, KILL_PROCESS)
  }

  // The builders.

  method Emit(buf: array<Insn>, i: nat, insn: Insn, ghost done: seq<Insn>) returns (next: nat)
    requires i < buf.Length && buf[..i] == done
    modifies buf
    ensures next == i + 1 && buf[..next] == done + [insn]
    ensures forall k :: next <= k < buf.Length ==> buf[k] == old(buf[k])
  {
    buf[i] := insn;
    next := i + 1;
  }

  /** `LD nr`, the loop over the list, and the default. */
  method EmitBlock(buf: array<Insn>, at: nat, nrs: seq<nat>, action: nat, ghost done: seq<Insn>) returns (i: nat)
    requires at + 2 + 2 * |nrs| <= buf.Length && buf[..at] == done
    modifies buf
    ensures i == at + 2 + 2 * |nrs| && buf[..i] == done + Block(nrs, action)
    ensures forall k :: i <= k < buf.Length ==> buf[k] == old(buf[k])
  {
    i := Emit(buf, at, Stmt(Ld, SDAT_NR), done);
    ghost var head := done + [Stmt(Ld, SDAT_NR)];
    for j := 0 to |nrs|
      invariant i == at + 1 + 2 * j && buf[..i] == head + Checks(nrs[..j])
      invariant forall k :: i <= k < buf.Length ==> buf[k] == old(buf[k])
    {
      assert nrs[..j + 1][..j] == nrs[..j];
      ghost var so := head + Checks(nrs[..j]);
      i := Emit(buf, i, Jump(nrs[j], 0, 1), so);
      i := Emit(buf, i, Stmt(Ret, ALLOW), so + [Jump(nrs[j], 0, 1)]);
      TwoMore(head, Checks(nrs[..j]), Jump(nrs[j], 0, 1), Stmt(Ret, ALLOW));
    }
    assert nrs[..|nrs|] == nrs;
    i := Emit(buf, i, Stmt(Ret, action), head + Checks(nrs));
    Close(done, [Stmt(Ld, SDAT_NR)], Checks(nrs), [Stmt(Ret, action)]);
  }

  lemma TwoMore(a: seq<Insn>, b: seq<Insn>, x: Insn, y: Insn)
    ensures ((a + b) + [x]) + [y] == a + (b + [x, y])
  {
  }

  lemma Close(a: seq<Insn>, b: seq<Insn>, c: seq<Insn>, d: seq<Insn>)
    ensures ((a + b) + c) + d == a + (b + c + d)
  {
  }

  /** The three instructions that test for one architecture. */
  method EmitArchTest(buf: array<Insn>, arch: nat) returns (i: nat)
    requires 3 <= buf.Length
    modifies buf
    ensures i == 3 && buf[..3] == [Stmt(Ld, SDAT_ARCH), Jump(arch, 1, 0), Stmt(Ret, KILL_PROCESS)]
    ensures forall k :: 3 <= k < buf.Length ==> buf[k] == old(buf[k])
  {
    i := Emit(buf, 0, Stmt(Ld, SDAT_ARCH), []);
    i := Emit(buf, i, Jump(arch, 1, 0), [Stmt(Ld, SDAT_ARCH)]);
    i := Emit(buf, i, Stmt(Ret, KILL_PROCESS), [Stmt(Ld, SDAT_ARCH), Jump(arch, 1, 0)]);
  }

  /** `build_unified_filter_with_default`: refused exactly when it does not fit. */
  method BuildUnified(buf: array<Insn>, bufsz: nat, nrs: seq<nat>, action: nat) returns (n: int)
    requires bufsz <= buf.Length
    modifies buf
    ensures n == (if 5 + 2 * |nrs| > bufsz then -1 else 5 + 2 * |nrs|)
    ensures n == -1 ==> buf[..] == old(buf[..])
    ensures n >= 0 ==> buf[..n] == SingleArch(ARCH_RISCV64, nrs, action) && buf[n..] == old(buf[5 + 2 * |nrs|..])
  {
    var total := 5 + 2 * |nrs|;
    if total > bufsz {
      return -1;
    }
    var i := EmitArchTest(buf, ARCH_RISCV64);
    i := EmitBlock(buf, i, nrs, action, buf[..3]);
    n := i;
  }

  /** `build_riscv32_only_filter`. Its size check is one instruction short: at the size the check lets
      through by mistake it writes one instruction past the size it was told, so the memory there has to
      reach that far. */
  method BuildRiscv32Only(buf: array<Insn>, bufsz: nat, nrs: seq<nat>) returns (n: int)
    requires bufsz <= buf.Length && (Overruns(bufsz, nrs) ==> bufsz < buf.Length)
    modifies buf
    ensures n == (if Refused32(bufsz, nrs) then -1 else 5 + 2 * |nrs|)
    ensures n == -1 ==> buf[..] == old(buf[..])
    ensures n >= 0 ==> buf[..n] == SingleArch(ARCH_RISCV32, nrs, KILL_PROCESS) && buf[n..] == old(buf[5 + 2 * |nrs|..])
    ensures n > bufsz <==> Overruns(bufsz, nrs)
  {
    var total := 4 + 2 * |nrs|;
    if total > bufsz {
      return -1;
    }
    OverrunsExactly(bufsz, nrs);
    var i := EmitArchTest(buf, ARCH_RISCV32);
    i := EmitBlock(buf, i, nrs, KILL_PROCESS, buf[..3]);
    n := i;
  }

  /** The test it makes, on a total of 4 + 2n. */
  predicate Refused32(bufsz: nat, nrs: seq<nat>) {
    4 + 2 * |nrs| > bufsz
  }

  /** Accepted, but the program is longer than the buffer. */
  predicate Overruns(bufsz: nat, nrs: seq<nat>) {
    !Refused32(bufsz, nrs) && |SingleArch(ARCH_RISCV32, nrs, KILL_PROCESS)| > bufsz
  }

  /** The check lets exactly one bad size through. */
  lemma OverrunsExactly(bufsz: nat, nrs: seq<nat>)
    ensures Overruns(bufsz, nrs) <==> bufsz == 4 + 2 * |nrs|
  {
  }

  /** `build_arch_dispatch_filter`. */
  method BuildArchDispatch(buf: array<Insn>, bufsz: nat, nrs64: seq<nat>, nrs32: seq<nat>) returns (n: int)
    requires bufsz <= buf.Length
    modifies buf
    ensures n == (if 8 + 2 * (|nrs64| + |nrs32|) > bufsz || 2 + 2 * |nrs64| > 255 then -1
                  else 8 + 2 * (|nrs64| + |nrs32|))
    ensures n == -1 ==> buf[..] == old(buf[..])
    ensures n >= 0 ==> buf[..n] == Dispatch(nrs64, nrs32) && forall k :: n <= k < buf.Length ==> buf[k] == old(buf[k])
  {
    var total := 8 + 2 * (|nrs64| + |nrs32|);
    if total > bufsz {
      return -1;
    }
    if 2 + 2 * |nrs64| > 255 {
      return -1;
    }
    ghost var head := [Stmt(Ld, SDAT_ARCH), Jump(ARCH_RISCV64, 0, 2 + 2 * |nrs64|)];
    var i := Emit(buf, 0, Stmt(Ld, SDAT_ARCH), []);
    i := Emit(buf, i, Jump(ARCH_RISCV64, 0, 2 + 2 * |nrs64|), [Stmt(Ld, SDAT_ARCH)]);
    assert buf[..i] == head;
    i := EmitBlock(buf, i, nrs64, KILL_PROCESS, head);
    ghost var first := head + Block(nrs64, KILL_PROCESS);
    i := Emit(buf, i, Jump(ARCH_RISCV32, 1, 0), first);
    i := Emit(buf, i, Stmt(Ret, KILL_PROCESS), first + [Jump(ARCH_RISCV32, 1, 0)]);
    ghost var second := first + [Jump(ARCH_RISCV32, 1, 0), Stmt(Ret, KILL_PROCESS)];
    assert buf[..i] == second;
    i := EmitBlock(buf, i, nrs32, KILL_PROCESS, second);
    n := i;
  }

  // What the filters do.

  /** Running the checks from where they start in any program. */
  lemma {:induction false} ChecksDecide(prog: seq<Insn>, at: nat, nrs: seq<nat>, j: nat, arch: nat, nr: nat)
    requires j <= |nrs| && at + 2 * |nrs| < |prog| && prog[at..at + 2 * |nrs|] == Checks(nrs)
    requires prog[at + 2 * |nrs|].op == Ret
    ensures Run(prog, arch, nr, at + 2 * j, nr)
         == Action(if nr in nrs[j..] then ALLOW else prog[at + 2 * |nrs|].k)
    decreases |nrs| - j
  {
    if j < |nrs| {
      CheckAt(nrs, j);
      assert prog[at + 2 * j] == prog[at..at + 2 * |nrs|][2 * j];
      assert prog[at + 2 * j + 1] == prog[at..at + 2 * |nrs|][2 * j + 1];
      assert nrs[j..] == [nrs[j]] + nrs[j + 1..];
      if nr != nrs[j] {
        ChecksDecide(prog, at, nrs, j + 1, arch, nr);
      }
    }
  }

  lemma {:induction false} CheckAt(nrs: seq<nat>, j: nat)
    requires j < |nrs|
    ensures Checks(nrs)[2 * j] == Jump(nrs[j], 0, 1) && Checks(nrs)[2 * j + 1] == Stmt(Ret, ALLOW)
  {
    if j < |nrs| - 1 {
      CheckAt(nrs[..|nrs| - 1], j);
    }
  }

  lemma SubSlice(s: seq<Insn>, at: nat, n: nat, lo: nat, hi: nat)
    requires at + n <= |s| && lo <= hi <= n
    ensures s[at..at + n][lo..hi] == s[at + lo..at + hi]
  {
    var t := s[at..at + n];
    forall k | 0 <= k < hi - lo
      ensures t[lo..hi][k] == s[at + lo..at + hi][k]
    {
      assert t[lo..hi][k] == t[lo + k] == s[at + (lo + k)];
    }
  }

  lemma BlockDecides(prog: seq<Insn>, at: nat, nrs: seq<nat>, action: nat, arch: nat, nr: nat, acc: nat)
    requires at + 2 + 2 * |nrs| <= |prog| && prog[at..at + 2 + 2 * |nrs|] == Block(nrs, action)
    ensures Run(prog, arch, nr, at, acc) == Action(if nr in nrs then ALLOW else action)
  {
    var b := Block(nrs, action);
    assert prog[at] == b[0] && prog[at + 1 + 2 * |nrs|] == b[1 + 2 * |nrs|];
    SubSlice(prog, at, |b|, 1, 1 + 2 * |nrs|);
    assert b[1..1 + 2 * |nrs|] == Checks(nrs);
    ChecksDecide(prog, at + 1, nrs, 0, arch, nr);
    assert nrs[0..] == nrs;
  }

  /** A one-architecture filter: the list decides on its architecture, every other call is killed. */
  lemma SingleArchDecides(arch: nat, nrs: seq<nat>, action: nat, a: nat, nr: nat)
    ensures Run(SingleArch(arch, nrs, action), a, nr, 0, 0)
         == Action(if a != arch then KILL_PROCESS else if nr in nrs then ALLOW else action)
  {
    var prog := SingleArch(arch, nrs, action);
    assert prog[0] == Stmt(Ld, SDAT_ARCH) && prog[1] == Jump(arch, 1, 0) && prog[2] == Stmt(Ret, KILL_PROCESS);
    if a == arch {
      assert prog[3..3 + 2 + 2 * |nrs|] == Block(nrs, action);
      BlockDecides(prog, 3, nrs, action, a, nr, a);
    } else {
      assert Run(prog, a, nr, 2, a) == Action(KILL_PROCESS);
    }
    assert Run(prog, a, nr, 0, 0) == Run(prog, a, nr, 1, a);
  }

  /** Where the parts of a dispatch filter are. */
  lemma DispatchParts(nrs64: seq<nat>, nrs32: seq<nat>)
    ensures var prog, n, m := Dispatch(nrs64, nrs32), 2 + 2 * |nrs64|, 2 + 2 * |nrs32|;
            && prog[0] == Stmt(Ld, SDAT_ARCH) && prog[1] == Jump(ARCH_RISCV64, 0, n)
            && prog[2..2 + n] == Block(nrs64, KILL_PROCESS)
            && prog[2 + n] == Jump(ARCH_RISCV32, 1, 0) && prog[3 + n] == Stmt(Ret, KILL_PROCESS)
            && prog[4 + n..4 + n + m] == Block(nrs32, KILL_PROCESS)
  {
  }

  /** What the dispatch filter is there to decide. */
  function Decision(nrs64: seq<nat>, nrs32: seq<nat>, a: nat, nr: nat): nat {
    if (a == ARCH_RISCV64 && nr in nrs64) || (a == ARCH_RISCV32 && nr in nrs32) then ALLOW else KILL_PROCESS
  }

  /** The dispatch filter: each architecture's list decides for it, an unknown one is killed. */
  lemma DispatchDecides(nrs64: seq<nat>, nrs32: seq<nat>, a: nat, nr: nat)
    requires 2 + 2 * |nrs64| <= 255
    ensures Run(Dispatch(nrs64, nrs32), a, nr, 0, 0)
         == Action(Decision(nrs64, nrs32, a, nr))
  {
    var prog, n, m := Dispatch(nrs64, nrs32), 2 + 2 * |nrs64|, 2 + 2 * |nrs32|;
    DispatchParts(nrs64, nrs32);
    assert prog[1].jf == n;
    if a == ARCH_RISCV64 {
      BlockDecides(prog, 2, nrs64, KILL_PROCESS, a, nr, a);
    } else if a == ARCH_RISCV32 {
      BlockDecides(prog, 4 + n, nrs32, KILL_PROCESS, a, nr, a);
      assert Run(prog, a, nr, 2 + n, a) == Run(prog, a, nr, 4 + n, a);
    } else {
      assert Run(prog, a, nr, 3 + n, a) == Action(KILL_PROCESS);
      assert Run(prog, a, nr, 2 + n, a) == Run(prog, a, nr, 3 + n, a);
    }
    assert Run(prog, a, nr, 0, 0) == Run(prog, a, nr, 1, a);
  }

  /** Past the bound the truncated jump lands inside the first list's checks: on their load, and then
      that list decides for every architecture, or on one of their returns, and then every call of every
      other architecture is allowed. */
  lemma TruncatedDecides(nrs64: seq<nat>, nrs32: seq<nat>, a: nat, nr: nat)
    requires 2 + 2 * |nrs64| > 255 && a != ARCH_RISCV64
    ensures Run(Dispatch(nrs64, nrs32), a, nr, 0, 0)
         == Action(if (2 + 2 * |nrs64|) % 256 != 0 || nr in nrs64 then ALLOW else KILL_PROCESS)
  {
    var prog, n := Dispatch(nrs64, nrs32), 2 + 2 * |nrs64|;
    var jf := n % 256;
    DispatchParts(nrs64, nrs32);
    assert prog[1].jf == jf;
    if jf == 0 {
      BlockDecides(prog, 2, nrs64, KILL_PROCESS, a, nr, a);
    } else {
      AllowAt(prog, nrs64, jf);
      assert Run(prog, a, nr, 2 + jf, a) == Action(ALLOW);
    }
    assert Run(prog, a, nr, 0, 0) == Run(prog, a, nr, 1, a) == Run(prog, a, nr, 2 + jf, a);
  }

  lemma AllowAt(prog: seq<Insn>, nrs: seq<nat>, jf: nat)
    requires 4 + 2 * |nrs| <= |prog| && prog[2..4 + 2 * |nrs|] == Block(nrs, KILL_PROCESS)
    requires 2 <= jf <= 2 * |nrs| && jf % 2 == 0
    ensures prog[2 + jf] == Stmt(Ret, ALLOW)
  {
    CheckAt(nrs, jf / 2 - 1);
    assert prog[2 + jf] == prog[2..4 + 2 * |nrs|][jf] == Checks(nrs)[jf - 1];
  }

  /** The bound that is tested is exactly the one that is needed: the filter decides every call as it
      should if and only if the first list is within it. */
  lemma DispatchExactly(nrs64: seq<nat>, nrs32: seq<nat>)
    ensures (forall a: nat, nr: nat ::
               Run(Dispatch(nrs64, nrs32), a, nr, 0, 0) == Action(Decision(nrs64, nrs32, a, nr)))
       <==> 2 + 2 * |nrs64| <= 255
  {
    if 2 + 2 * |nrs64| <= 255 {
      forall a: nat, nr: nat
        ensures Run(Dispatch(nrs64, nrs32), a, nr, 0, 0) == Action(Decision(nrs64, nrs32, a, nr))
      {
        DispatchDecides(nrs64, nrs32, a, nr);
      }
    } else {
      TruncatedDecides(nrs64, nrs32, 0, nrs64[0]);
      assert Decision(nrs64, nrs32, 0, nrs64[0]) == KILL_PROCESS;
    }
  }

  lemma CheckOk(prog: seq<Insn>, at: nat, nrs: seq<nat>, j: nat)
    requires at + 2 * |nrs| < |prog| && prog[at..at + 2 * |nrs|] == Checks(nrs) && j < |nrs|
    ensures InsnOk(prog, at + 2 * j) && InsnOk(prog, at + 2 * j + 1)
  {
    CheckAt(nrs, j);
    assert prog[at + 2 * j] == prog[at..at + 2 * |nrs|][2 * j];
    assert prog[at + 2 * j + 1] == prog[at..at + 2 * |nrs|][2 * j + 1];
  }

  lemma BlockOk(prog: seq<Insn>, at: nat, nrs: seq<nat>, action: nat)
    requires at + 2 + 2 * |nrs| <= |prog| && prog[at..at + 2 + 2 * |nrs|] == Block(nrs, action)
    ensures forall i :: at <= i < at + 2 + 2 * |nrs| ==> InsnOk(prog, i)
  {
    var b := Block(nrs, action);
    assert prog[at] == b[0] && prog[at + 1 + 2 * |nrs|] == b[1 + 2 * |nrs|];
    SubSlice(prog, at, |b|, 1, 1 + 2 * |nrs|);
    assert b[1..1 + 2 * |nrs|] == Checks(nrs);
    forall i | at + 1 <= i < at + 1 + 2 * |nrs|
      ensures InsnOk(prog, i)
    {
      var j := (i - at - 1) / 2;
      CheckOk(prog, at + 1, nrs, j);
      assert i == at + 1 + 2 * j || i == at + 1 + 2 * j + 1;
    }
  }

  /** Every jump and load of the emitted filters is in range, as the kernel requires. */
  lemma FiltersChecked(nrs64: seq<nat>, nrs32: seq<nat>, arch: nat, nrs: seq<nat>, action: nat)
    requires 2 + 2 * |nrs64| <= 255
    ensures Checked(SingleArch(arch, nrs, action)) && Checked(Dispatch(nrs64, nrs32))
  {
    var single := SingleArch(arch, nrs, action);
    assert single[3..3 + 2 + 2 * |nrs|] == Block(nrs, action);
    BlockOk(single, 3, nrs, action);
    var prog, n, m := Dispatch(nrs64, nrs32), 2 + 2 * |nrs64|, 2 + 2 * |nrs32|;
    DispatchParts(nrs64, nrs32);
    BlockOk(prog, 2, nrs64, KILL_PROCESS);
    BlockOk(prog, 4 + n, nrs32, KILL_PROCESS);
  }
}
