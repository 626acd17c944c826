// The seccomp filter and its supervisor (crates/aro-exec/src/seccomp.rs), against an interpreter of
// classic BPF and the check the kernel makes of a classic filter before it loads it.
module Seccomp {
  import opened Bytes

  const LD_W_ABS: nat := 0x20
  const JEQ_K: nat := 0x15
  const RET_K: nat := 0x06
  const RET_ALLOW: nat := 0x7FFF_0000
  const RET_USER_NOTIF: nat := 0x7FC0_0000
  const ARCH_X86_64: nat := 0xC000_003E
  const FLAG_CONTINUE: nat := 1
  // BPF_MAXINSNS of linux/bpf_common.h
  const MAX_INSNS: nat := 4096

  const SETPRIORITY: I64 := 141
  const GETUID: I64 := 102
  const GETEUID: I64 := 107
  const GETGID: I64 := 104
  const GETEGID: I64 := 108
  const SUPERVISED: seq<I64> := [SETPRIORITY, GETUID, GETEUID, GETGID, GETEGID]

  type Word = w: nat | w < U32_LIMIT
  type Long = w: nat | w < U64_LIMIT

  datatype Insn = Insn(code: nat, jt: Byte, jf: Byte, k: Word)

  datatype RawData = Data(nr: I32, arch: Word, ip: Long, args: seq<Long>)
  type SyscallData = d: RawData | |d.args| == 6 witness Data(0, 0, 0, [0, 0, 0, 0, 0, 0])

  // ---------- classic BPF over struct seccomp_data ----------

  function Layout(d: SyscallData): (s: seq<Byte>)
    ensures |s| == 64
  {
    U32(Unsigned32(d.nr)) + U32(d.arch) + U64(d.ip)
    + U64(d.args[0]) + U64(d.args[1]) + U64(d.args[2]) + U64(d.args[3]) + U64(d.args[4]) + U64(d.args[5])
  }

  predicate LoadOk(k: nat)
  {
    k % 4 == 0 && k + 4 <= 64
  }

  datatype Outcome = Return(action: Word) | Fault

  function Run(prog: seq<Insn>, d: SyscallData, pc: nat, acc: Word): Outcome
    decreases |prog| - pc
  {
    if pc >= |prog| then Fault
    else
      var i := prog[pc];
      if i.code == LD_W_ABS then
        if LoadOk(i.k) then Run(prog, d, pc + 1, U32At(Layout(d), i.k)) else Fault
      else if i.code == JEQ_K then
        Run(prog, d, pc + 1 + if acc == i.k then i.jt else i.jf, acc)
      else if i.code == RET_K then Return(i.k)
      else Fault
  }

  predicate InsnOk(prog: seq<Insn>, pc: nat)
    requires pc < |prog|
  {
    var i := prog[pc];
    || (i.code == LD_W_ABS && LoadOk(i.k))
    || (i.code == JEQ_K && pc + 1 + i.jt < |prog| && pc + 1 + i.jf < |prog|)
    || i.code == RET_K
  }

  // The kernel's check: known instructions, loads and jumps in range, a return at the end.
  ghost predicate Loads(prog: seq<Insn>)
  {
    && 0 < |prog| <= MAX_INSNS
    && prog[|prog| - 1].code == RET_K
    && forall pc :: 0 <= pc < |prog| ==> InsnOk(prog, pc)
  }

  // A loaded program always returns.
  lemma {:induction false} LoadedReturns(prog: seq<Insn>, d: SyscallData, pc: nat, acc: Word)
    requires Loads(prog) && pc < |prog|
    ensures Run(prog, d, pc, acc).Return?
    decreases |prog| - pc
  {
    var i := prog[pc];
    assert InsnOk(prog, pc);
    if i.code == LD_W_ABS {
      LoadedReturns(prog, d, pc + 1, U32At(Layout(d), i.k));
    } else if i.code == JEQ_K {
      LoadedReturns(prog, d, pc + 1 + if acc == i.k then i.jt else i.jf, acc);
    }
  }

  // ---------- the generated program ----------

  // `*nr as u32`
  function Truncated(n: I64): (w: Word)
    ensures -0x8000_0000 <= n < 0x8000_0000 ==> w == Unsigned32(n)
  {
    n % U32_LIMIT
  }

  // The call's number is, in its low 32 bits, one of the list.
  ghost predicate Listed(numbers: seq<I64>, nr: I32)
  {
    exists i :: 0 <= i < |numbers| && Truncated(numbers[i]) == Unsigned32(nr)
  }

  ghost function Verdict(numbers: seq<I64>, d: SyscallData): Outcome
  {
    Return(if d.arch == ARCH_X86_64 && Listed(numbers, d.nr) then RET_USER_NOTIF else RET_ALLOW)
  }

  // No truncation in the list: the numbers themselves are compared.
  lemma ListedIs(numbers: seq<I64>, nr: I32)
    requires forall i :: 0 <= i < |numbers| ==> -0x8000_0000 <= numbers[i] < 0x8000_0000
    ensures Listed(numbers, nr) <==> nr as int in numbers
  {
    if nr as int in numbers {
      var i :| 0 <= i < |numbers| && numbers[i] == nr;
      assert Truncated(numbers[i]) == Unsigned32(nr);
    }
    if Listed(numbers, nr) {
      var i :| 0 <= i < |numbers| && Truncated(numbers[i]) == Unsigned32(nr);
      assert numbers[i] == nr;
    }
  }

  // The instructions up to the n-th pair, address by address.
  ghost predicate FilterOf(prog: seq<Insn>, numbers: seq<I64>, n: nat)
    requires n <= |numbers|
  {
    && |prog| >= 4 + 2 * n
    && prog[0] == Insn(LD_W_ABS, 0, 0, 4)
    && prog[1] == Insn(JEQ_K, 1, 0, ARCH_X86_64)
    && prog[2] == Insn(RET_K, 0, 0, RET_ALLOW)
    && prog[3] == Insn(LD_W_ABS, 0, 0, 0)
    && forall i :: 0 <= i < n ==>
      prog[4 + 2 * i] == Insn(JEQ_K, 0, 1, Truncated(numbers[i])) && prog[5 + 2 * i] == Insn(RET_K, 0, 0, RET_USER_NOTIF)
  }

  ghost predicate IsFilter(prog: seq<Insn>, numbers: seq<I64>)
  {
    && |prog| == 5 + 2 * |numbers|
    && FilterOf(prog, numbers, |numbers|)
    && prog[|prog| - 1] == Insn(RET_K, 0, 0, RET_ALLOW)
  }

  // From the i-th comparison on, the rest of the list decides.
  lemma {:induction false} RunFrom(prog: seq<Insn>, numbers: seq<I64>, d: SyscallData, i: nat)
    requires IsFilter(prog, numbers) && i <= |numbers|
    ensures Run(prog, d, 4 + 2 * i, Unsigned32(d.nr)) ==
            Return(if Listed(numbers[i..], d.nr) then RET_USER_NOTIF else RET_ALLOW)
    decreases |numbers| - i
  {
    if i < |numbers| {
      var rest := numbers[i..];
      if Truncated(numbers[i]) == Unsigned32(d.nr) {
        assert Truncated(rest[0]) == Unsigned32(d.nr);
      } else {
        RunFrom(prog, numbers, d, i + 1);
        ListedRest(rest, d.nr);
        assert rest[1..] == numbers[i + 1..];
      }
    }
  }

  lemma ListedRest(numbers: seq<I64>, nr: I32)
    requires numbers != [] && Truncated(numbers[0]) != Unsigned32(nr)
    ensures Listed(numbers, nr) <==> Listed(numbers[1..], nr)
  {
    if Listed(numbers, nr) {
      var i :| 0 <= i < |numbers| && Truncated(numbers[i]) == Unsigned32(nr);
      assert numbers[1..][i - 1] == numbers[i];
    }
  }

  lemma Words(d: SyscallData)
    ensures U32At(Layout(d), 0) == Unsigned32(d.nr) && U32At(Layout(d), 4) == d.arch
  {
    U32Read(Layout(d), 0, Unsigned32(d.nr));
    U32Read(Layout(d), 4, d.arch);
  }

  // The whole run, for any list.
  lemma FilterDecides(prog: seq<Insn>, numbers: seq<I64>, d: SyscallData)
    requires IsFilter(prog, numbers)
    ensures Run(prog, d, 0, 0) == Verdict(numbers, d)
    ensures Run(prog, d, 0, 0) ==
            Return(if d.arch == 0xC000_003E && Listed(numbers, d.nr) then 0x7FC0_0000 else 0x7FFF_0000)
  {
    hide Listed, Layout;
    Words(d);
    RunFrom(prog, numbers, d, 0);
    assert numbers[0..] == numbers;
    assert Run(prog, d, 0, 0) == Run(prog, d, 1, d.arch);
    if d.arch == ARCH_X86_64 {
      assert Run(prog, d, 1, d.arch) == Run(prog, d, 3, d.arch) == Run(prog, d, 4, Unsigned32(d.nr));
    } else {
      assert Run(prog, d, 1, d.arch) == Run(prog, d, 2, d.arch) == Return(RET_ALLOW);
    }
  }

  // The filter is one the kernel loads, up to its limit on instructions.
  lemma FilterLoads(prog: seq<Insn>, numbers: seq<I64>)
    requires IsFilter(prog, numbers)
    ensures Loads(prog) <==> |prog| <= MAX_INSNS
  {
    forall pc | 0 <= pc < |prog|
      ensures InsnOk(prog, pc)
    {
      if 4 <= pc < |prog| - 1 {
        var i := (pc - 4) / 2;
        assert prog[4 + 2 * i].code == JEQ_K && prog[5 + 2 * i].code == RET_K;
      }
    }
  }

  // A filter cut short by the u16 length is not one the kernel loads: it ends in a load or a
  // comparison, or the first comparison jumps past its end.
  lemma CutIsRefused(prog: seq<Insn>, numbers: seq<I64>, m: nat)
    requires IsFilter(prog, numbers) && m < |prog| && m % 2 == 1
    ensures !Loads(prog[..m])
  {
    var cut := prog[..m];
    if m == 3 {
      assert !InsnOk(cut, 1);
    } else if m > 3 {
      var i := (m - 5) / 2;
      assert prog[4 + 2 * i].code == JEQ_K;
    }
  }

  // `install`: the program for a list of numbers.
  method Program(numbers: seq<I64>) returns (prog: seq<Insn>)
    ensures IsFilter(prog, numbers)
    ensures forall d :: Run(prog, d, 0, 0) == Verdict(numbers, d)
  {
    prog := [];
    prog := prog + [Insn(LD_W_ABS, 0, 0, 4)];
    prog := prog + [Insn(JEQ_K, 1, 0, ARCH_X86_64)];
    prog := prog + [Insn(RET_K, 0, 0, RET_ALLOW)];
    prog := prog + [Insn(LD_W_ABS, 0, 0, 0)];
    for n := 0 to |numbers|
      invariant |prog| == 4 + 2 * n && FilterOf(prog, numbers, n)
    {
      prog := prog + [Insn(JEQ_K, 0, 1, Truncated(numbers[n]))];
      prog := prog + [Insn(RET_K, 0, 0, RET_USER_NOTIF)];
    }
    prog := prog + [Insn(RET_K, 0, 0, RET_ALLOW)];
    forall d
      ensures Run(prog, d, 0, 0) == Verdict(numbers, d)
    {
      FilterDecides(prog, numbers, d);
    }
  }

  // `install`: what the kernel is given is the program cut to a u16 length. Whatever it loads is
  // the whole program.
  method Install(numbers: seq<I64>) returns (loaded: Option<seq<Insn>>)
    ensures loaded.Some? <==> 5 + 2 * |numbers| <= MAX_INSNS
    ensures loaded.Some? ==> Loads(loaded.value) && forall d :: Run(loaded.value, d, 0, 0) == Verdict(numbers, d)
  {
    hide IsFilter, Loads, Run, Verdict;
    var prog := Program(numbers);
    FilterSize(prog, numbers);
    var len := |prog| % U16_LIMIT;
    ghost var given := prog[..len];
    if len < |prog| {
      CutIsRefused(prog, numbers, len);
    } else {
      assert given == prog;
      FilterLoads(prog, numbers);
    }
    var ok := KernelLoads(prog[..len]);
    loaded := if ok then Some(prog[..len]) else None;
  }

  lemma FilterSize(prog: seq<Insn>, numbers: seq<I64>)
    requires IsFilter(prog, numbers)
    ensures |prog| == 5 + 2 * |numbers|
  {
  }

  // The kernel's side of SECCOMP_SET_MODE_FILTER.
  method KernelLoads(prog: seq<Insn>) returns (ok: bool)
    ensures ok <==> Loads(prog)
  {
    if |prog| == 0 || |prog| > MAX_INSNS || prog[|prog| - 1].code != RET_K {
      return false;
    }
    for pc := 0 to |prog|
      invariant forall i :: 0 <= i < pc ==> InsnOk(prog, i)
    {
      if !InsnOk(prog, pc) {
        return false;
      }
    }
    return true;
  }

  // ---------- the supervisor ----------

  datatype Request = Request(id: Long, data: SyscallData)

  datatype Response = Response(id: Long, val: I64, error: I32, flags: Word)

  // `req.data.args[2] as i32`
  function Priority(d: SyscallData): I32
  {
    Signed32(d.args[2] % U32_LIMIT)
  }

  predicate IsIdQuery(nr: I32)
  {
    nr == GETUID || nr == GETEUID || nr == GETGID || nr == GETEGID
  }

  // `serve_one`, between its two ioctls.
  method ServeOne(req: Request, appUid: I64) returns (resp: Response)
    ensures resp.id == req.id && resp.error == 0
    ensures resp.flags == FLAG_CONTINUE <==>
            !(IsIdQuery(req.data.nr) || (req.data.nr == SETPRIORITY && Priority(req.data) < 0))
    ensures resp.flags == FLAG_CONTINUE || resp.flags == 0
    ensures resp.val == if IsIdQuery(req.data.nr) then appUid else 0
  {
    resp := Response(req.id, 0, 0, 0);
    var nr: I64 := req.data.nr;
    if nr == SETPRIORITY {
      var prio := Priority(req.data);
      if prio < 0 {
        resp := resp.(val := 0);
      } else {
        resp := resp.(flags := FLAG_CONTINUE);
      }
    } else if nr == GETUID || nr == GETEUID {
      resp := resp.(val := appUid);
    } else if nr == GETGID || nr == GETEGID {
      resp := resp.(val := appUid);
    } else {
      resp := resp.(flags := FLAG_CONTINUE);
    }
  }

  // What becomes of a system call: it runs, or the thread is handed a made-up result.
  datatype Effect = Runs | Returns(val: I64)

  // A call under the installed filter and its supervisor. Only a raise of priority and the id
  // queries of an x86_64 program are answered; every other call runs, and the supervisor is asked
  // about nothing but the supervised calls.
  method Supervised(req: Request, appUid: I64) returns (effect: Effect, asked: bool)
    ensures asked <==> req.data.arch == ARCH_X86_64 && (req.data.nr == SETPRIORITY || IsIdQuery(req.data.nr))
    ensures asked <==> req.data.arch == 0xC000_003E && req.data.nr as int in {141, 102, 104, 107, 108}
    // The third argument, as an i32, is below zero.
    ensures effect == Returns(0) && appUid != 0 ==>
              req.data.arch == 0xC000_003E && req.data.nr == 141 && req.data.args[2] % 0x1_0000_0000 >= 0x8000_0000
    ensures req.data.arch == 0xC000_003E && req.data.nr == 141 && req.data.args[2] % 0x1_0000_0000 >= 0x8000_0000 ==>
              effect == Returns(0)
    ensures effect ==
            if req.data.arch != ARCH_X86_64 then Runs
            else if req.data.nr == SETPRIORITY && Priority(req.data) < 0 then Returns(0)
            else if IsIdQuery(req.data.nr) then Returns(appUid)
            else Runs
  {
    hide Run, Loads, Listed, Layout;
    var loaded := Install(SUPERVISED);
    assert Run(loaded.value, req.data, 0, 0) == Verdict(SUPERVISED, req.data);
    ListedIs(SUPERVISED, req.data.nr);
    var verdict := Run(loaded.value, req.data, 0, 0);
    if verdict == Return(RET_ALLOW) {
      return Runs, false;
    }
    var resp := ServeOne(req, appUid);
    effect := if resp.flags == FLAG_CONTINUE then Runs else Returns(resp.val);
    asked := true;
  }
}
