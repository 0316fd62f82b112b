/** The no-egress sandbox filter: a compiler from a deny list to classic BPF, a
    BPF interpreter, and the proof that the emitted program is the policy. */
module Seccomp {
  import opened Bits
  import opened Outcomes

  // ----- classic BPF over seccomp_data -----

  type u32 = n: int | 0 <= n < 0x1_0000_0000
  type u64 = n: int | 0 <= n < 0x1_0000_0000_0000_0000

  /** `struct sock_filter`. */
  datatype SockFilter = SockFilter(code: nat, jt: nat, jf: nat, k: u32)

  /** `struct seccomp_data`; both supported machines are little-endian. */
  datatype SeccompData = SeccompData(nr: u32, arch: u32, ip: u64, args: seq<u64>)

  datatype Verdict = Returned(action: u32) | FellOutOfProgram | BadInstruction

  const LD_ABS := 0x20
  const JEQ := 0x15
  const JSET := 0x45
  const RET := 0x06

  const NR_OFFSET: u32 := 0
  const ARCH_OFFSET: u32 := 4
  const ARGS_OFFSET: u32 := 16

  const KILL_PROCESS: u32 := 0x80000000
  const ALLOW: u32 := 0x7FFF0000
  const ERRNO_EPERM: u32 := 0x00050001   // SECCOMP_RET_ERRNO | EPERM

  const X32_SYSCALL_BIT: u32 := 0x40000000
  const AF_UNIX: u32 := 1

  function Low(x: u64): u32 {
    x % 0x1_0000_0000
  }

  function High(x: u64): u32 {
    x / 0x1_0000_0000
  }

  /** The 32-bit words of the 64-byte struct, in memory order. */
  function Words(data: SeccompData): seq<u32> {
    [data.nr, data.arch, Low(data.ip), High(data.ip)]
    + seq(2 * |data.args|, i requires 0 <= i < 2 * |data.args| =>
            if i % 2 == 0 then Low(data.args[i / 2]) else High(data.args[i / 2]))
  }

  datatype Step = Goto(skip: nat, a: u32) | Stop(verdict: Verdict)

  /** One instruction: where to go next (relative to the following instruction) or the end of the run.
      Absolute loads must be aligned and inside the struct. */
  function Execute(i: SockFilter, a: u32, data: SeccompData): Step {
    if i.code == 0x20 then  // BPF_LD | BPF_W | BPF_ABS
      if i.k % 4 == 0 && i.k / 4 < |Words(data)| then Goto(0, Words(data)[i.k / 4]) else Stop(BadInstruction)
    else if i.code == 0x15 then Goto(if a == i.k then i.jt else i.jf, a)  // BPF_JMP | BPF_JEQ | BPF_K
    else if i.code == 0x45 then Goto(if BitAnd(a, i.k) != 0 then i.jt else i.jf, a)  // BPF_JMP | BPF_JSET | BPF_K
    else if i.code == 0x06 then Stop(Returned(i.k))  // BPF_RET | BPF_K
    else Stop(BadInstruction)
  }

  /** Runs `program` from instruction `pc` with accumulator `a`.  Jumps only go forward, so every run ends. */
  function Run(program: seq<SockFilter>, pc: nat, a: u32, data: SeccompData): Verdict
    decreases |program| - pc
  {
    if pc >= |program| then FellOutOfProgram
    else
      match Execute(program[pc], a, data)
      case Goto(skip, a') => Run(program, pc + 1 + skip, a', data)
      case Stop(verdict) => verdict
  }

  // ----- the filter compiler -----

  /** The per-machine tables, keyed by `platform.machine()`. */
  datatype Tables = Tables(denied: map<string, seq<int>>, auditArch: map<string, int>, socketpair: map<string, int>)

  /** A Python integer stored into a `c_uint32` field keeps its low 32 bits. */
  function Word(n: int): u32 {
    n % 0x1_0000_0000
  }

  ghost predicate StrictlyIncreasing(s: seq<int>) {
    forall i, j :: 0 <= i < j < |s| ==> s[i] < s[j]
  }

  function Insert(x: int, s: seq<int>): (r: seq<int>)
    requires StrictlyIncreasing(s)
    ensures StrictlyIncreasing(r)
    ensures forall y :: y in r <==> y == x || y in s
    ensures |r| == |s| + (if x in s then 0 else 1)
    ensures s != [] && x > s[0] ==> r[0] == s[0]
  {
    if s == [] then [x]
    else if x < s[0] then [x] + s
    else if x == s[0] then s
    else [s[0]] + Insert(x, s[1..])
  }

  /** `sorted(set(numbers))`. */
  function SortedSet(numbers: seq<int>): (r: seq<int>)
    ensures StrictlyIncreasing(r)
    ensures forall y :: y in r <==> y in numbers
    ensures |r| <= |numbers|
  {
    if numbers == [] then [] else Insert(numbers[0], SortedSet(numbers[1..]))
  }

  function Prologue(auditArch: int): seq<SockFilter> {
    [ SockFilter(LD_ABS, 0, 0, ARCH_OFFSET),
      SockFilter(JEQ, 1, 0, Word(auditArch)),
      SockFilter(RET, 0, 0, KILL_PROCESS),
      SockFilter(LD_ABS, 0, 0, NR_OFFSET) ]
  }

  const X32_GUARD := [ SockFilter(JSET, 0, 1, X32_SYSCALL_BIT), SockFilter(RET, 0, 0, ERRNO_EPERM) ]

  function SocketpairException(number: int): seq<SockFilter> {
    [ SockFilter(JEQ, 0, 4, Word(number)),
      SockFilter(LD_ABS, 0, 0, ARGS_OFFSET),
      SockFilter(JEQ, 1, 0, AF_UNIX),
      SockFilter(RET, 0, 0, ERRNO_EPERM),
      SockFilter(LD_ABS, 0, 0, NR_OFFSET) ]
  }

  function DenyRules(numbers: seq<int>): seq<SockFilter> {
    if numbers == [] then []
    else [ SockFilter(JEQ, 0, 1, Word(numbers[0])), SockFilter(RET, 0, 0, ERRNO_EPERM) ] + DenyRules(numbers[1..])
  }

  function Guard(machine: string): seq<SockFilter> {
    if machine == "x86_64" then X32_GUARD else []
  }

  function Exception(socketpair: int, allowSocketpair: bool): seq<SockFilter> {
    if allowSocketpair then SocketpairException(socketpair) else []
  }

  function Listed(socketpair: int, denied: seq<int>, allowSocketpair: bool): seq<int> {
    if allowSocketpair then denied else denied + [socketpair]
  }

  function Tail(numbers: seq<int>): seq<SockFilter> {
    DenyRules(numbers) + [ SockFilter(RET, 0, 0, ALLOW) ]
  }

  function Program(machine: string, arch: int, socketpair: int, denied: seq<int>, allowSocketpair: bool)
    : seq<SockFilter>
  {
    Prologue(arch) + (Guard(machine) +
      (Exception(socketpair, allowSocketpair) + Tail(SortedSet(Listed(socketpair, denied, allowSocketpair)))))
  }

  lemma {:induction false} DenyRulesAppend(s: seq<int>, x: int)
    ensures DenyRules(s + [x]) == DenyRules(s) + [ SockFilter(JEQ, 0, 1, Word(x)), SockFilter(RET, 0, 0, ERRNO_EPERM) ]
  {
    if s == [] {
      assert (s + [x])[1..] == [];
    } else {
      DenyRulesAppend(s[1..], x);
      assert (s + [x])[1..] == s[1..] + [x];
    }
  }

  lemma Regroup(a: seq<SockFilter>, b: seq<SockFilter>, c: seq<SockFilter>, d: seq<SockFilter>, e: seq<SockFilter>)
    ensures a + b + c + d + e == a + (b + (c + (d + e)))
  {
  }

  /** `install_no_egress_seccomp`, up to the point where the program is handed to the kernel. */
  method BuildFilter(tables: Tables, machine: string, allowSocketpair: bool) returns (r: Outcome<seq<SockFilter>>)
    ensures r.Accepted? <==> machine in tables.denied && machine in tables.auditArch && machine in tables.socketpair
    ensures r.Accepted? ==>
      r.value == Program(machine, tables.auditArch[machine], tables.socketpair[machine], tables.denied[machine],
                         allowSocketpair)
    ensures r.Accepted? ==> Enforces(r.value, tables, machine, allowSocketpair)
  {
    hide Prologue, SocketpairException, SortedSet, Word, Enforces;
    if machine !in tables.denied || machine !in tables.auditArch || machine !in tables.socketpair {
      return Denied;
    }
    var denied, socketpair := tables.denied[machine], tables.socketpair[machine];
    var instructions := Prologue(tables.auditArch[machine]);
    if machine == "x86_64" {
      instructions := instructions + X32_GUARD;
    }
    assert instructions == Prologue(tables.auditArch[machine]) + Guard(machine);
    if allowSocketpair {
      instructions := instructions + SocketpairException(socketpair);
    } else {
      denied := denied + [socketpair];
    }
    ghost var head := Prologue(tables.auditArch[machine]) + Guard(machine) + Exception(socketpair, allowSocketpair);
    assert instructions == head;
    var numbers := SortedSet(denied);
    for n := 0 to |numbers|
      invariant instructions == head + DenyRules(numbers[..n])
    {
      DenyRulesAppend(numbers[..n], numbers[n]);
      assert numbers[..n + 1] == numbers[..n] + [numbers[n]];
      instructions := instructions + [ SockFilter(JEQ, 0, 1, Word(numbers[n])) ];
      instructions := instructions + [ SockFilter(RET, 0, 0, ERRNO_EPERM) ];
    }
    assert numbers[..|numbers|] == numbers;
    instructions := instructions + [ SockFilter(RET, 0, 0, ALLOW) ];
    Regroup(Prologue(tables.auditArch[machine]), Guard(machine), Exception(socketpair, allowSocketpair),
            DenyRules(numbers), [ SockFilter(RET, 0, 0, ALLOW) ]);
    EnforcesPolicy(tables, machine, allowSocketpair);
    return Accepted(instructions);
  }

  /** The kernel's run of the program gives the policy's action on every system call. */
  ghost predicate Enforces(program: seq<SockFilter>, tables: Tables, machine: string, allowSocketpair: bool)
    requires machine in tables.denied && machine in tables.auditArch && machine in tables.socketpair
  {
    forall data: SeccompData :: |data.args| == 6 ==>
      Run(program, 0, 0, data) == Returned(Policy(machine, tables.auditArch[machine], tables.socketpair[machine],
                                                  tables.denied[machine], allowSocketpair, data))
  }

  lemma EnforcesPolicy(tables: Tables, machine: string, allowSocketpair: bool)
    requires machine in tables.denied && machine in tables.auditArch && machine in tables.socketpair
    ensures Enforces(Program(machine, tables.auditArch[machine], tables.socketpair[machine], tables.denied[machine],
                             allowSocketpair), tables, machine, allowSocketpair)
  {
    hide Run, Program, Policy;
    forall data: SeccompData | |data.args| == 6 {
      FilterImplementsPolicy(machine, tables.auditArch[machine], tables.socketpair[machine], tables.denied[machine],
                             allowSocketpair, data);
    }
  }

  // ----- the policy and compiler correctness -----

  /** The 32-bit field `w` holds the integer `n`: they agree modulo 2^32. */
  predicate Holds(w: u32, n: int) {
    (n - w) % 0x1_0000_0000 == 0
  }

  ghost predicate DeniedNumber(numbers: seq<int>, nr: u32) {
    exists d :: d in numbers && Holds(nr, d)
  }

  /** What the filter is for, stated without reference to instructions, their order or the stored fields:
      0x80000000 kills the process, 0x00050001 fails the call with EPERM, 0x7FFF0000 lets it through. */
  ghost function Policy(machine: string, arch: int, socketpair: int, denied: seq<int>, allowSocketpair: bool,
                        data: SeccompData): u32
    requires |data.args| == 6
  {
    if !Holds(data.arch, arch) then 0x8000_0000
    else if machine == "x86_64" && data.nr / 0x4000_0000 % 2 == 1 then 0x0005_0001
    else if Holds(data.nr, socketpair) && (!allowSocketpair || data.args[0] % 0x1_0000_0000 != 1) then 0x0005_0001
    else if DeniedNumber(denied, data.nr) then 0x0005_0001
    else 0x7FFF_0000
  }

  /** What a `c_uint32` field keeps: the one 32-bit value that agrees with `n` modulo 2^32,
      and `n` itself when it fits. */
  lemma WordIsHeld(n: int, w: u32)
    ensures Holds(w, n) <==> w == Word(n)
    ensures 0 <= n < 0x1_0000_0000 ==> Word(n) == n
  {
    var q := n / 0x1_0000_0000;
    assert n == q * 0x1_0000_0000 + n % 0x1_0000_0000;
    if Holds(w, n) {
      var k := (n - w) / 0x1_0000_0000;
      assert n == k * 0x1_0000_0000 + w;
    }
  }

  /** Running a program from an offset is running the rest of it from its start. */
  lemma {:induction false} RunSuffix(program: seq<SockFilter>, skip: nat, pc: nat, a: u32, data: SeccompData)
    requires skip <= |program|
    ensures Run(program, skip + pc, a, data) == Run(program[skip..], pc, a, data)
    decreases |program| - skip - pc
  {
    hide Execute;
    if skip + pc < |program| {
      var step := Execute(program[skip + pc], a, data);
      if step.Goto? {
        RunSuffix(program, skip, pc + 1 + step.skip, step.a, data);
      }
    }
  }

  lemma {:induction false} RunDenyRules(numbers: seq<int>, a: u32, data: SeccompData)
    ensures Run(Tail(numbers), 0, a, data)
         == Returned(if DeniedNumber(numbers, a) then ERRNO_EPERM else ALLOW)
  {
    hide BitAnd, Words, Run;
    var program := Tail(numbers);
    RunStep(program, 0, a, data);
    if numbers != [] {
      WordIsHeld(numbers[0], a);
      assert program[2..] == Tail(numbers[1..]);
      if a == Word(numbers[0]) {
        RunStep(program, 1, a, data);
      } else {
        RunSuffix(program, 2, 0, a, data);
        RunDenyRules(numbers[1..], a, data);
        assert DeniedNumber(numbers, a) <==> DeniedNumber(numbers[1..], a);
      }
    }
  }

  lemma LoadsRead(a: u32, data: SeccompData)
    ensures Execute(SockFilter(LD_ABS, 0, 0, ARCH_OFFSET), a, data) == Goto(0, data.arch)
    ensures Execute(SockFilter(LD_ABS, 0, 0, NR_OFFSET), a, data) == Goto(0, data.nr)
    ensures |data.args| == 6 ==> Execute(SockFilter(LD_ABS, 0, 0, ARGS_OFFSET), a, data) == Goto(0, Low(data.args[0]))
  {
    hide BitAnd;
  }

  /** Where the struct holds each argument: its low half first, from byte 16 on. */
  lemma ArgumentWords(data: SeccompData, j: nat, a: u32)
    requires j < |data.args| <= 6
    ensures Execute(SockFilter(LD_ABS, 0, 0, 16 + 8 * j), a, data) == Goto(0, data.args[j] % 0x1_0000_0000)
    ensures Execute(SockFilter(LD_ABS, 0, 0, 20 + 8 * j), a, data) == Goto(0, data.args[j] / 0x1_0000_0000)
  {
    hide BitAnd;
    assert (16 + 8 * j) / 4 == 4 + 2 * j && (20 + 8 * j) / 4 == 5 + 2 * j;
  }

  /** One unfolding of the interpreter. */
  lemma RunStep(program: seq<SockFilter>, pc: nat, a: u32, data: SeccompData)
    requires pc < |program|
    ensures Run(program, pc, a, data)
         == match Execute(program[pc], a, data)
            case Goto(skip, a') => Run(program, pc + 1 + skip, a', data)
            case Stop(verdict) => verdict
  {
    hide Execute;
  }

  lemma RunSocketpairException(number: int, rest: seq<SockFilter>, data: SeccompData)
    requires |data.args| == 6
    ensures Run(SocketpairException(number) + rest, 0, data.nr, data)
         == if data.nr == Word(number) && Low(data.args[0]) != AF_UNIX then Returned(ERRNO_EPERM)
            else Run(rest, 0, data.nr, data)
  {
    hide BitAnd, Words, Low, Run;
    var program := SocketpairException(number) + rest;
    assert program[5..] == rest;
    RunSuffix(program, 5, 0, data.nr, data);
    RunStep(program, 0, data.nr, data);
    if data.nr == Word(number) {
      var domain := Low(data.args[0]);
      LoadsRead(data.nr, data);
      RunStep(program, 1, data.nr, data);
      RunStep(program, 2, domain, data);
      RunStep(program, 3, domain, data);
      LoadsRead(domain, data);
      RunStep(program, 4, domain, data);
    }
  }

  lemma X32BitTest(nr: u32)
    ensures BitAnd(nr, X32_SYSCALL_BIT) != 0 <==> nr / X32_SYSCALL_BIT % 2 == 1
  {
    assert Pow2(5) == 32;
    Pow2Divides(5, 10);
    Pow2Divides(10, 20);
    Pow2Divides(10, 30);
    BitAndTestsBit(nr, 30);
  }

  lemma RunX32Guard(rest: seq<SockFilter>, data: SeccompData)
    ensures Run(X32_GUARD + rest, 0, data.nr, data)
         == if data.nr / X32_SYSCALL_BIT % 2 == 1 then Returned(ERRNO_EPERM) else Run(rest, 0, data.nr, data)
  {
    hide BitAnd, Words, Run;
    var program := X32_GUARD + rest;
    assert program[2..] == rest;
    RunSuffix(program, 2, 0, data.nr, data);
    X32BitTest(data.nr);
    RunStep(program, 0, data.nr, data);
    RunStep(program, 1, data.nr, data);
  }

  lemma RunPrologue(arch: int, rest: seq<SockFilter>, data: SeccompData)
    ensures Run(Prologue(arch) + rest, 0, 0, data)
         == if data.arch != Word(arch) then Returned(KILL_PROCESS) else Run(rest, 0, data.nr, data)
  {
    hide BitAnd, Words, Run;
    var program := Prologue(arch) + rest;
    assert program[4..] == rest;
    RunSuffix(program, 4, 0, data.nr, data);
    LoadsRead(0, data);
    RunStep(program, 0, 0, data);
    RunStep(program, 1, data.arch, data);
    RunStep(program, 2, data.arch, data);
    LoadsRead(data.arch, data);
    RunStep(program, 3, data.arch, data);
  }

  lemma RunNumberRules(socketpair: int, denied: seq<int>, allowSocketpair: bool, data: SeccompData)
    requires |data.args| == 6
    ensures Run(Exception(socketpair, allowSocketpair) + Tail(SortedSet(Listed(socketpair, denied, allowSocketpair))),
                0, data.nr, data)
         == Returned(if data.nr == Word(socketpair) && (!allowSocketpair || Low(data.args[0]) != AF_UNIX)
                     then ERRNO_EPERM
                     else if DeniedNumber(denied, data.nr) then ERRNO_EPERM
                     else ALLOW)
  {
    hide Run, Tail, Holds, Word;
    WordIsHeld(socketpair, data.nr);
    var listed := Listed(socketpair, denied, allowSocketpair);
    var numbers := SortedSet(listed);
    RunDenyRules(numbers, data.nr, data);
    assert DeniedNumber(numbers, data.nr) <==> DeniedNumber(listed, data.nr);
    if allowSocketpair {
      RunSocketpairException(socketpair, Tail(numbers), data);
    } else {
      assert [] + Tail(numbers) == Tail(numbers);
      assert socketpair in listed && forall d :: d in listed <==> d in denied || d == socketpair;
    }
  }

  /** Compiler correctness: on every architecture table, deny list and system call the
      emitted program stays in bounds and returns the policy's action. */
  lemma FilterImplementsPolicy(machine: string, arch: int, socketpair: int, denied: seq<int>, allowSocketpair: bool,
                               data: SeccompData)
    requires |data.args| == 6
    ensures Run(Program(machine, arch, socketpair, denied, allowSocketpair), 0, 0, data)
         == Returned(Policy(machine, arch, socketpair, denied, allowSocketpair, data))
  {
    hide Run, Prologue, SortedSet;
    var middle := Exception(socketpair, allowSocketpair) + Tail(SortedSet(Listed(socketpair, denied, allowSocketpair)));
    RunPrologue(arch, Guard(machine) + middle, data);
    if machine == "x86_64" {
      RunX32Guard(middle, data);
    } else {
      assert Guard(machine) + middle == middle;
    }
    RunNumberRules(socketpair, denied, allowSocketpair, data);
    WordIsHeld(arch, data.arch);
    WordIsHeld(socketpair, data.nr);
  }

  /** On tables of 32-bit numbers the policy compares numbers: another architecture is killed, and on
      this one exactly the listed calls, the x32 calls and the restricted socketpair fail. */
  lemma FilterOnTables(machine: string, arch: u32, socketpair: u32, denied: seq<int>, allowSocketpair: bool,
                       data: SeccompData)
    requires |data.args| == 6 && forall d :: d in denied ==> 0 <= d < 0x1_0000_0000
    ensures Run(Program(machine, arch, socketpair, denied, allowSocketpair), 0, 0, data)
         == Returned(if data.arch != arch then 0x8000_0000
                     else if machine == "x86_64" && data.nr / 0x4000_0000 % 2 == 1 then 0x0005_0001
                     else if data.nr == socketpair && !(allowSocketpair && data.args[0] % 0x1_0000_0000 == 1)
                     then 0x0005_0001
                     else if data.nr in denied then 0x0005_0001
                     else 0x7FFF_0000)
  {
    FilterImplementsPolicy(machine, arch, socketpair, denied, allowSocketpair, data);
    hide Run, Program, Word;
    WordIsHeld(arch, data.arch);
    WordIsHeld(socketpair, data.nr);
    forall d | d in denied ensures Holds(data.nr, d) <==> d == data.nr {
      WordIsHeld(d, data.nr);
    }
  }

  // ----- the kernel's view of the program -----

  lemma {:induction false} DenyRulesLength(numbers: seq<int>)
    ensures |DenyRules(numbers)| == 2 * |numbers|
  {
    if numbers != [] {
      DenyRulesLength(numbers[1..]);
    }
  }

  /** `SockFprog.length` is a `c_ushort`: the kernel sees the length modulo 2^16.  It sees the
      whole program exactly when the program has fewer than 2^16 instructions, and any
      deny list of at most 32761 numbers guarantees that. */
  lemma ProgramLength(machine: string, arch: int, socketpair: int, denied: seq<int>, allowSocketpair: bool)
    ensures var program := Program(machine, arch, socketpair, denied, allowSocketpair);
      && |program| == 5 + (if machine == "x86_64" then 2 else 0) + (if allowSocketpair then 5 else 0)
                      + 2 * |SortedSet(Listed(socketpair, denied, allowSocketpair))|
      && (program[..|program| % 0x1_0000] == program <==> |program| < 0x1_0000)
      && (|denied| <= 32761 ==> |program| < 0x1_0000)
  {
    ProgramCount(machine, arch, socketpair, denied, allowSocketpair);
    hide Program;
    Truncation(Program(machine, arch, socketpair, denied, allowSocketpair));
  }

  lemma ProgramCount(machine: string, arch: int, socketpair: int, denied: seq<int>, allowSocketpair: bool)
    ensures |Program(machine, arch, socketpair, denied, allowSocketpair)|
         == 5 + (if machine == "x86_64" then 2 else 0) + (if allowSocketpair then 5 else 0)
            + 2 * |SortedSet(Listed(socketpair, denied, allowSocketpair))|
  {
    var numbers := SortedSet(Listed(socketpair, denied, allowSocketpair));
    DenyRulesLength(numbers);
    hide SortedSet, DenyRules, Word;
    assert |Prologue(arch)| == 4 && |X32_GUARD| == 2 && |SocketpairException(socketpair)| == 5;
    assert |Tail(numbers)| == 2 * |numbers| + 1;
  }

  lemma Truncation(program: seq<SockFilter>)
    ensures program[..|program| % 0x1_0000] == program <==> |program| < 0x1_0000
  {
    if |program| >= 0x1_0000 {
      assert |program[..|program| % 0x1_0000]| < |program|;
    }
  }
}
