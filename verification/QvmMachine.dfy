/**
  The virtual machine of Shared/vm_interpreted.c, as its code means it: a machine that counts
  instructions, not words, and takes its operands from the stack.
 */
module QvmMachine {
  import opened BitStream
  import opened Words
  import opened Options

  const OP_BREAK := 2
  const OP_ENTER := 3
  const OP_LEAVE := 4
  const OP_CALL := 5
  const OP_PUSH := 6
  const OP_POP := 7
  const OP_CONST := 8
  const OP_LOCAL := 9
  const OP_JUMP := 10
  const OP_EQ := 11
  const OP_NE := 12
  const OP_LTI := 13
  const OP_LEI := 14
  const OP_GTI := 15
  const OP_GEI := 16
  const OP_LTU := 17
  const OP_LEU := 18
  const OP_GTU := 19
  const OP_GEU := 20
  const OP_EQF := 21
  const OP_GEF := 26
  const OP_LOAD1 := 27
  const OP_LOAD2 := 28
  const OP_LOAD4 := 29
  const OP_STORE1 := 30
  const OP_STORE2 := 31
  const OP_STORE4 := 32
  const OP_ARG := 33
  const OP_BLOCK_COPY := 34
  const OP_SEX8 := 35
  const OP_SEX16 := 36
  const OP_NEGI := 37
  const OP_ADD := 38
  const OP_SUB := 39
  const OP_DIVI := 40
  const OP_DIVU := 41
  const OP_MODI := 42
  const OP_MODU := 43
  const OP_MULI := 44
  const OP_MULU := 45
  const OP_BAND := 46
  const OP_BOR := 47
  const OP_BXOR := 48
  const OP_BCOM := 49
  const OP_LSH := 50
  const OP_RSHI := 51
  const OP_RSHU := 52
  const OP_NEGF := 53
  const OP_ADDF := 54
  const OP_MULF := 57
  const OP_CVIF := 58
  const OP_CVFI := 59

  /** The cells of the operand stack, with the one below its first: the interpreter reads there
      while the stack is empty. */
  const CELLS := 257

  type Image = seq<byte>

  /** An instruction; one without operand has arg 0. */
  datatype Instr = Instr(op: int, arg: int)

  predicate Branches(op: int) {
    OP_EQ <= op <= OP_GEF
  }

  predicate HasWord(op: int) {
    Branches(op) || op == OP_ENTER || op == OP_LEAVE || op == OP_CONST || op == OP_LOCAL || op == OP_BLOCK_COPY
  }

  predicate HasOperand(op: int) {
    HasWord(op) || op == OP_ARG
  }

  /** Well-formed code: branch targets are instructions, and operands are of their size. */
  predicate WellFormed(code: seq<Instr>) {
    forall i | 0 <= i < |code| ::
      && 0 <= code[i].op < 256 && Int32(code[i].arg)
      && (Branches(code[i].op) ==> 0 <= code[i].arg < |code|)
      && (code[i].op == OP_ARG ==> 0 <= code[i].arg < 256)
      && (!HasOperand(code[i].op) ==> code[i].arg == 0)
  }

  function Size(i: Instr): nat {
    if HasOperand(i.op) then 2 else 1
  }

  /** The number of words that the first n instructions take. */
  function Pointer(code: seq<Instr>, n: nat): nat
    requires n <= |code|
  {
    if n == 0 then 0 else Pointer(code, n - 1) + Size(code[n - 1])
  }

  lemma {:induction false} PointersGrow(code: seq<Instr>, i: nat, j: nat)
    requires i < j <= |code|
    ensures Pointer(code, i) + Size(code[i]) <= Pointer(code, j)
    decreases j
  {
    if i < j - 1 { PointersGrow(code, i, j - 1); }
  }

  /** Different instructions have different pointers. */
  lemma PointersDiffer(code: seq<Instr>, i: nat, j: nat)
    requires i <= |code| && j <= |code| && Pointer(code, i) == Pointer(code, j)
    ensures i == j
  {
    if i < j { PointersGrow(code, i, j); }
    if j < i { PointersGrow(code, j, i); }
  }

  /** The instruction that a pointer points at. */
  ghost function InstructionAt(code: seq<Instr>, pointer: int): (r: Option<nat>)
    ensures r.Some? ==> r.value < |code| && Pointer(code, r.value) == pointer
  {
    if i: nat :| i < |code| && Pointer(code, i) == pointer then Some(i) else None
  }

  lemma InstructionAtPointer(code: seq<Instr>, i: nat)
    requires i < |code|
    ensures InstructionAt(code, Pointer(code, i)) == Some(i)
  {
    var r := InstructionAt(code, Pointer(code, i));
    PointersDiffer(code, i, r.value);
  }

  /** The memory with these bytes stored at a. */
  function Put(m: Image, a: int, bytes: seq<byte>): (r: Image)
    requires 0 <= a && a + |bytes| <= |m|
    ensures |r| == |m|
  {
    m[..a] + bytes + m[a + |bytes|..]
  }

  /** a & dataMask & ~(align - 1); dataMask is one less than the size of the memory, a power of two. */
  function Masked(a: int, size: int, align: int): (r: int)
    requires size > 0 && align > 0
  {
    a % size - a % size % align
  }

  /** What the machine leaves to its host: system calls, which work on the memory at a stack
      position, and floating point. */
  datatype Host = Host(
    system: (Image, int) -> (int, Image),
    compareFloats: (int, int, int) -> bool,
    computeFloats: (int, int, int) -> int)

  /** A machine: its code, the size of the code as loaded, and its host. */
  datatype Machine = Machine(code: seq<Instr>, codeLength: int, host: Host)

  /** pc counts instructions; top is the index of the topmost cell. */
  datatype State = State(pc: int, top: int, cells: seq<int>, sp: int, image: Image, breaks: nat)

  datatype Outcome = Running(s: State) | Finished(s: State) | Failed | Undefined

  predicate Proper(s: State) {
    |s.cells| == CELLS && |s.image| > 0 && |s.image| % 4 == 0
  }

  /** Goes on, unless the stack has run over or under. */
  function Go(s: State): Outcome {
    if 1 <= s.top < CELLS then Running(s) else Undefined
  }

  predicate Compare(host: Host, op: int, a: int, b: int) {
    if op == OP_EQ then a == b
    else if op == OP_NE then a != b
    else if op == OP_LTI then a < b
    else if op == OP_LEI then a <= b
    else if op == OP_GTI then a > b
    else if op == OP_GEI then a >= b
    else if op == OP_LTU then Unsigned(a) < Unsigned(b)
    else if op == OP_LEU then Unsigned(a) <= Unsigned(b)
    else if op == OP_GTU then Unsigned(a) > Unsigned(b)
    else if op == OP_GEU then Unsigned(a) >= Unsigned(b)
    else host.compareFloats(op, a, b)
  }

  function BranchStep(m: Machine, s: State, i: Instr): Outcome
    requires Proper(s) && 1 <= s.top < CELLS
  {
    var pc := if Compare(m.host, i.op, s.cells[s.top - 1], s.cells[s.top]) then i.arg else s.pc + 1;
    Go(s.(pc := pc, top := s.top - 2))
  }

  function Pushed(s: State, v: int): Outcome
    requires Proper(s) && 1 <= s.top < CELLS
  {
    if s.top + 1 < CELLS then Running(s.(pc := s.pc + 1, top := s.top + 1, cells := s.cells[s.top + 1 := v]))
    else Undefined
  }

  predicate IsStackOp(op: int) {
    op == OP_CONST || op == OP_LOCAL || op == OP_PUSH || op == OP_POP || op == OP_BREAK
  }

  function StackStep(s: State, i: Instr): Outcome
    requires Proper(s) && 1 <= s.top < CELLS
  {
    if i.op == OP_CONST then Pushed(s, i.arg)
    else if i.op == OP_LOCAL then Pushed(s, Wrap(i.arg + s.sp))
    else if i.op == OP_PUSH then Go(s.(pc := s.pc + 1, top := s.top + 1))
    else if i.op == OP_POP then Go(s.(pc := s.pc + 1, top := s.top - 1))
    else Running(s.(pc := s.pc + 1, breaks := s.breaks + 1))
  }

  predicate IsLoad(op: int) {
    op == OP_LOAD1 || op == OP_LOAD2 || op == OP_LOAD4
  }

  function Loaded(m: Image, op: int, a: int): int
    requires |m| > 0 && |m| % 4 == 0
  {
    if op == OP_LOAD4 then Load4(m, Masked(a, |m|, 4))
    else if op == OP_LOAD2 then
      var at := Masked(a, |m|, 2);
      m[at] as int + 0x100 * m[at + 1] as int
    else m[a % |m|]
  }

  function LoadStep(s: State, i: Instr): Outcome
    requires Proper(s) && 1 <= s.top < CELLS
  {
    Running(s.(pc := s.pc + 1, cells := s.cells[s.top := Loaded(s.image, i.op, s.cells[s.top])]))
  }

  predicate IsStore(op: int) {
    op == OP_STORE1 || op == OP_STORE2 || op == OP_STORE4
  }

  function StoreStep(s: State, i: Instr): Outcome
    requires Proper(s) && 1 <= s.top < CELLS
  {
    var a, v := s.cells[s.top - 1], s.cells[s.top];
    var image :=
      if i.op == OP_STORE4 then Put(s.image, Masked(a, |s.image|, 4), WordBytes(v))
      else if i.op == OP_STORE2 then Put(s.image, Masked(a, |s.image|, 2), WordBytes(v)[..2])
      else Put(s.image, a % |s.image|, WordBytes(v)[..1]);
    Go(s.(pc := s.pc + 1, top := s.top - 2, image := image))
  }

  function ArgStep(s: State, i: Instr): Outcome
    requires Proper(s) && 1 <= s.top < CELLS
  {
    Go(s.(pc := s.pc + 1, top := s.top - 1,
          image := Put(s.image, Masked(i.arg + s.sp, |s.image|, 4), WordBytes(s.cells[s.top]))))
  }

  /** The number of bytes that are copied, once both ranges have been masked. */
  function CopyCount(size: int, src: int, dest: int, count: int): int
    requires size > 0
  {
    var n := (src + count) % size - src;
    (dest + n) % size - dest
  }

  /** OP_BLOCK_COPY; a negative count and overlapping ranges are undefined. */
  function CopyStep(s: State, i: Instr): Outcome
    requires Proper(s) && 1 <= s.top < CELLS
  {
    var size := |s.image|;
    var src, dest := s.cells[s.top] % size, s.cells[s.top - 1] % size;
    var n := CopyCount(size, src, dest, i.arg);
    if n < 0 || src + n > size || (src < dest + n && dest < src + n) then Undefined
    else Go(s.(pc := s.pc + 1, top := s.top - 2, image := Put(s.image, dest, s.image[src..src + n])))
  }

  predicate IsControl(op: int) {
    op == OP_ENTER || op == OP_LEAVE || op == OP_CALL || op == OP_JUMP
  }

  /** A function call saves the pointer to the next instruction in the frame, a system call runs
      the host on the memory and then goes where the saved pointer leads. */
  ghost function CallStep(m: Machine, s: State): Outcome
    requires Proper(s) && 1 <= s.top < CELLS && 0 <= s.pc < |m.code|
  {
    if !(0 <= s.sp && s.sp + 8 <= |s.image|) then Undefined
    else
      var target := s.cells[s.top];
      var saved := Put(s.image, s.sp, WordBytes(Pointer(m.code, s.pc + 1)));
      if target >= |m.code| then Failed
      else if target >= 0 then Go(s.(pc := target, top := s.top - 1, image := saved))
      else
        var (r, image) := m.host.system(Put(saved, s.sp + 4, WordBytes(-1 - target)), s.sp);
        if |image| != |s.image| then Undefined
        else
          match InstructionAt(m.code, Load4(image, s.sp))
          case None => Undefined
          case Some(next) => Go(s.(pc := next, cells := s.cells[s.top := r], image := image))
  }

  ghost function LeaveStep(m: Machine, s: State, i: Instr): Outcome
    requires Proper(s)
  {
    var sp := Wrap(s.sp + i.arg);
    if !(0 <= sp && sp + 4 <= |s.image|) then Undefined
    else
      var saved := Load4(s.image, sp);
      if saved == -1 then Finished(s.(sp := sp))
      else if Unsigned(saved) >= m.codeLength then Failed
      else
        match InstructionAt(m.code, saved)
        case None => Undefined
        case Some(next) => Go(s.(pc := next, sp := sp))
  }

  ghost function ControlStep(m: Machine, s: State, i: Instr): Outcome
    requires Proper(s) && 1 <= s.top < CELLS && 0 <= s.pc < |m.code|
  {
    if i.op == OP_ENTER then Go(s.(pc := s.pc + 1, sp := Wrap(s.sp - i.arg)))
    else if i.op == OP_LEAVE then LeaveStep(m, s, i)
    else if i.op == OP_CALL then CallStep(m, s)
    else if Unsigned(s.cells[s.top]) >= |m.code| then Failed
    else Go(s.(pc := Unsigned(s.cells[s.top]), top := s.top - 1))
  }

  // Arithmetic

  function Bitwise(f: (bool, bool) -> bool, a: int, b: int, n: nat): nat
    decreases n
  {
    if n == 0 then 0
    else (if f(a % 2 == 1, b % 2 == 1) then 1 else 0) + 2 * Bitwise(f, a / 2, b / 2, n - 1)
  }

  function Magnitude(a: int): nat {
    if a < 0 then -a else a
  }

  /** C's division, which truncates. */
  function Quotient(a: int, b: int): int
    requires b != 0
  {
    var q: int := Magnitude(a) / Magnitude(b);
    if (a < 0) == (b < 0) then q else -q
  }

  predicate IsUnary(op: int) {
    op == OP_SEX8 || op == OP_SEX16 || op == OP_NEGI || op == OP_BCOM || op == OP_NEGF || op == OP_CVIF || op == OP_CVFI
  }

  function Unary(host: Host, op: int, a: int): int {
    if op == OP_SEX8 then (a + 0x80) % 0x100 - 0x80
    else if op == OP_SEX16 then (a + 0x8000) % 0x1_0000 - 0x8000
    else if op == OP_NEGI then Wrap(-a)
    else if op == OP_BCOM then Wrap(-1 - a)
    else host.computeFloats(op, a, 0)
  }

  predicate IsBinary(op: int) {
    (OP_ADD <= op <= OP_BXOR) || (OP_LSH <= op <= OP_RSHU) || (OP_ADDF <= op <= OP_MULF)
  }

  /** Division by zero, the one quotient that does not fit, and shifts by more than the width of a
      word are undefined. */
  predicate Computes(op: int, a: int, b: int) {
    && ((op == OP_DIVI || op == OP_MODI) ==> b != 0 && !(a == -0x8000_0000 && b == -1))
    && ((op == OP_DIVU || op == OP_MODU) ==> Unsigned(b) != 0)
    && ((op == OP_LSH || op == OP_RSHI || op == OP_RSHU) ==> 0 <= b < 32)
  }

  function Binary(host: Host, op: int, a: int, b: int): int
    requires Computes(op, a, b)
  {
    if op == OP_ADD then Wrap(a + b)
    else if op == OP_SUB then Wrap(a - b)
    else if op == OP_DIVI then Quotient(a, b)
    else if op == OP_DIVU then Wrap(Unsigned(a) / Unsigned(b))
    else if op == OP_MODI then a - b * Quotient(a, b)
    else if op == OP_MODU then Wrap(Unsigned(a) % Unsigned(b))
    else if op == OP_MULI || op == OP_MULU then Wrap(a * b)
    else if op == OP_BAND then Wrap(Bitwise((x, y) => x && y, a, b, 32))
    else if op == OP_BOR then Wrap(Bitwise((x, y) => x || y, a, b, 32))
    else if op == OP_BXOR then Wrap(Bitwise((x, y) => x != y, a, b, 32))
    else if op == OP_LSH then Wrap(a * Pow2(b))
    else if op == OP_RSHI then a / Pow2(b)
    else if op == OP_RSHU then Wrap(Unsigned(a) / Pow2(b))
    else host.computeFloats(op, a, b)
  }

  function ComputeStep(m: Machine, s: State, i: Instr): Outcome
    requires Proper(s) && 1 <= s.top < CELLS && (IsUnary(i.op) || IsBinary(i.op))
  {
    var a, b := s.cells[s.top - 1], s.cells[s.top];
    if IsUnary(i.op) then Running(s.(pc := s.pc + 1, cells := s.cells[s.top := Unary(m.host, i.op, b)]))
    else if !Computes(i.op, a, b) then Undefined
    else Go(s.(pc := s.pc + 1, top := s.top - 1, cells := s.cells[s.top - 1 := Binary(m.host, i.op, a, b)]))
  }

  /** One instruction; an opcode without a meaning does nothing. */
  ghost function Step(m: Machine, s: State): (r: Outcome)
    requires Proper(s)
    ensures r.Running? ==> Proper(r.s) && 1 <= r.s.top < CELLS
    ensures r.Finished? ==> Proper(r.s)
  {
    if !(0 <= s.pc < |m.code|) || !(1 <= s.top < CELLS) then Undefined
    else
      var i := m.code[s.pc];
      if Branches(i.op) then BranchStep(m, s, i)
      else if IsStackOp(i.op) then StackStep(s, i)
      else if IsLoad(i.op) then LoadStep(s, i)
      else if IsStore(i.op) then StoreStep(s, i)
      else if i.op == OP_ARG then ArgStep(s, i)
      else if i.op == OP_BLOCK_COPY then CopyStep(s, i)
      else if IsControl(i.op) then ControlStep(m, s, i)
      else if IsUnary(i.op) || IsBinary(i.op) then ComputeStep(m, s, i)
      else Go(s.(pc := s.pc + 1))
  }

  /** n instructions, or fewer if the machine stops before. */
  ghost function Run(m: Machine, s: State, n: nat): (r: Outcome)
    requires Proper(s)
    ensures r.Running? || r.Finished? ==> Proper(r.s)
    decreases n
  {
    if n == 0 then Running(s)
    else
      match Step(m, s)
      case Running(t) => Run(m, t, n - 1)
      case stopped => stopped
  }
}
