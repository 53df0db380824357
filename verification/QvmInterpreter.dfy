/**
  VM_CallInterpreted of Shared/vm_interpreted.c: the interpreter runs word code and keeps the two
  topmost cells of the operand stack in r0 and r1. It is proved to do what the machine does that
  counts instructions.
 */
module QvmInterpreter {
  import opened BitStream
  import opened Words
  import opened QvmMachine
  import opened QvmLoader

  datatype Result = Returned(value: int) | Dropped | Unfinished

  /** The words of a list, one above the other. */
  function WordsBytes(words: seq<int>): (r: seq<byte>)
    ensures |r| == 4 * |words|
  {
    if words == [] then [] else WordBytes(words[0]) + WordsBytes(words[1..])
  }

  /** The state in which a call starts: the frame holds the return address -1, which ends the run,
      and the arguments. */
  function Entry(cells: seq<int>, image: Image, stackOnEntry: int, args: seq<int>, breaks: nat): (r: State)
    requires |args| == 10 && 48 <= stackOnEntry <= |image|
    ensures |r.cells| == |cells| && |r.image| == |image| && r.top == 1
  {
    State(0, 1, cells, stackOnEntry - 48, Put(image, stackOnEntry - 48, WordsBytes([-1, 0] + args)), breaks)
  }

  /** What VM_CallInterpreted returns; it fails if the stack does not hold just the result. */
  function ResultOf(end: Outcome): Result {
    match end
    case Finished(s) => if s.top == 2 && |s.cells| == CELLS then Returned(s.cells[2]) else Dropped
    case Running(_) => Unfinished
    case _ => Dropped
  }

  datatype Flow = NextInstruction | NextInstruction2 | Done | Error

  class Interpreter {
    // the loaded program
    const codeImage: array<int>
    const instructionPointers: array<int>
    const codeLength: int
    const instructionCount: int
    const image: array<byte>

    // the variables of VM_CallInterpreted
    const stack: array<int>
    var opStack: int
    var programCounter: int
    var programStack: int
    var r0: int
    var r1: int
    var breakCount: nat

    // the instruction that comes next
    ghost var at: int

    constructor (vm: Vm, dataBase: array<byte>, ghost m: Machine)
      requires Prepared(m.code, vm.codeBase[..], vm.instructionPointers[..])
      requires vm.codeLength == m.codeLength && vm.instructionCount == |m.code| <= vm.codeLength && Int32(vm.codeLength)
      requires Pointer(m.code, |m.code|) <= vm.codeLength && dataBase.Length > 0 && dataBase.Length % 4 == 0
      ensures Loaded(m) && image == dataBase && fresh(stack) && breakCount == 0
    {
      codeImage, instructionPointers, codeLength, instructionCount :=
        vm.codeBase, vm.instructionPointers, vm.codeLength, vm.instructionCount;
      image := dataBase;
      stack := new int[CELLS];
      opStack, programCounter, programStack, r0, r1, breakCount, at := 1, 0, 0, 0, 0, 0, 0;
    }

    /** The machine's state, in terms of instructions. */
    ghost function State(): State
      reads this, stack, image
    {
      QvmMachine.State(at, opStack, stack[..], programStack, image[..], breakCount)
    }

    /** The program is loaded, and the buffers are where they should be. */
    ghost predicate Loaded(m: Machine)
      reads this, codeImage, instructionPointers
    {
      && Prepared(m.code, codeImage[..], instructionPointers[..])
      && codeLength == m.codeLength && instructionCount == |m.code| && Int32(codeLength) && Int32(instructionCount)
      && Pointer(m.code, |m.code|) <= codeLength
      && stack != codeImage && stack != instructionPointers && stack.Length == CELLS
      && image.Length > 0 && image.Length % 4 == 0
    }

    /** The program counter points at the instruction that comes next. */
    ghost predicate Aligned(m: Machine)
      reads this
    {
      0 <= at <= |m.code| && programCounter == Pointer(m.code, at)
    }

    /** r0 and r1 are the two topmost cells. */
    ghost predicate Cached()
      reads this, stack
    {
      1 <= opStack < stack.Length == CELLS && r0 == stack[opStack] && r1 == stack[opStack - 1]
    }

    /** What a part of the interpreter leaves matches the machine's outcome. */
    ghost predicate Matches(m: Machine, flow: Flow, r: Outcome)
      reads this, stack, image
    {
      match r
      case Running(s) =>
        && State() == s && Aligned(m)
        && (flow == NextInstruction || (flow == NextInstruction2 && Cached()))
      case Finished(s) => flow == Done && State() == s
      case Failed => flow == Error
      case Undefined => true
    }

    /** The interpreter is behind the opcode of instruction `at`. */
    ghost predicate Fetched(m: Machine, op: int)
      reads this, codeImage, instructionPointers, stack
    {
      && Loaded(m) && Cached() && 0 <= at < |m.code| && op == m.code[at].op
      && programCounter == Pointer(m.code, at) + 1
    }

    /** The branches */
    method BranchOp(host: Host, ghost m: Machine, op: int) returns (flow: Flow)
      requires Fetched(m, op) && Branches(op) && host == m.host
      modifies this
      ensures Loaded(m) && Matches(m, flow, BranchStep(m, old(State()), m.code[old(at)]))
    {
      hide Pointer;
      OperandIs(m.code, codeImage[..], instructionPointers[..], at);
      opStack := opStack - 2;
      var taken;
      if op == OP_EQ {
        taken := r1 == r0;
      } else if op == OP_NE {
        taken := r1 != r0;
      } else if op == OP_LTI {
        taken := r1 < r0;
      } else if op == OP_LEI {
        taken := r1 <= r0;
      } else if op == OP_GTI {
        taken := r1 > r0;
      } else if op == OP_GEI {
        taken := r1 >= r0;
      } else if op == OP_LTU {
        taken := Unsigned(r1) < Unsigned(r0);
      } else if op == OP_LEU {
        taken := Unsigned(r1) <= Unsigned(r0);
      } else if op == OP_GTU {
        taken := Unsigned(r1) > Unsigned(r0);
      } else if op == OP_GEU {
        taken := Unsigned(r1) >= Unsigned(r0);
      } else {
        taken := host.compareFloats(op, r1, r0);
      }
      if taken {
        programCounter := codeImage[programCounter];
        at := m.code[at].arg;
      } else {
        programCounter := programCounter + 1;
        at := at + 1;
      }
      flow := NextInstruction;
    }

    /** OP_BREAK, OP_CONST, OP_LOCAL, OP_PUSH and OP_POP */
    method StackOp(ghost m: Machine, op: int) returns (flow: Flow)
      requires Fetched(m, op) && IsStackOp(op)
      requires !StackStep(State(), m.code[at]).Undefined?
      modifies this, stack
      ensures Loaded(m) && Matches(m, flow, StackStep(old(State()), m.code[old(at)]))
    {
      hide Pointer, Prepared;
      OperandIs(m.code, codeImage[..], instructionPointers[..], at);
      flow := NextInstruction2;
      if op == OP_BREAK {
        breakCount := breakCount + 1;
      } else if op == OP_CONST {
        opStack := opStack + 1;
        r1 := r0;
        stack[opStack] := codeImage[programCounter];
        r0 := stack[opStack];
        programCounter := programCounter + 1;
      } else if op == OP_LOCAL {
        opStack := opStack + 1;
        r1 := r0;
        stack[opStack] := Wrap(codeImage[programCounter] + programStack);
        r0 := stack[opStack];
        programCounter := programCounter + 1;
      } else if op == OP_PUSH {
        opStack := opStack + 1;
        flow := NextInstruction;
      } else {
        opStack := opStack - 1;
        flow := NextInstruction;
      }
      at := at + 1;
    }

    /** OP_LOAD1, OP_LOAD2 and OP_LOAD4 */
    method LoadOp(ghost m: Machine, op: int) returns (flow: Flow)
      requires Fetched(m, op) && IsLoad(op)
      modifies this, stack
      ensures Loaded(m) && Matches(m, flow, LoadStep(old(State()), m.code[old(at)]))
    {
      hide Pointer, Prepared;
      OperandIs(m.code, codeImage[..], instructionPointers[..], at);
      MaskedFits(r0, image.Length);
      if op == OP_LOAD4 {
        stack[opStack] := Load4(image[..], Masked(r0, image.Length, 4));
      } else if op == OP_LOAD2 {
        var a := Masked(r0, image.Length, 2);
        stack[opStack] := image[a] as int + 0x100 * image[a + 1] as int;
      } else {
        stack[opStack] := image[r0 % image.Length];
      }
      r0 := stack[opStack];
      at := at + 1;
      flow := NextInstruction2;
    }

    /** Stores bytes into the memory. */
    method Store(a: int, bytes: seq<byte>)
      requires 0 <= a && a + |bytes| <= image.Length
      modifies image
      ensures image[..] == Put(old(image[..]), a, bytes)
    {
      var i := 0;
      while i < |bytes|
        invariant 0 <= i <= |bytes|
        invariant image[..] == Put(old(image[..]), a, bytes[..i])
      {
        image[a + i] := bytes[i];
        i := i + 1;
      }
      assert bytes[..i] == bytes;
    }

    /** OP_STORE1, OP_STORE2 and OP_STORE4 */
    method StoreOp(ghost m: Machine, op: int) returns (flow: Flow)
      requires Fetched(m, op) && IsStore(op)
      modifies this, image
      ensures Loaded(m) && Matches(m, flow, StoreStep(old(State()), m.code[old(at)]))
    {
      hide Pointer, Prepared, WordBytes, Put;
      OperandIs(m.code, codeImage[..], instructionPointers[..], at);
      MaskedFits(r1, image.Length);
      if op == OP_STORE4 {
        Store(Masked(r1, image.Length, 4), WordBytes(r0));
      } else if op == OP_STORE2 {
        Store(Masked(r1, image.Length, 2), WordBytes(r0)[..2]);
      } else {
        Store(r1 % image.Length, WordBytes(r0)[..1]);
      }
      opStack := opStack - 2;
      at := at + 1;
      flow := NextInstruction;
    }

    /** OP_ARG */
    method ArgOp(ghost m: Machine, op: int) returns (flow: Flow)
      requires Fetched(m, op) && op == OP_ARG
      modifies this, image
      ensures Loaded(m) && Matches(m, flow, ArgStep(old(State()), m.code[old(at)]))
    {
      hide Pointer, Prepared, WordBytes, Put;
      OperandIs(m.code, codeImage[..], instructionPointers[..], at);
      MaskedFits(codeImage[programCounter] + programStack, image.Length);
      Store(Masked(codeImage[programCounter] + programStack, image.Length, 4), WordBytes(r0));
      opStack := opStack - 1;
      programCounter := programCounter + 1;
      at := at + 1;
      flow := NextInstruction;
    }

    /** The bytes that OP_BLOCK_COPY moves */
    method BlockCopy(dest: int, src: int, arg: int)
      requires image.Length > 0
      requires
        var size := image.Length;
        var n := CopyCount(size, src % size, dest % size, arg);
        0 <= n && src % size + n <= size
      modifies image
      ensures
        var size := image.Length;
        var n := CopyCount(size, src % size, dest % size, arg);
        image[..] == Put(old(image[..]), dest % size, old(image[src % size..src % size + n]))
    {
      hide Put;
      var count := arg;
      var srci, desti := src % image.Length, dest % image.Length;
      count := (srci + count) % image.Length - srci;
      count := (desti + count) % image.Length - desti;
      Store(desti, image[srci..srci + count]);
    }

    /** OP_BLOCK_COPY */
    method CopyOp(ghost m: Machine, op: int) returns (flow: Flow)
      requires Fetched(m, op) && op == OP_BLOCK_COPY
      requires !CopyStep(State(), m.code[at]).Undefined?
      modifies this, image
      ensures Loaded(m) && Matches(m, flow, CopyStep(old(State()), m.code[old(at)]))
    {
      hide Pointer, Prepared, Put;
      OperandIs(m.code, codeImage[..], instructionPointers[..], at);
      BlockCopy(r1, r0, codeImage[programCounter]);
      programCounter := programCounter + 1;
      opStack := opStack - 2;
      at := at + 1;
      flow := NextInstruction;
    }

    /** OP_CALL */
    method CallOp(host: Host, ghost m: Machine, op: int) returns (flow: Flow)
      requires Fetched(m, op) && op == OP_CALL && host == m.host
      requires !CallStep(m, State()).Undefined?
      modifies this, stack, image
      ensures Loaded(m) && Matches(m, flow, CallStep(m, old(State())))
    {
      hide Pointer, Prepared, WordBytes, Put, Load4;
      OperandIs(m.code, codeImage[..], instructionPointers[..], at);
      Store(programStack, WordBytes(programCounter));
      programCounter := r0;
      opStack := opStack - 1;
      if programCounter < 0 {
        Store(programStack + 4, WordBytes(-1 - programCounter));
        var (r, after) := host.system(image[..], programStack);
        Overwrite(after);
        opStack := opStack + 1;
        stack[opStack] := r;
        programCounter := Load4(image[..], programStack);
        at := InstructionAt(m.code, programCounter).value;
      } else if programCounter >= instructionCount {
        return Error;
      } else {
        at := programCounter;
        PointerIs(m.code, codeImage[..], instructionPointers[..], at);
        programCounter := instructionPointers[programCounter];
      }
      flow := NextInstruction;
    }

    /** The memory as a system call leaves it. */
    method Overwrite(after: Image)
      requires |after| == image.Length
      modifies image
      ensures image[..] == after
    {
      var i := 0;
      while i < |after|
        invariant 0 <= i <= |after| && image[..i] == after[..i]
      {
        image[i] := after[i];
        i := i + 1;
      }
    }

    /** OP_ENTER, OP_LEAVE and OP_JUMP */
    method ControlOp(ghost m: Machine, op: int) returns (flow: Flow)
      requires Fetched(m, op) && IsControl(op) && op != OP_CALL
      requires !ControlStep(m, State(), m.code[at]).Undefined?
      modifies this
      ensures Loaded(m) && Matches(m, flow, ControlStep(m, old(State()), m.code[old(at)]))
    {
      hide Pointer, Prepared, Load4;
      OperandIs(m.code, codeImage[..], instructionPointers[..], at);
      flow := NextInstruction;
      if op == OP_ENTER {
        var v1 := codeImage[programCounter];
        programCounter := programCounter + 1;
        programStack := Wrap(programStack - v1);
        at := at + 1;
      } else if op == OP_LEAVE {
        var v1 := codeImage[programCounter];
        programStack := Wrap(programStack + v1);
        programCounter := Load4(image[..], programStack);
        if programCounter == -1 {
          return Done;
        } else if Unsigned(programCounter) >= codeLength {
          return Error;
        }
        at := InstructionAt(m.code, programCounter).value;
      } else {
        if Unsigned(r0) >= instructionCount {
          return Error;
        }
        at := Unsigned(r0);
        PointerIs(m.code, codeImage[..], instructionPointers[..], at);
        programCounter := instructionPointers[Unsigned(r0)];
        opStack := opStack - 1;
      }
    }

    /** What the operations on one cell put in its place */
    method Compute(host: Host, op: int, r0: int) returns (v: int)
      requires IsUnary(op)
      ensures v == Unary(host, op, r0)
    {
      if op == OP_NEGI {
        v := Wrap(-r0);
      } else if op == OP_BCOM {
        v := Wrap(-1 - r0);
      } else if op == OP_SEX8 {
        v := (r0 + 0x80) % 0x100 - 0x80;
      } else if op == OP_SEX16 {
        v := (r0 + 0x8000) % 0x1_0000 - 0x8000;
      } else {
        v := host.computeFloats(op, r0, 0);
      }
    }

    /** What the operations on two cells put in their place */
    method Combine(host: Host, op: int, r1: int, r0: int) returns (v: int)
      requires IsBinary(op) && Computes(op, r1, r0)
      ensures v == Binary(host, op, r1, r0)
    {
      hide Wrap, Quotient, Bitwise, Pow2, Unsigned;
      if op == OP_ADD {
        v := Wrap(r1 + r0);
      } else if op == OP_SUB {
        v := Wrap(r1 - r0);
      } else if op == OP_DIVI {
        v := Quotient(r1, r0);
      } else if op == OP_DIVU {
        v := Wrap(Unsigned(r1) / Unsigned(r0));
      } else if op == OP_MODI {
        v := r1 - r0 * Quotient(r1, r0);
      } else if op == OP_MODU {
        v := Wrap(Unsigned(r1) % Unsigned(r0));
      } else if op == OP_MULI || op == OP_MULU {
        v := Wrap(r1 * r0);
      } else if op == OP_BAND {
        v := Wrap(Bitwise((x, y) => x && y, r1, r0, 32));
      } else if op == OP_BOR {
        v := Wrap(Bitwise((x, y) => x || y, r1, r0, 32));
      } else if op == OP_BXOR {
        v := Wrap(Bitwise((x, y) => x != y, r1, r0, 32));
      } else if op == OP_LSH {
        v := Wrap(r1 * Pow2(r0));
      } else if op == OP_RSHI {
        v := r1 / Pow2(r0);
      } else if op == OP_RSHU {
        v := Wrap(Unsigned(r1) / Pow2(r0));
      } else {
        v := host.computeFloats(op, r1, r0);
      }
    }

    /** The operations on one or two cells */
    method ComputeOp(host: Host, ghost m: Machine, op: int) returns (flow: Flow)
      requires Fetched(m, op) && (IsUnary(op) || IsBinary(op)) && host == m.host
      requires !ComputeStep(m, State(), m.code[at]).Undefined?
      modifies this, stack
      ensures Loaded(m) && Matches(m, flow, ComputeStep(m, old(State()), m.code[old(at)]))
    {
      hide Pointer, Prepared, Unary, Binary, Computes;
      OperandIs(m.code, codeImage[..], instructionPointers[..], at);
      if IsUnary(op) {
        stack[opStack] := Compute(host, op, r0);
      } else {
        stack[opStack - 1] := Combine(host, op, r1, r0);
        opStack := opStack - 1;
      }
      at := at + 1;
      flow := NextInstruction;
    }

    /** The switch of the interpreter's loop, with the fetch of the opcode. */
    method Execute(host: Host, ghost m: Machine) returns (flow: Flow)
      requires Loaded(m) && Aligned(m) && Cached() && host == m.host
      requires !Step(m, State()).Undefined?
      modifies this, stack, image
      ensures Loaded(m) && Matches(m, flow, Step(m, old(State())))
    {
      hide Pointer, Prepared, BranchStep, StackStep, LoadStep, StoreStep, ArgStep, CopyStep, ControlStep, CallStep,
        ComputeStep;
      OpcodeIs(m.code, codeImage[..], instructionPointers[..], at);
      var op := codeImage[programCounter];
      programCounter := programCounter + 1;
      if Branches(op) {
        flow := BranchOp(host, m, op);
      } else if IsStackOp(op) {
        flow := StackOp(m, op);
      } else if IsLoad(op) {
        flow := LoadOp(m, op);
      } else if IsStore(op) {
        flow := StoreOp(m, op);
      } else if op == OP_ARG {
        flow := ArgOp(m, op);
      } else if op == OP_BLOCK_COPY {
        flow := CopyOp(m, op);
      } else if IsControl(op) {
        flow := Control(host, m, op);
      } else if IsUnary(op) || IsBinary(op) {
        flow := ComputeOp(host, m, op);
      } else {
        at := at + 1;
        flow := NextInstruction;
      }
    }

    /** The interpreter's loop, for at most `fuel` instructions; stops early when the program
        returns or fails. */
    method Loop(host: Host, fuel: nat, ghost m: Machine) returns (flow: Flow)
      requires Loaded(m) && Aligned(m) && 1 <= opStack < CELLS && host == m.host
      requires !Run(m, State(), fuel).Undefined?
      modifies this, stack, image
      ensures Loaded(m) && Matches(m, flow, Run(m, old(State()), fuel))
    {
      hide Pointer, Prepared, Step;
      ghost var all := Run(m, State(), fuel);
      flow := NextInstruction;
      var n := fuel;
      while n > 0
        invariant Loaded(m) && Aligned(m) && 0 <= n && 1 <= opStack < CELLS
        invariant flow == NextInstruction || (flow == NextInstruction2 && Cached())
        invariant Run(m, State(), n) == all
      {
        if flow == NextInstruction {
          r0 := stack[opStack];
          r1 := stack[opStack - 1];
        }
        RunsOn(m, State());
        flow := Execute(host, m);
        if flow == Done || flow == Error {
          return;
        }
        n := n - 1;
      }
    }

    /** Stores a word below those that are there already. */
    method StoreArg(a: int, v: int, ghost before: Image, ghost above: seq<byte>) returns (ghost all: seq<byte>)
      requires 0 <= a && a + 4 + |above| <= image.Length == |before| && image[..] == Put(before, a + 4, above)
      modifies image
      ensures all == WordBytes(v) + above && image[..] == Put(before, a, all)
    {
      Store(a, WordBytes(v));
      all := WordBytes(v) + above;
    }

    /** The stack frame that a call starts with. */
    method SetUp(args: seq<int>, stackOnEntry: int)
      requires |args| == 10 && 48 <= stackOnEntry <= image.Length && stack.Length == CELLS
      modifies this, image
      ensures State() == Entry(stack[..], old(image[..]), stackOnEntry, args, old(breakCount))
      ensures programCounter == 0 && at == 0
    {
      hide Put, WordBytes, WordsBytes;
      opStack := 1;
      programCounter := 0;
      at := 0;
      programStack := stackOnEntry - 48;
      ghost var before := image[..];
      PutNothing(before, stackOnEntry);
      ghost var above := StoreArg(programStack + 44, args[9], before, []);
      above := StoreArg(programStack + 40, args[8], before, above);
      above := StoreArg(programStack + 36, args[7], before, above);
      above := StoreArg(programStack + 32, args[6], before, above);
      above := StoreArg(programStack + 28, args[5], before, above);
      above := StoreArg(programStack + 24, args[4], before, above);
      above := StoreArg(programStack + 20, args[3], before, above);
      above := StoreArg(programStack + 16, args[2], before, above);
      above := StoreArg(programStack + 12, args[1], before, above);
      above := StoreArg(programStack + 8, args[0], before, above);
      above := StoreArg(programStack + 4, 0, before, above);
      above := StoreArg(programStack, -1, before, above);
      FrameIs(args, above);
    }

    /** VM_CallInterpreted, for at most `fuel` instructions. */
    method Call(host: Host, args: seq<int>, stackOnEntry: int, fuel: nat, ghost m: Machine) returns (r: Result)
      requires Loaded(m) && host == m.host && |args| == 10 && 48 <= stackOnEntry <= image.Length
      requires !Run(m, Entry(stack[..], image[..], stackOnEntry, args, breakCount), fuel).Undefined?
      modifies this, stack, image
      ensures
        var end := Run(m, Entry(old(stack[..]), old(image[..]), stackOnEntry, args, old(breakCount)), fuel);
        r == ResultOf(end) && (end.Running? || end.Finished? ==> State() == end.s)
    {
      hide Pointer, Prepared, Step, Run, Entry;
      CodeStarts(m.code, codeImage[..], instructionPointers[..]);
      SetUp(args, stackOnEntry);
      var flow := Loop(host, fuel, m);
      if flow == Error {
        return Dropped;
      } else if flow != Done {
        return Unfinished;
      } else if opStack != 2 {
        return Dropped;
      }
      return Returned(stack[opStack]);
    }

    method Control(host: Host, ghost m: Machine, op: int) returns (flow: Flow)
      requires Fetched(m, op) && IsControl(op) && host == m.host
      requires !ControlStep(m, State(), m.code[at]).Undefined?
      modifies this, stack, image
      ensures Loaded(m) && Matches(m, flow, ControlStep(m, old(State()), m.code[old(at)]))
    {
      hide Pointer, Prepared, CallStep, LeaveStep;
      if op == OP_CALL {
        flow := CallOp(host, m, op);
      } else {
        flow := ControlOp(m, op);
      }
    }
  }

  lemma OperandIs(code: seq<Instr>, words: seq<int>, pointers: seq<int>, i: nat)
    requires Prepared(code, words, pointers) && i < |code|
    ensures Pointer(code, i + 1) == Pointer(code, i) + Size(code[i]) <= |words|
    ensures HasOperand(code[i].op) ==>
      words[Pointer(code, i) + 1] == if Branches(code[i].op) then Pointer(code, code[i].arg) else code[i].arg
    ensures Branches(code[i].op) ==> 0 <= code[i].arg < |code|
  {
    assert Stores(code, words, i, true);
  }

  lemma OpcodeIs(code: seq<Instr>, words: seq<int>, pointers: seq<int>, i: nat)
    requires Prepared(code, words, pointers) && i < |code|
    ensures Pointer(code, i) < |words| && words[Pointer(code, i)] == code[i].op
    ensures Pointer(code, i + 1) == Pointer(code, i) + Size(code[i])
  {
    assert Stores(code, words, i, true);
  }

  lemma PointerIs(code: seq<Instr>, words: seq<int>, pointers: seq<int>, i: nat)
    requires Prepared(code, words, pointers) && i < |code|
    ensures |pointers| == |code| && pointers[i] == Pointer(code, i)
  {
  }

  lemma MaskedFits(a: int, size: int)
    requires size > 0 && size % 4 == 0
    ensures 0 <= Masked(a, size, 4) && Masked(a, size, 4) + 4 <= size
    ensures 0 <= Masked(a, size, 2) && Masked(a, size, 2) + 2 <= size
  {
  }

  lemma PutNothing(m: Image, a: int)
    requires 0 <= a <= |m|
    ensures Put(m, a, []) == m
  {
  }

  lemma FrameIs(args: seq<int>, frame: seq<byte>)
    requires |args| == 10
    requires frame == WordBytes(-1) + (WordBytes(0) + (WordBytes(args[0]) + (WordBytes(args[1]) + (WordBytes(args[2])
      + (WordBytes(args[3]) + (WordBytes(args[4]) + (WordBytes(args[5]) + (WordBytes(args[6]) + (WordBytes(args[7])
      + (WordBytes(args[8]) + (WordBytes(args[9]) + [])))))))))))
    ensures frame == WordsBytes([-1, 0] + args)
  {
    hide WordBytes;
    ArgsFrom(args, 9);
    ArgsFrom(args, 8);
    ArgsFrom(args, 7);
    ArgsFrom(args, 6);
    ArgsFrom(args, 5);
    ArgsFrom(args, 4);
    ArgsFrom(args, 3);
    ArgsFrom(args, 2);
    ArgsFrom(args, 1);
    ArgsFrom(args, 0);
    ArgsFrom([-1, 0] + args, 1);
    ArgsFrom([-1, 0] + args, 0);
    assert args[10..] == [] && args[0..] == args && ([-1, 0] + args)[2..] == args;
    assert ([-1, 0] + args)[0..] == [-1, 0] + args;
  }

  lemma ArgsFrom(words: seq<int>, k: nat)
    requires k < |words|
    ensures WordsBytes(words[k..]) == WordBytes(words[k]) + WordsBytes(words[k + 1..])
  {
    assert words[k..][1..] == words[k + 1..];
  }

  lemma RunsOn(m: Machine, s: State)
    requires Proper(s)
    ensures
      var e := Step(m, s);
      forall n: nat | n > 0 :: Run(m, s, n) == if e.Running? then Run(m, e.s, n - 1) else e
  {
    hide Step;
  }

  lemma StoreThenLoad(m: Image, a: int, v: int)
    requires 0 <= a && a + 4 <= |m| && Int32(v)
    ensures Load4(Put(m, a, WordBytes(v)), a) == v
  {
    LoadsWhatWasStored(v);
    var b := Put(m, a, WordBytes(v));
    assert b[a..a + 4] == WordBytes(v);
    LoadsFrom(b, a);
  }

  /** A return address leads back behind the call: when a function leaves with the frame of its
      caller on top and the saved word untouched, execution goes on after the call. */
  lemma ReturnsBehindCall(m: Machine, s: State, callee: State, leave: Instr)
    requires Proper(s) && Proper(callee) && 1 <= s.top < CELLS && 0 <= s.pc && s.pc + 1 < |m.code|
    requires m.code[s.pc].op == OP_CALL && CallStep(m, s).Running? && 0 <= s.cells[s.top]
    requires Pointer(m.code, |m.code|) <= m.codeLength && Int32(m.codeLength)
    requires |callee.image| == |s.image| && 1 <= callee.top < CELLS && Wrap(callee.sp + leave.arg) == s.sp
    requires Load4(callee.image, s.sp) == Load4(CallStep(m, s).s.image, s.sp)
    ensures LeaveStep(m, callee, leave) == Running(callee.(pc := s.pc + 1, sp := s.sp))
  {
    hide Load4, Put, WordBytes;
    var next := Pointer(m.code, s.pc + 1);
    PointersGrow(m.code, s.pc + 1, |m.code|);
    StoreThenLoad(s.image, s.sp, next);
    InstructionAtPointer(m.code, s.pc + 1);
  }

  lemma CodeStarts(code: seq<Instr>, words: seq<int>, pointers: seq<int>)
    requires Prepared(code, words, pointers)
    ensures Pointer(code, 0) == 0
  {
  }

  /** Loading byte code and calling it does what the machine does on the instructions encoded. */
  method LoadAndCall(host: Host, bytes: array<byte>, instructionCount: nat, dataBase: array<byte>, args: seq<int>,
          fuel: nat, ghost code: seq<Instr>) returns (r: Result, ghost cells: seq<int>)
    requires WellFormed(code) && |code| == instructionCount && Int32(bytes.Length) && Encoded(code, |code|) <= bytes[..]
    requires dataBase.Length >= 48 && dataBase.Length % 4 == 0 && |args| == 10
    requires forall cells: seq<int> | |cells| == CELLS ::
      !Run(Machine(code, bytes.Length, host), Entry(cells, dataBase[..], dataBase.Length, args, 0), fuel).Undefined?
    modifies dataBase
    ensures |cells| == CELLS
    ensures
      var end := Run(Machine(code, bytes.Length, host), Entry(cells, old(dataBase[..]), dataBase.Length, args, 0),
        fuel);
      r == ResultOf(end) && (end.Finished? ==> dataBase[..] == end.s.image)
  {
    hide Pointer, Prepared, Step, Run, Encoded, Entry, ResultOf, WellFormed;
    var vm := new Vm(bytes.Length, instructionCount);
    CodeFits(code);
    vm.PrepareInterpreter(bytes, code);
    ghost var m := Machine(code, bytes.Length, host);
    var interpreter := new Interpreter(vm, dataBase, m);
    cells := interpreter.stack[..];
    r := interpreter.Call(host, args, dataBase.Length, fuel, m);
  }

  lemma {:induction false} CodeFits(code: seq<Instr>)
    requires WellFormed(code)
    ensures |code| <= Pointer(code, |code|) <= |Encoded(code, |code|)|
  {
    CodeFitsUpTo(code, |code|);
  }

  lemma {:induction false} CodeFitsUpTo(code: seq<Instr>, n: nat)
    requires n <= |code|
    ensures n <= Pointer(code, n)
  {
    if n > 0 { CodeFitsUpTo(code, n - 1); }
  }
}
