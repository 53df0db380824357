/**
  VM_PrepareInterpreter of Shared/vm_interpreted.c: byte code becomes word code, with branch
  targets turned into indexes of words.
 */
module QvmLoader {
  import opened BitStream
  import opened Words
  import opened QvmMachine

  function InstrBytes(i: Instr): (r: seq<byte>)
    requires 0 <= i.op < 256 && (i.op == OP_ARG ==> 0 <= i.arg < 256)
    ensures Size(i) <= |r|
  {
    [i.op] + if HasWord(i.op) then WordBytes(i.arg) else if i.op == OP_ARG then [i.arg] else []
  }

  /** The byte code of the first n instructions */
  function Encoded(code: seq<Instr>, n: nat): (r: seq<byte>)
    requires WellFormed(code) && n <= |code|
    ensures Pointer(code, n) <= |r|
  {
    if n == 0 then [] else Encoded(code, n - 1) + InstrBytes(code[n - 1])
  }

  lemma {:induction false} EncodedAt(code: seq<Instr>, i: nat, n: nat)
    requires WellFormed(code) && i < n <= |code|
    ensures
      var at := |Encoded(code, i)|;
      && at + |InstrBytes(code[i])| == |Encoded(code, i + 1)| <= |Encoded(code, n)|
      && Encoded(code, n)[at..at + |InstrBytes(code[i])|] == InstrBytes(code[i])
    decreases n
  {
    hide InstrBytes, WellFormed;
    assert forall j | 0 <= j < |code| ::
      0 <= code[j].op < 256 && (code[j].op == OP_ARG ==> 0 <= code[j].arg < 256) by { OpsAreBytes(code); }
    if i < n - 1 {
      EncodedAt(code, i, n - 1);
      var at, k := |Encoded(code, i)|, |InstrBytes(code[i])|;
      assert Encoded(code, n)[at..at + k] == Encoded(code, n - 1)[at..at + k];
    }
  }

  lemma OpsAreBytes(code: seq<Instr>)
    requires WellFormed(code)
    ensures forall j | 0 <= j < |code| ::
      0 <= code[j].op < 256 && Int32(code[j].arg) && (code[j].op == OP_ARG ==> 0 <= code[j].arg < 256)
  {
  }

  /** What the interpreter finds in the word after the opcode */
  function Operand(code: seq<Instr>, i: Instr): int
    requires Branches(i.op) ==> 0 <= i.arg <= |code|
  {
    if Branches(i.op) then Pointer(code, i.arg) else i.arg
  }

  /** Word code stores instruction j, its operand as it is or translated. */
  predicate Stores(code: seq<Instr>, words: seq<int>, j: nat, translated: bool)
    requires WellFormed(code) && j < |code|
  {
    var at := Pointer(code, j);
    && at + Size(code[j]) <= |words| && words[at] == code[j].op
    && (HasOperand(code[j].op) ==> words[at + 1] == if translated then Operand(code, code[j]) else code[j].arg)
  }

  /** The word code and the table of the code's instructions. */
  ghost predicate Prepared(code: seq<Instr>, words: seq<int>, pointers: seq<int>) {
    && WellFormed(code) && |pointers| == |code| && Pointer(code, |code|) <= |words|
    && (forall j | 0 <= j < |code| :: pointers[j] == Pointer(code, j))
    && (forall j | 0 <= j < |code| :: Stores(code, words, j, true))
  }

  /** The table is strictly increasing. */
  lemma TableIncreases(code: seq<Instr>, words: seq<int>, pointers: seq<int>, i: nat, j: nat)
    requires Prepared(code, words, pointers) && i < j < |pointers|
    ensures 0 <= pointers[i] < pointers[j] < |words|
  {
    PointersGrow(code, i, j);
    PointersGrow(code, j, |code|);
  }

  /** Writing behind the words of an instruction does not change them. */
  lemma StoresElsewhere(code: seq<Instr>, before: seq<int>, after: seq<int>, j: nat, translated: bool, at: nat, n: nat)
    requires WellFormed(code) && j < |code| && Stores(code, before, j, translated)
    requires |before| == |after| && at + n <= |before|
    requires forall k | 0 <= k < |before| && !(at <= k < at + n) :: after[k] == before[k]
    requires Pointer(code, j) + Size(code[j]) <= at || at + n <= Pointer(code, j)
    ensures Stores(code, after, j, translated)
  {
  }

  class Vm {
    var codeLength: int
    var instructionCount: int
    var codeBase: array<int>
    var instructionPointers: array<int>

    constructor (codeLength: nat, instructionCount: nat)
      ensures this.codeLength == codeLength && this.instructionCount == instructionCount
      ensures fresh(instructionPointers) && instructionPointers.Length == instructionCount
    {
      this.codeLength, this.instructionCount := codeLength, instructionCount;
      codeBase := new int[0];
      instructionPointers := new int[instructionCount];
    }

    /** VM_PrepareInterpreter, for byte code that holds complete instructions. The check of byte_pc
        against the length of the code never fires. */
    method PrepareInterpreter(bytes: array<byte>, ghost code: seq<Instr>)
      requires WellFormed(code) && |code| == instructionCount && instructionPointers.Length == |code|
      requires codeLength == bytes.Length && Encoded(code, |code|) <= bytes[..]
      modifies this`codeBase, instructionPointers
      ensures fresh(codeBase) && codeBase.Length == codeLength
      ensures Prepared(code, codeBase[..], instructionPointers[..])
    {
      codeBase := new int[codeLength];
      Expand(bytes, code);
      Translate(code);
    }

    /** The first loop: copies and expands the instructions. */
    method Expand(bytes: array<byte>, ghost code: seq<Instr>)
      requires WellFormed(code) && |code| == instructionCount && instructionPointers.Length == |code|
      requires codeBase.Length == bytes.Length && codeBase != instructionPointers
      requires codeLength == bytes.Length && Encoded(code, |code|) <= bytes[..]
      modifies codeBase, instructionPointers
      ensures forall j | 0 <= j < |code| :: instructionPointers[j] == Pointer(code, j)
      ensures forall j | 0 <= j < |code| :: Stores(code, codeBase[..], j, false)
    {
      hide Pointer, WordBytes, HasWord, Encoded;
      StartsAtZero(code);
      var int_pc, byte_pc, instruction := 0, 0, 0;
      while instruction < instructionCount
        invariant 0 <= instruction <= |code| && byte_pc == |Encoded(code, instruction)|
        invariant int_pc == Pointer(code, instruction) <= byte_pc <= bytes.Length
        invariant forall j | 0 <= j < instruction :: instructionPointers[j] == Pointer(code, j)
        invariant forall j | 0 <= j < instruction :: Stores(code, codeBase[..], j, false)
      {
        ghost var i := instruction;
        ghost var before := codeBase[..];
        NextInstruction(code, i, bytes[..]);
        instructionPointers[instruction] := int_pc;
        instruction := instruction + 1;
        var op: int := bytes[byte_pc];
        codeBase[int_pc] := op;
        if byte_pc > codeLength {
          assert false;
          return;
        }
        byte_pc := byte_pc + 1;
        int_pc := int_pc + 1;
        if HasWord(op) {
          codeBase[int_pc] := Load4(bytes[..], byte_pc);
          byte_pc := byte_pc + 4;
          int_pc := int_pc + 1;
        } else if op == OP_ARG {
          codeBase[int_pc] := bytes[byte_pc];
          byte_pc := byte_pc + 1;
          int_pc := int_pc + 1;
        }
        forall j | 0 <= j < i ensures Stores(code, codeBase[..], j, false) {
          PointersGrow(code, j, i);
          StoresElsewhere(code, before, codeBase[..], j, false, Pointer(code, i), Size(code[i]));
        }
        assert Stores(code, codeBase[..], i, false);
      }
    }

    /** The second loop: replaces the targets of branches. */
    method Translate(ghost code: seq<Instr>)
      requires WellFormed(code) && |code| == instructionCount && instructionPointers.Length == |code|
      requires codeBase != instructionPointers && Pointer(code, |code|) <= codeBase.Length
      requires forall j | 0 <= j < |code| :: instructionPointers[j] == Pointer(code, j)
      requires forall j | 0 <= j < |code| :: Stores(code, codeBase[..], j, false)
      modifies codeBase
      ensures Prepared(code, codeBase[..], instructionPointers[..])
    {
      hide Pointer;
      StartsAtZero(code);
      var int_pc, instruction := 0, 0;
      while instruction < instructionCount
        invariant 0 <= instruction <= |code| && int_pc == Pointer(code, instruction)
        invariant forall j | 0 <= j < instruction :: Stores(code, codeBase[..], j, true)
        invariant forall j | instruction <= j < |code| :: Stores(code, codeBase[..], j, false)
      {
        ghost var i := instruction;
        ghost var before := codeBase[..];
        assert Stores(code, before, i, false);
        PointerStep(code, i);
        var op := codeBase[int_pc];
        instruction := instruction + 1;
        int_pc := int_pc + 1;
        if Branches(op) {
          codeBase[int_pc] := instructionPointers[codeBase[int_pc]];
          int_pc := int_pc + 1;
        } else if HasOperand(op) {
          int_pc := int_pc + 1;
        }
        Kept(code, before, codeBase[..], i);
      }
    }
  }

  lemma StartsAtZero(code: seq<Instr>)
    requires WellFormed(code)
    ensures Pointer(code, 0) == 0 && Encoded(code, 0) == []
  {
  }

  lemma PointerStep(code: seq<Instr>, i: nat)
    requires i < |code|
    ensures Pointer(code, i + 1) == Pointer(code, i) + Size(code[i])
  {
  }

  /** The bytes of the next instruction */
  lemma NextInstruction(code: seq<Instr>, i: nat, bytes: seq<byte>)
    requires WellFormed(code) && i < |code| && Encoded(code, |code|) <= bytes
    ensures Pointer(code, i + 1) == Pointer(code, i) + Size(code[i]) <= |Encoded(code, i + 1)|
    ensures |Encoded(code, i + 1)| == |Encoded(code, i)|
      + (if HasWord(code[i].op) then 5 else if code[i].op == OP_ARG then 2 else 1)
    ensures |Encoded(code, i + 1)| <= |bytes|
    ensures
      var at := |Encoded(code, i)|;
      && bytes[at] == code[i].op
      && (HasWord(code[i].op) ==> Load4(bytes, at + 1) == code[i].arg)
      && (code[i].op == OP_ARG ==> bytes[at + 1] == code[i].arg)
  {
    hide Load4, WordBytes, WellFormed, InstrBytes, HasWord;
    OpsAreBytes(code);
    EncodedAt(code, i, |code|);
    var at, k := |Encoded(code, i)|, |InstrBytes(code[i])|;
    assert bytes[at..at + k] == Encoded(code, |code|)[at..at + k] == InstrBytes(code[i]);
    ReadsInstr(code[i], bytes, at);
  }

  lemma ReadsInstr(i: Instr, bytes: seq<byte>, at: nat)
    requires 0 <= i.op < 256 && Int32(i.arg) && (i.op == OP_ARG ==> 0 <= i.arg < 256)
    requires at + |InstrBytes(i)| <= |bytes| && bytes[at..at + |InstrBytes(i)|] == InstrBytes(i)
    ensures |InstrBytes(i)| == if HasWord(i.op) then 5 else if i.op == OP_ARG then 2 else 1
    ensures bytes[at] == i.op
    ensures HasWord(i.op) ==> Load4(bytes, at + 1) == i.arg
    ensures i.op == OP_ARG ==> bytes[at + 1] == i.arg
  {
    hide Load4, WordBytes;
    var b := bytes[at..at + |InstrBytes(i)|];
    assert b[0] == bytes[at];
    if HasWord(i.op) {
      assert b[1..] == WordBytes(i.arg) == bytes[at + 1..at + 5];
      LoadsWhatWasStored(i.arg);
      LoadsFrom(bytes, at + 1);
    } else if i.op == OP_ARG {
      assert b[1] == bytes[at + 1];
    }
  }

  /** Only the operand of instruction i has changed. */
  lemma Kept(code: seq<Instr>, before: seq<int>, after: seq<int>, i: nat)
    requires WellFormed(code) && i < |code| && |before| == |after|
    requires forall k | 0 <= k < |before| && k != Pointer(code, i) + 1 :: after[k] == before[k]
    requires !HasOperand(code[i].op) ==> after == before
    requires forall j | 0 <= j < i :: Stores(code, before, j, true)
    requires forall j | i <= j < |code| :: Stores(code, before, j, false)
    ensures forall j | 0 <= j < i :: Stores(code, after, j, true)
    ensures forall j | i < j < |code| :: Stores(code, after, j, false)
  {
    hide Pointer, Stores;
    var at, n := Pointer(code, i), Size(code[i]);
    assert Stores(code, before, i, false);
    StoresFits(code, before, i);
    forall j | 0 <= j < i ensures Stores(code, after, j, true) {
      PointersGrow(code, j, i);
      StoresElsewhere(code, before, after, j, true, at, n);
    }
    forall j | i < j < |code| ensures Stores(code, after, j, false) {
      PointersGrow(code, i, j);
      StoresElsewhere(code, before, after, j, false, at, n);
    }
  }

  lemma StoresFits(code: seq<Instr>, words: seq<int>, i: nat)
    requires WellFormed(code) && i < |code| && Stores(code, words, i, false)
    ensures Pointer(code, i) + Size(code[i]) <= |words|
  {
  }
}
