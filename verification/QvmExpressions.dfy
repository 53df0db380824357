/**
  Code for expressions, as a compiler for the virtual machine of Shared/vm_interpreted.c makes it: operands
  are pushed, an operation replaces them by its result, and choices branch. Opcodes are given by number.
 */
module QvmExpressions {
  import opened BitStream
  import opened Words
  import opened Options
  import opened QvmMachine
  import opened QvmLoader
  import opened QvmMeaning
  import opened QvmInterpreter

  /** Local is the address of a place in the frame; Fetch loads 1, 2 or 4 bytes; Choose compares. */
  datatype Expr =
    | Number(v: int)
    | Local(offset: int)
    | Fetch(size: int, address: Expr)
    | Apply1(op: int, e: Expr)
    | Apply2(op: int, left: Expr, right: Expr)
    | Choose(op: int, left: Expr, right: Expr, yes: Expr, no: Expr)

  predicate Sound(e: Expr) {
    match e
    case Number(v) => Int32(v)
    case Local(offset) => Int32(offset)
    case Fetch(size, address) => (size == 1 || size == 2 || size == 4) && Sound(address)
    case Apply1(op, a) => IsUnary(op) && Sound(a)
    case Apply2(op, a, b) => IsBinary(op) && Sound(a) && Sound(b)
    case Choose(op, a, b, yes, no) => 11 <= op <= 26 && Sound(a) && Sound(b) && Sound(yes) && Sound(no)
  }

  /** What an expression is worth with a frame at sp; nothing if an operation that is needed is undefined */
  function Value(host: Host, image: Image, sp: int, e: Expr): Option<int>
    requires Sound(e) && |image| > 0 && |image| % 4 == 0
  {
    match e
    case Number(v) => Some(v)
    case Local(offset) => Some(Wrap(sp + offset))
    case Fetch(size, address) =>
      (match Value(host, image, sp, address)
       case None => None
       case Some(a) => Some(FetchFrom(image, size, a)))
    case Apply1(op, e) =>
      (match Value(host, image, sp, e)
       case None => None
       case Some(a) => Some(Unary(host, op, a)))
    case Apply2(op, left, right) =>
      (match (Value(host, image, sp, left), Value(host, image, sp, right))
       case (Some(a), Some(b)) => if Computes(op, a, b) then Some(Binary(host, op, a, b)) else None
       case _ => None)
    case Choose(op, left, right, yes, no) =>
      (match (Value(host, image, sp, left), Value(host, image, sp, right))
       case (Some(a), Some(b)) => Value(host, image, sp, if Compare(host, op, a, b) then yes else no)
       case _ => None)
  }

  /** Unsigned bytes and shorts, the lower byte first, and ints */
  function FetchFrom(image: Image, size: int, a: int): int
    requires |image| > 0 && |image| % 4 == 0
  {
    if size == 4 then Load4(image, Masked(a, |image|, 4))
    else if size == 2 then
      var at := Masked(a, |image|, 2);
      image[at] as int + 0x100 * image[at + 1] as int
    else image[a % |image|]
  }

  /** The number of instructions */
  function Length(e: Expr): (n: nat)
    ensures n >= 1
  {
    match e
    case Number(_) => 1
    case Local(_) => 1
    case Fetch(_, address) => Length(address) + 1
    case Apply1(_, e) => Length(e) + 1
    case Apply2(_, left, right) => Length(left) + Length(right) + 1
    case Choose(_, left, right, yes, no) => Length(left) + Length(right) + 1 + Length(no) + 2 + Length(yes)
  }

  /** The number of them that are executed */
  function Steps(host: Host, image: Image, sp: int, e: Expr): nat
    requires Sound(e) && |image| > 0 && |image| % 4 == 0 && Value(host, image, sp, e).Some?
  {
    match e
    case Number(_) => 1
    case Local(_) => 1
    case Fetch(_, address) => Steps(host, image, sp, address) + 1
    case Apply1(_, e) => Steps(host, image, sp, e) + 1
    case Apply2(_, left, right) => Steps(host, image, sp, left) + Steps(host, image, sp, right) + 1
    case Choose(op, left, right, yes, no) =>
      var n := Steps(host, image, sp, left) + Steps(host, image, sp, right) + 1;
      if Compare(host, op, Value(host, image, sp, left).value, Value(host, image, sp, right).value)
      then n + Steps(host, image, sp, yes)
      else n + Steps(host, image, sp, no) + 2
  }

  /** The code, if it starts at an instruction; branches and jumps name instructions. */
  function Compiled(e: Expr, at: nat): (r: seq<Instr>)
    ensures |r| == Length(e)
    decreases e, 1
  {
    match e
    case Number(v) => [Instr(8, v)]
    case Local(offset) => [Instr(9, offset)]
    case Fetch(size, address) =>
      Compiled(address, at) + [Instr(if size == 1 then 27 else if size == 2 then 28 else 29, 0)]
    case Apply1(op, e) => Compiled(e, at) + [Instr(op, 0)]
    case Apply2(op, left, right) => Compiled(left, at) + Compiled(right, at + Length(left)) + [Instr(op, 0)]
    case Choose(op, left, right, yes, no) => Operands(e, at) + [Instr(op, YesAt(e, at))] + Choices(e, at)
  }

  function Operands(e: Expr, at: nat): (r: seq<Instr>)
    requires e.Choose?
    ensures |r| == Length(e.left) + Length(e.right)
    decreases e, 0
  {
    Compiled(e.left, at) + Compiled(e.right, at + Length(e.left))
  }

  /** Where the code for a choice that is made starts */
  function YesAt(e: Expr, at: nat): nat
    requires e.Choose?
  {
    NoAt(e, at) + Length(e.no) + 2
  }

  function NoAt(e: Expr, at: nat): nat
    requires e.Choose?
  {
    at + Length(e.left) + Length(e.right) + 1
  }

  /** The code for no jumps over that for yes. */
  function Choices(e: Expr, at: nat): (r: seq<Instr>)
    requires e.Choose?
    ensures |r| == Length(e.no) + 2 + Length(e.yes)
    decreases e, 0
  {
    Compiled(e.no, NoAt(e, at)) + [Instr(8, at + Length(e)), Instr(10, 0)] + Compiled(e.yes, YesAt(e, at))
  }

  function Most(a: nat, b: nat): (r: nat)
    ensures r >= a && r >= b
  {
    if a > b then a else b
  }

  /** The number of cells that an expression takes while it is computed */
  function Cells(e: Expr): (n: nat)
    ensures n >= 1
  {
    match e
    case Number(_) => 1
    case Local(_) => 1
    case Fetch(_, address) => Cells(address)
    case Apply1(_, e) => Cells(e)
    case Apply2(_, left, right) => Most(Cells(left), Cells(right) + 1)
    case Choose(_, left, right, yes, no) =>
      Most(Most(Cells(left), Cells(right) + 1), Most(Cells(yes), Cells(no)))
  }

  // ---- running ----

  /** The instructions stand in the code, and more follow. */
  predicate Stands(code: seq<Instr>, at: int, part: seq<Instr>) {
    0 <= at && at + |part| < |code| < 0x8000_0000 && code[at..at + |part|] == part
  }

  lemma StandsInPart(code: seq<Instr>, at: int, a: seq<Instr>, b: seq<Instr>, c: seq<Instr>)
    requires Stands(code, at, a + b + c)
    ensures Stands(code, at + |a|, b)
  {
    var whole := a + b + c;
    forall i | 0 <= i < |b| ensures code[at + |a| + i] == b[i] {
      assert code[at..at + |whole|][|a| + i] == whole[|a| + i] == b[i];
    }
    assert code[at + |a|..at + |a| + |b|] == b;
  }

  lemma StandsAlone(code: seq<Instr>, at: int, part: seq<Instr>)
    requires Stands(code, at, part)
    ensures 0 <= at && at + |part| < |code| < 0x8000_0000
    ensures forall i | 0 <= i < |part| :: code[at + i] == part[i]
  {
    forall i | 0 <= i < |part| ensures code[at + i] == part[i] {
      assert code[at..at + |part|][i] == code[at + i];
    }
  }

  /** Code and one instruction behind it */
  lemma StandsBefore(code: seq<Instr>, at: int, part: seq<Instr>, i: Instr)
    requires Stands(code, at, part + [i])
    ensures Stands(code, at, part) && 0 <= at + |part| < |code| && code[at + |part|] == i
  {
    assert part + [i] == [] + part + [i] && part + [i] == part + [i] + [];
    StandsInPart(code, at, [], part, [i]);
    StandsAlone(code, at, part + [i]);
    assert (part + [i])[|part|] == i;
  }

  lemma StandsTwo(code: seq<Instr>, at: int, a: seq<Instr>, b: seq<Instr>)
    requires Stands(code, at, a + b)
    ensures Stands(code, at, a) && Stands(code, at + |a|, b)
  {
    assert a + b == [] + a + b && a + b == a + b + [];
    StandsInPart(code, at, [], a, b);
    StandsInPart(code, at, a, b, []);
  }

  /** The machine has gone on to pc and has pushed v; nothing else has changed below. */
  predicate Pushes(s: State, t: State, pc: int, v: int) {
    && |t.cells| == |s.cells| && 0 <= s.top && t.top == s.top + 1 < |s.cells|
    && t.cells[..t.top] == s.cells[..t.top] && t.cells[t.top] == v
    && t.pc == pc && t.sp == s.sp && t.image == s.image && t.breaks == s.breaks
  }

  /** From s the machine comes to t in n instructions, and has pushed v. */
  ghost predicate Reaches(m: Machine, s: State, t: State, n: nat, pc: int, v: int) {
    Proper(s) && 1 <= s.top && Run(m, s, n) == Running(t) && Proper(t) && Pushes(s, t, pc, v)
  }

  lemma ReachesParts(m: Machine, s: State, t: State, n: nat, pc: int, v: int)
    requires Reaches(m, s, t, n, pc, v)
    ensures Proper(s) && Proper(t) && 2 <= t.top < CELLS && t.cells[t.top] == v && t.top == s.top + 1
    ensures t.pc == pc && t.sp == s.sp && t.image == s.image
  {
  }

  lemma {:induction false} RunSplits(m: Machine, s: State, a: nat, b: nat)
    requires Proper(s) && Run(m, s, a).Running?
    ensures Run(m, s, a + b) == Run(m, Run(m, s, a).s, b)
    decreases a
  {
    hide Step;
    if a > 0 { RunSplits(m, Step(m, s).s, a - 1, b); }
  }

  lemma RunOne(m: Machine, s: State)
    requires Proper(s)
    ensures Run(m, s, 1) == Step(m, s)
  {
    hide Step;
    var e := Step(m, s);
    if e.Running? { assert Run(m, e.s, 0) == e; }
  }

  lemma Then(m: Machine, s: State, u: State, n: nat)
    requires Proper(s) && Run(m, s, n) == Running(u) && Proper(u)
    ensures Run(m, s, n + 1) == Step(m, u)
  {
    hide Step;
    RunSplits(m, s, n, 1);
    RunOne(m, u);
  }

  /** The code of an expression pushes what the expression is worth. */
  lemma {:induction false} Evaluates(m: Machine, s: State, e: Expr) returns (t: State)
    requires s.pc >= 0 && Sound(e) && Stands(m.code, s.pc, Compiled(e, s.pc))
    requires Proper(s) && 1 <= s.top && s.top + Cells(e) < CELLS && Value(m.host, s.image, s.sp, e).Some?
    ensures
      var v := Value(m.host, s.image, s.sp, e).value;
      Reaches(m, s, t, Steps(m.host, s.image, s.sp, e), s.pc + Length(e), v)
    decreases e, 2
  {
    hide Unary, Binary, Computes, Step, Run, Reaches, FetchFrom, Stands;
    match e
    case Number(_) => t := Leaf(m, s, e);
    case Local(_) => t := Leaf(m, s, e);
    case Fetch(_, _) => t := EvaluatesFetch(m, s, e);
    case Apply1(_, _) => t := EvaluatesOne(m, s, e);
    case Apply2(_, _, _) => t := EvaluatesTwo(m, s, e);
    case Choose(_, _, _, _, _) => t := EvaluatesChoice(m, s, e);
  }

  lemma EvaluatesFetch(m: Machine, s: State, e: Expr) returns (t: State)
    requires s.pc >= 0 && e.Fetch? && Sound(e) && Stands(m.code, s.pc, Compiled(e, s.pc))
    requires Proper(s) && 1 <= s.top && s.top + Cells(e) < CELLS && Value(m.host, s.image, s.sp, e).Some?
    ensures
      var v := Value(m.host, s.image, s.sp, e).value;
      Reaches(m, s, t, Steps(m.host, s.image, s.sp, e), s.pc + Length(e), v)
    decreases e, 1
  {
    hide Step, Run, Reaches, FetchFrom, Stands;
    var size, n := e.size, Steps(m.host, s.image, s.sp, e.address);
    StandsBefore(m.code, s.pc, Compiled(e.address, s.pc),
      Instr(if size == 1 then 27 else if size == 2 then 28 else 29, 0));
    hide Compiled;
    var u := Evaluates(m, s, e.address);
    var a := Value(m.host, s.image, s.sp, e.address).value;
    ReachesParts(m, s, u, n, s.pc + Length(e.address), a);
    Fetches(m, u, size);
    t := Replaces(m, s, u, n, s.pc + Length(e.address), a, FetchFrom(s.image, size, a));
  }

  lemma EvaluatesOne(m: Machine, s: State, e: Expr) returns (t: State)
    requires s.pc >= 0 && e.Apply1? && Sound(e) && Stands(m.code, s.pc, Compiled(e, s.pc))
    requires Proper(s) && 1 <= s.top && s.top + Cells(e) < CELLS && Value(m.host, s.image, s.sp, e).Some?
    ensures
      var v := Value(m.host, s.image, s.sp, e).value;
      Reaches(m, s, t, Steps(m.host, s.image, s.sp, e), s.pc + Length(e), v)
    decreases e, 1
  {
    hide Unary, Step, Run, Reaches, Stands;
    var n := Steps(m.host, s.image, s.sp, e.e);
    StandsBefore(m.code, s.pc, Compiled(e.e, s.pc), Instr(e.op, 0));
    var u := Evaluates(m, s, e.e);
    var a := Value(m.host, s.image, s.sp, e.e).value;
    ReachesParts(m, s, u, n, s.pc + Length(e.e), a);
    Applies1(m, u, e.op);
    t := Replaces(m, s, u, n, s.pc + Length(e.e), a, Unary(m.host, e.op, a));
  }

  /** Two operands in turn */
  lemma Operates(m: Machine, s: State, e: Expr) returns (u: State, w: State)
    requires (e.Apply2? || e.Choose?) && s.pc >= 0 && Sound(e) && Proper(s)
    requires Stands(m.code, s.pc, Compiled(e.left, s.pc) + Compiled(e.right, s.pc + Length(e.left)))
    requires 1 <= s.top && s.top + Cells(e) < CELLS
    requires Value(m.host, s.image, s.sp, e.left).Some? && Value(m.host, s.image, s.sp, e.right).Some?
    ensures
      var i, a := Steps(m.host, s.image, s.sp, e.left), Value(m.host, s.image, s.sp, e.left).value;
      var j, b := Steps(m.host, s.image, s.sp, e.right), Value(m.host, s.image, s.sp, e.right).value;
      var pc := s.pc + Length(e.left);
      Reaches(m, s, u, i, pc, a) && Reaches(m, u, w, j, pc + Length(e.right), b)
    decreases e, 0
  {
    hide Reaches, Stands, Step, Run;
    var left, right := e.left, e.right;
    StandsTwo(m.code, s.pc, Compiled(left, s.pc), Compiled(right, s.pc + Length(left)));
    u := Evaluates(m, s, left);
    ReachesParts(m, s, u, Steps(m.host, s.image, s.sp, left), s.pc + Length(left),
      Value(m.host, s.image, s.sp, left).value);
    w := Evaluates(m, u, right);
  }

  lemma EvaluatesTwo(m: Machine, s: State, e: Expr) returns (t: State)
    requires s.pc >= 0 && e.Apply2? && Sound(e) && Stands(m.code, s.pc, Compiled(e, s.pc))
    requires Proper(s) && 1 <= s.top && s.top + Cells(e) < CELLS && Value(m.host, s.image, s.sp, e).Some?
    ensures
      var v := Value(m.host, s.image, s.sp, e).value;
      Reaches(m, s, t, Steps(m.host, s.image, s.sp, e), s.pc + Length(e), v)
    decreases e, 1
  {
    hide Binary, Computes, Reaches, Stands, Step, Run;
    var op, left, right := e.op, e.left, e.right;
    StandsBefore(m.code, s.pc, Compiled(left, s.pc) + Compiled(right, s.pc + Length(left)), Instr(op, 0));
    hide Compiled;
    var u, w := Operates(m, s, e);
    t := Combines(m, s, u, w, op, Steps(m.host, s.image, s.sp, left), Steps(m.host, s.image, s.sp, right),
      s.pc + Length(left), s.pc + Length(left) + Length(right),
      Value(m.host, s.image, s.sp, left).value, Value(m.host, s.image, s.sp, right).value);
  }

  lemma EvaluatesChoice(m: Machine, s: State, e: Expr) returns (t: State)
    requires s.pc >= 0 && e.Choose? && Sound(e) && Stands(m.code, s.pc, Compiled(e, s.pc))
    requires Proper(s) && 1 <= s.top && s.top + Cells(e) < CELLS && Value(m.host, s.image, s.sp, e).Some?
    ensures
      var v := Value(m.host, s.image, s.sp, e).value;
      Reaches(m, s, t, Steps(m.host, s.image, s.sp, e), s.pc + Length(e), v)
    decreases e, 1
  {
    hide Compare, Reaches, Stands, Step, Run, Compiled;
    var op, left, right := e.op, e.left, e.right;
    ChoiceParts(m.code, e, s.pc);
    var u, w := Operates(m, s, e);
    var i, j := Steps(m.host, s.image, s.sp, left), Steps(m.host, s.image, s.sp, right);
    var a, b := Value(m.host, s.image, s.sp, left).value, Value(m.host, s.image, s.sp, right).value;
    var k, l := s.pc + Length(left), s.pc + Length(left) + Length(right);
    var x := Decides(m, s, u, w, op, YesAt(e, s.pc), i, j, k, l, a, b);
    var v := Value(m.host, s.image, s.sp, e).value;
    if Compare(m.host, op, a, b) {
      t := Evaluates(m, x, e.yes);
      GoesOn(m, s, x, t, i + j + 1, Steps(m.host, s.image, s.sp, e.yes), s.pc + Length(e), v);
    } else {
      t := EvaluatesNo(m, x, e, s.pc);
      GoesOn(m, s, x, t, i + j + 1, Steps(m.host, s.image, s.sp, e.no) + 2, s.pc + Length(e), v);
    }
  }

  /** The code for no, and the jump behind it */
  lemma EvaluatesNo(m: Machine, x: State, e: Expr, at: nat) returns (t: State)
    requires e.Choose? && Sound(e) && Proper(x) && 1 <= x.top && x.top + Cells(e) < CELLS && x.pc == NoAt(e, at)
    requires Stands(m.code, NoAt(e, at), Compiled(e.no, NoAt(e, at)))
    requires at + Length(e) < |m.code| < 0x8000_0000
    requires m.code[YesAt(e, at) - 2] == Instr(8, at + Length(e)) && m.code[YesAt(e, at) - 1] == Instr(10, 0)
    requires Value(m.host, x.image, x.sp, e.no).Some?
    ensures
      var v := Value(m.host, x.image, x.sp, e.no).value;
      Reaches(m, x, t, Steps(m.host, x.image, x.sp, e.no) + 2, at + Length(e), v)
    decreases e, 0
  {
    hide Reaches, Stands, Step, Run;
    var y := Evaluates(m, x, e.no);
    t := Jumps(m, x, y, Steps(m.host, x.image, x.sp, e.no), NoAt(e, at) + Length(e.no), at + Length(e),
      Value(m.host, x.image, x.sp, e.no).value);
  }

  /** Where the parts of a choice stand */
  lemma ChoiceParts(code: seq<Instr>, e: Expr, at: nat)
    requires e.Choose? && Stands(code, at, Compiled(e, at))
    ensures at + Length(e) < |code| < 0x8000_0000
    ensures Stands(code, at, Compiled(e.left, at) + Compiled(e.right, at + Length(e.left)))
    ensures code[NoAt(e, at) - 1] == Instr(e.op, YesAt(e, at))
    ensures Stands(code, NoAt(e, at), Compiled(e.no, NoAt(e, at)))
    ensures code[YesAt(e, at) - 2] == Instr(8, at + Length(e)) && code[YesAt(e, at) - 1] == Instr(10, 0)
    ensures Stands(code, YesAt(e, at), Compiled(e.yes, YesAt(e, at)))
  {
    var head, i := Operands(e, at), [Instr(e.op, YesAt(e, at))];
    var no, jump, yes := Compiled(e.no, NoAt(e, at)), [Instr(8, at + Length(e)), Instr(10, 0)],
      Compiled(e.yes, YesAt(e, at));
    ChoiceIs(e, at);
    hide Compiled, Operands, Choices, Stands;
    FiveParts(code, at, head, i, no, jump, yes);
    StandsAlone(code, at, Compiled(e, at));
    StandsAlone(code, at + |head|, i);
    StandsAlone(code, at + |head| + 1 + |no|, jump);
    assert code[at + |head| + 0] == i[0];
    assert code[at + |head| + 1 + |no| + 0] == jump[0] && code[at + |head| + 1 + |no| + 1] == jump[1];
  }

  lemma FiveParts(code: seq<Instr>, at: nat, a: seq<Instr>, b: seq<Instr>, c: seq<Instr>, d: seq<Instr>, e: seq<Instr>)
    requires Stands(code, at, a + b + (c + d + e))
    ensures Stands(code, at, a) && Stands(code, at + |a|, b) && Stands(code, at + |a| + |b|, c)
    ensures Stands(code, at + |a| + |b| + |c|, d) && Stands(code, at + |a| + |b| + |c| + |d|, e)
  {
    hide Stands;
    var all := a + b + (c + d + e);
    assert all == [] + a + (b + (c + d + e));
    assert all == (a + b) + c + (d + e) && all == (a + b + c) + d + e && all == (a + b + c + d) + e + [];
    StandsInPart(code, at, [], a, b + (c + d + e));
    StandsInPart(code, at, a, b, c + d + e);
    StandsInPart(code, at, a + b, c, d + e);
    StandsInPart(code, at, a + b + c, d, e);
    StandsInPart(code, at, a + b + c + d, e, []);
  }

  lemma ChoiceIs(e: Expr, at: nat)
    requires e.Choose?
    ensures Length(e) == Length(e.left) + Length(e.right) + 1 + Length(e.no) + 2 + Length(e.yes)
    ensures Compiled(e, at) == Operands(e, at) + [Instr(e.op, YesAt(e, at))] + Choices(e, at)
    ensures Operands(e, at) == Compiled(e.left, at) + Compiled(e.right, at + Length(e.left))
    ensures Choices(e, at)
      == Compiled(e.no, NoAt(e, at)) + [Instr(8, at + Length(e)), Instr(10, 0)] + Compiled(e.yes, YesAt(e, at))
  {
  }

  lemma Leaf(m: Machine, s: State, e: Expr) returns (t: State)
    requires s.pc >= 0 && (e.Number? || e.Local?) && Stands(m.code, s.pc, Compiled(e, s.pc))
    requires Proper(s) && 1 <= s.top && s.top + 1 < CELLS
    ensures Reaches(m, s, t, 1, s.pc + 1, if e.Number? then e.v else Wrap(s.sp + e.offset))
  {
    var i := Compiled(e, s.pc)[0];
    assert m.code[s.pc] == m.code[s.pc..s.pc + 1][0] == i;
    t := s.(pc := s.pc + 1, top := s.top + 1,
            cells := s.cells[s.top + 1 := if e.Number? then e.v else Wrap(s.sp + e.offset)]);
    assert Step(m, s) == StackStep(s, i) == Running(t);
    RunOne(m, s);
  }

  /** One more instruction replaces the topmost cell. */
  lemma Replaces(m: Machine, s: State, u: State, n: nat, pc: int, a: int, b: int) returns (t: State)
    requires Reaches(m, s, u, n, pc, a) && u.top < |u.cells|
    requires Step(m, u) == Running(u.(pc := u.pc + 1, cells := u.cells[u.top := b]))
    ensures Reaches(m, s, t, n + 1, pc + 1, b)
  {
    hide Step, Run;
    t := u.(pc := u.pc + 1, cells := u.cells[u.top := b]);
    Then(m, s, u, n);
    assert t.cells[..t.top] == u.cells[..u.top];
  }

  /** One more instruction replaces the two topmost cells, which two expressions have left. */
  lemma Combines(m: Machine, s: State, u: State, w: State, op: int, i: nat, j: nat, k: int, l: int, a: int, b: int)
    returns (t: State)
    requires Reaches(m, s, u, i, k, a) && Reaches(m, u, w, j, l, b) && Computes(op, a, b)
    requires 0 <= l < |m.code| && m.code[l] == Instr(op, 0) && IsBinary(op)
    ensures Reaches(m, s, t, i + j + 1, l + 1, Binary(m.host, op, a, b))
  {
    hide Binary, Computes, Step, Run;
    RunSplits(m, s, i, j);
    BelowStays(s, u, w, k, l, a, b);
    t := w.(pc := w.pc + 1, top := u.top, cells := w.cells[u.top := Binary(m.host, op, a, b)]);
    Applies2(m, w, op);
    Then(m, s, w, i + j);
    assert t.cells[..t.top] == w.cells[..u.top];
  }

  /** Two expressions have been evaluated, and a branch has taken them. */
  lemma Decides(m: Machine, s: State, u: State, w: State, op: int, target: int, i: nat, j: nat, k: int, l: int,
      a: int, b: int) returns (x: State)
    requires Reaches(m, s, u, i, k, a) && Reaches(m, u, w, j, l, b)
    requires 0 <= l < |m.code| && m.code[l] == Instr(op, target) && 11 <= op <= 26
    ensures x.pc == (if Compare(m.host, op, a, b) then target else l + 1)
    ensures Run(m, s, i + j + 1) == Running(x) && Same(s, x)
  {
    hide Compare, Step, Run;
    RunSplits(m, s, i, j);
    BelowStays(s, u, w, k, l, a, b);
    x := w.(pc := if Compare(m.host, op, a, b) then target else l + 1, top := s.top);
    Compares(m, w, op, target);
    Then(m, s, w, i + j);
    assert x.cells[..s.top + 1] == w.cells[..u.top];
  }

  /** The states differ at most in pc and in cells that are not used. */
  predicate Same(s: State, x: State) {
    && Proper(s) && Proper(x) && 1 <= s.top < CELLS && x.top == s.top && x.cells[..s.top + 1] == s.cells[..s.top + 1]
    && x.sp == s.sp && x.image == s.image && x.breaks == s.breaks
  }

  lemma GoesOn(m: Machine, s: State, x: State, t: State, i: nat, n: nat, pc: int, v: int)
    requires Same(s, x) && Run(m, s, i) == Running(x) && Reaches(m, x, t, n, pc, v)
    ensures Reaches(m, s, t, i + n, pc, v)
  {
    hide Run;
    RunSplits(m, s, i, n);
  }

  /** The end of the code for no: the target is pushed and jumped to. */
  lemma Jumps(m: Machine, s: State, u: State, n: nat, pc: nat, target: nat, v: int) returns (t: State)
    requires Reaches(m, s, u, n, pc, v) && s.top + 2 < CELLS && pc + 1 < |m.code| && target < |m.code| < 0x8000_0000
    requires m.code[pc] == Instr(8, target) && m.code[pc + 1] == Instr(10, 0)
    ensures Reaches(m, s, t, n + 2, target, v)
  {
    hide Run;
    var w := u.(pc := pc + 1, top := u.top + 1, cells := u.cells[u.top + 1 := target]);
    assert Step(m, u) == StackStep(u, m.code[pc]) == Running(w);
    Then(m, s, u, n);
    t := w.(pc := target, top := u.top);
    JumpsTo(m, w, target);
    Then(m, s, w, n + 1);
    assert t.cells[..t.top] == u.cells[..u.top];
  }

  lemma JumpsTo(m: Machine, s: State, target: nat)
    requires Proper(s) && 2 <= s.top < CELLS && 0 <= s.pc < |m.code| && m.code[s.pc] == Instr(10, 0)
    requires s.cells[s.top] == target < |m.code| < 0x8000_0000
    ensures Step(m, s) == Running(s.(pc := target, top := s.top - 1))
  {
    hide CallStep, LeaveStep;
  }

  lemma BelowStays(s: State, u: State, w: State, k: int, l: int, a: int, b: int)
    requires 1 <= s.top && Pushes(s, u, k, a) && Pushes(u, w, l, b)
    ensures w.cells[u.top] == a && w.cells[..u.top] == s.cells[..u.top]
  {
    assert w.cells[u.top] == w.cells[..w.top][u.top];
    assert w.cells[..u.top] == w.cells[..w.top][..u.top] == u.cells[..w.top][..u.top] == u.cells[..u.top];
  }

  lemma Fetches(m: Machine, s: State, size: int)
    requires Proper(s) && 1 <= s.top < CELLS && 0 <= s.pc < |m.code| && (size == 1 || size == 2 || size == 4)
    requires m.code[s.pc] == Instr(if size == 1 then 27 else if size == 2 then 28 else 29, 0)
    ensures Step(m, s)
      == Running(s.(pc := s.pc + 1, cells := s.cells[s.top := FetchFrom(s.image, size, s.cells[s.top])]))
  {
  }

  lemma Applies1(m: Machine, s: State, op: int)
    requires Proper(s) && 1 <= s.top < CELLS && 0 <= s.pc < |m.code| && IsUnary(op) && m.code[s.pc] == Instr(op, 0)
    ensures Step(m, s)
      == Running(s.(pc := s.pc + 1, cells := s.cells[s.top := Unary(m.host, op, s.cells[s.top])]))
  {
    hide Unary;
  }

  lemma Applies2(m: Machine, s: State, op: int)
    requires Proper(s) && 2 <= s.top < CELLS && 0 <= s.pc < |m.code| && IsBinary(op) && m.code[s.pc] == Instr(op, 0)
    requires Computes(op, s.cells[s.top - 1], s.cells[s.top])
    ensures Step(m, s)
      == Running(s.(pc := s.pc + 1, top := s.top - 1,
                    cells := s.cells[s.top - 1 := Binary(m.host, op, s.cells[s.top - 1], s.cells[s.top])]))
  {
    hide Binary, Computes;
  }

  lemma Compares(m: Machine, s: State, op: int, target: int)
    requires Proper(s) && 3 <= s.top < CELLS && 0 <= s.pc < |m.code|
    requires 11 <= op <= 26 && m.code[s.pc] == Instr(op, target)
    ensures Step(m, s)
      == Running(s.(pc := if Compare(m.host, op, s.cells[s.top - 1], s.cells[s.top]) then target else s.pc + 1,
                    top := s.top - 2))
  {
    hide Compare;
  }

  // ---- calls ----

  /** An argument that OP_ARG has stored, under the return address of the call, is found by the function called. */
  lemma ArgumentArrives(host: Host, image: Image, sp: int, v: int, n: nat, i: nat, back: int)
    requires |image| % 4 == 0 && |image| < 0x8000_0000 && Int32(v) && n + 8 + 4 * i < 0x8000_0000
    requires 0 <= sp && sp % 4 == 0 && sp + 12 + 4 * i <= |image|
    ensures Sound(Argument(n, i))
    ensures
      var passed := Put(image, sp + 8 + 4 * i, WordBytes(v));
      Value(host, Put(passed, sp, WordBytes(back)), Wrap(sp - n), Argument(n, i)) == Some(v)
  {
    hide WordBytes, Load4, Value, Argument, Wrap, Put;
    var passed := Put(image, sp + 8 + 4 * i, WordBytes(v));
    PutThenLoad(image, sp + 8 + 4 * i, v);
    PutBelow(passed, sp, WordBytes(back), sp + 8 + 4 * i);
    ArgumentAt(host, Put(passed, sp, WordBytes(back)), sp, n, i);
  }

  /** OP_ARG stores the topmost cell that far above the frame. */
  lemma ArgIsPut(s: State, k: nat)
    requires Proper(s) && 2 <= s.top < CELLS && 0 <= s.sp && s.sp % 4 == 0 && k % 4 == 0 && s.sp + k + 4 <= |s.image|
    ensures ArgStep(s, Instr(33, k))
      == Running(s.(pc := s.pc + 1, top := s.top - 1, image := Put(s.image, s.sp + k, WordBytes(s.cells[s.top]))))
  {
    MaskedIsSame(s.sp + k, |s.image|);
    hide Masked, WordBytes, Put;
  }

  lemma PutBelow(m: Image, a: int, bytes: seq<byte>, at: int)
    requires 0 <= a && a + |bytes| <= at && at + 4 <= |m|
    ensures Load4(Put(m, a, bytes), at) == Load4(m, at)
  {
    hide Load4;
    assert Put(m, a, bytes)[at..at + 4] == m[at..at + 4];
    LoadsFrom(m, at);
    LoadsFrom(Put(m, a, bytes), at);
  }

  /** A host whose system calls return the word above the saved one */
  ghost predicate Echoes(host: Host) {
    forall image, sp {:trigger host.system(image, sp)} | 0 <= sp && sp + 8 <= |image| ::
      host.system(image, sp) == (Load4(image, sp + 4), image)
  }

  /** Calling instruction -1 - k is system call k: the host finds k above the saved word, and execution goes on
      behind the call with the result on the stack. */
  lemma SystemCall(m: Machine, s: State, k: nat)
    requires Proper(s) && 1 <= s.top < CELLS && 0 <= s.pc && s.pc + 1 < |m.code| && 0 <= s.sp && s.sp + 8 <= |s.image|
    requires s.cells[s.top] == -1 - k && k < 0x8000_0000 && Echoes(m.host) && Int32(Pointer(m.code, s.pc + 1))
    ensures
      var t := CallStep(m, s);
      t.Running? && t.s == s.(pc := s.pc + 1, cells := s.cells[s.top := k], image := t.s.image)
  {
    hide Load4, WordBytes, Put, Pointer;
    var next := Pointer(m.code, s.pc + 1);
    var image := Put(Put(s.image, s.sp, WordBytes(next)), s.sp + 4, WordBytes(k));
    PutThenLoad(s.image, s.sp, next);
    PutThenLoad(Put(s.image, s.sp, WordBytes(next)), s.sp + 4, k);
    PutAbove(Put(s.image, s.sp, WordBytes(next)), s.sp + 4, WordBytes(k), s.sp);
    InstructionAtPointer(m.code, s.pc + 1);
    assert m.host.system(image, s.sp) == (k, image);
  }

  lemma PutAbove(m: Image, a: int, bytes: seq<byte>, at: int)
    requires 0 <= at && at + 4 <= a && a + |bytes| <= |m|
    ensures Load4(Put(m, a, bytes), at) == Load4(m, at)
  {
    hide Load4;
    assert Put(m, a, bytes)[at..at + 4] == m[at..at + 4];
    LoadsFrom(m, at);
    LoadsFrom(Put(m, a, bytes), at);
  }

  // ---- functions ----

  /** A function with n bytes of locals that returns the value of an expression */
  function Program(n: int, e: Expr): (r: seq<Instr>)
    ensures |r| == Length(e) + 2
  {
    [Instr(3, n)] + Compiled(e, 1) + [Instr(4, n)]
  }

  /** The bytes of an instruction: the operands of 3, 4, 8, 9, 34 and of branches take four bytes, that of 33 one. */
  lemma BytesOfInstr(i: Instr)
    requires 0 <= i.op < 256 && (i.op == 33 ==> 0 <= i.arg < 256)
    ensures InstrBytes(i) ==
      if i.op == 3 || i.op == 4 || i.op == 8 || i.op == 9 || i.op == 34 || 11 <= i.op <= 26
      then [i.op] + WordBytes(i.arg)
      else if i.op == 33 then [33, i.arg] else [i.op]
  {
    hide WordBytes;
  }

  predicate Legal(i: Instr, size: int) {
    && 0 <= i.op < 256 && Int32(i.arg) && (QvmMachine.Branches(i.op) ==> 0 <= i.arg < size)
    && i.op != OP_ARG && (!HasOperand(i.op) ==> i.arg == 0)
  }

  lemma {:induction false} CompiledIsLegal(e: Expr, at: nat, size: int)
    requires Sound(e) && at + Length(e) < size < 0x8000_0000
    ensures forall i | i in Compiled(e, at) :: Legal(i, size)
    decreases e
  {
    match e
    case Number(_) =>
    case Local(_) =>
    case Fetch(_, address) => CompiledIsLegal(address, at, size);
    case Apply1(_, a) => CompiledIsLegal(a, at, size);
    case Apply2(_, left, right) =>
      CompiledIsLegal(left, at, size);
      CompiledIsLegal(right, at + Length(left), size);
    case Choose(_, left, right, yes, no) =>
      CompiledIsLegal(left, at, size);
      CompiledIsLegal(right, at + Length(left), size);
      CompiledIsLegal(no, NoAt(e, at), size);
      CompiledIsLegal(yes, YesAt(e, at), size);
      ChoiceIs(e, at);
      hide Compiled, Operands, Choices;
  }

  lemma ProgramIsWellFormed(n: int, e: Expr)
    requires Sound(e) && Int32(n) && Length(e) + 2 < 0x8000_0000
    ensures WellFormed(Program(n, e))
  {
    var code := Program(n, e);
    CompiledIsLegal(e, 1, |code|);
    hide Compiled;
    forall i | 0 <= i < |code| ensures Legal(code[i], |code|) {
      assert 1 <= i <= Length(e) ==> code[i] in Compiled(e, 1);
    }
  }

  lemma WordInFrame(image: Image, at: nat, words: seq<int>, k: nat)
    requires at + 4 * |words| <= |image| && k < |words| && Int32(words[k])
    ensures Load4(Put(image, at, WordsBytes(words)), at + 4 * k) == words[k]
  {
    hide WordsBytes, WordBytes, Load4, Put;
    var j: nat := 4 * k;
    WordAt(words, k);
    PartOfPut(image, at, WordsBytes(words), j);
    LoadsFrom(Put(image, at, WordsBytes(words)), at + j);
    LoadsWhatWasStored(words[k]);
  }

  lemma PartOfPut(image: Image, at: nat, bytes: seq<byte>, j: nat)
    requires at + |bytes| <= |image| && j + 4 <= |bytes|
    ensures Put(image, at, bytes)[at + j..at + j + 4] == bytes[j..j + 4]
  {
  }

  lemma {:induction false} WordAt(words: seq<int>, k: nat)
    requires k < |words|
    ensures WordsBytes(words)[4 * k..4 * k + 4] == WordBytes(words[k])
  {
    hide WordBytes;
    if k > 0 {
      WordAt(words[1..], k - 1);
      assert WordsBytes(words)[4 * k..4 * k + 4] == WordsBytes(words[1..])[4 * (k - 1)..4 * (k - 1) + 4];
    }
  }

  /** The value of argument i, as the code of a function with n bytes of locals refers to it */
  function Argument(n: int, i: nat): Expr {
    Fetch(4, Local(n + 8 + 4 * i))
  }

  /** It is the argument. */
  lemma ArgumentIs(host: Host, image: Image, stackOnEntry: int, args: seq<int>, n: nat, i: nat)
    requires |args| == 10 && 48 <= stackOnEntry <= |image| && i < 10 && Int32(args[i])
    requires stackOnEntry % 4 == 0 && |image| % 4 == 0 && |image| < 0x8000_0000 && n + 48 < 0x8000_0000
    ensures Sound(Argument(n, i)) && Worth(host, image, stackOnEntry, args, n, Argument(n, i)) == Some(args[i])
  {
    hide WordsBytes, Put, Load4, Value, Argument;
    WordInFrame(image, stackOnEntry - 48, [-1, 0] + args, i + 2);
    ArgumentAt(host, Framed(image, stackOnEntry, args), stackOnEntry - 48, n, i);
  }

  lemma ArgumentAt(host: Host, image: Image, sp: int, n: nat, i: nat)
    requires 0 <= sp && sp % 4 == 0 && sp + 12 + 4 * i <= |image| < 0x8000_0000 && |image| % 4 == 0
    requires n + 8 + 4 * i < 0x8000_0000
    ensures Sound(Argument(n, i))
    ensures Value(host, image, Wrap(sp - n), Argument(n, i)) == Some(Load4(image, sp + 8 + 4 * i))
  {
    hide Load4, Wrap, Masked;
    AddressIs(sp, n, 8 + 4 * i);
    MaskedIsSame(sp + 8 + 4 * i, |image|);
  }

  lemma AddressIs(sp: int, n: nat, k: nat)
    requires 0 <= sp && sp + k < 0x8000_0000
    ensures Wrap(Wrap(sp - n) + (n + k)) == sp + k
  {
  }

  lemma MaskedIsSame(a: int, size: int)
    requires 0 <= a < size && a % 4 == 0
    ensures Masked(a, size, 4) == a
  {
  }

  /** The memory with the frame of a call */
  function Framed(image: Image, stackOnEntry: int, args: seq<int>): (r: Image)
    requires |args| == 10 && 48 <= stackOnEntry <= |image|
    ensures |r| == |image|
  {
    Put(image, stackOnEntry - 48, WordsBytes([-1, 0] + args))
  }

  lemma EntryIs(cells: seq<int>, image: Image, stackOnEntry: int, args: seq<int>, breaks: nat)
    requires |args| == 10 && 48 <= stackOnEntry <= |image|
    ensures
      Entry(cells, image, stackOnEntry, args, breaks)
      == State(0, 1, cells, stackOnEntry - 48, Framed(image, stackOnEntry, args), breaks)
    ensures Load4(Framed(image, stackOnEntry, args), stackOnEntry - 48) == -1
  {
    hide WordsBytes, Put, Load4;
    WordInFrame(image, stackOnEntry - 48, [-1, 0] + args, 0);
  }

  /** The values that a function can return when it is called */
  function Worth(host: Host, image: Image, stackOnEntry: int, args: seq<int>, n: int, e: Expr): Option<int>
    requires |args| == 10 && 48 <= stackOnEntry <= |image| && |image| % 4 == 0 && Sound(e)
  {
    Value(host, Framed(image, stackOnEntry, args), Wrap(stackOnEntry - 48 - n), e)
  }

  /** Calling the function returns the value of its expression, and leaves the memory as it was set up. */
  lemma Returns(m: Machine, cells: seq<int>, image: Image, stackOnEntry: int, args: seq<int>, breaks: nat, n: int,
      e: Expr) returns (t: State)
    requires Sound(e) && Int32(n) && m.code == Program(n, e) && |m.code| < 0x8000_0000 && Cells(e) + 1 < CELLS
    requires |cells| == CELLS && |args| == 10 && 48 <= stackOnEntry <= |image| < 0x8000_0000 && |image| % 4 == 0
    requires Worth(m.host, image, stackOnEntry, args, n, e).Some?
    ensures
      var k := Steps(m.host, Framed(image, stackOnEntry, args), Wrap(stackOnEntry - 48 - n), e) + 2;
      Run(m, Entry(cells, image, stackOnEntry, args, breaks), k) == Finished(t)
    ensures t.image == Framed(image, stackOnEntry, args)
    ensures ResultOf(Finished(t)) == Returned(Worth(m.host, image, stackOnEntry, args, n, e).value)
  {
    hide Entry, Load4, Run, Step, Value, Steps, Sound, Cells, ResultOf, Wrap, Stands, Compiled, Program, Framed, Length;
    EntryIs(cells, image, stackOnEntry, args, breaks);
    ProgramParts(n, e);
    var s := State(0, 1, cells, stackOnEntry - 48, Framed(image, stackOnEntry, args), breaks);
    t := ReturnsFrom(m, s, n, e);
  }

  lemma ReturnsFrom(m: Machine, s: State, n: int, e: Expr) returns (t: State)
    requires Sound(e) && Int32(n) && |m.code| == Length(e) + 2 < 0x8000_0000 && Cells(e) + 1 < CELLS
    requires Stands(m.code, 1, Compiled(e, 1)) && m.code[0] == Instr(3, n) && m.code[1 + Length(e)] == Instr(4, n)
    requires Proper(s) && s.pc == 0 && s.top == 1 && |s.image| < 0x8000_0000
    requires 0 <= s.sp && s.sp + 4 <= |s.image| && Load4(s.image, s.sp) == -1
    requires Value(m.host, s.image, Wrap(s.sp - n), e).Some?
    ensures
      && Run(m, s, Steps(m.host, s.image, Wrap(s.sp - n), e) + 2) == Finished(t) && t.image == s.image
      && ResultOf(Finished(t)) == Returned(Value(m.host, s.image, Wrap(s.sp - n), e).value)
  {
    hide Load4, Run, Step, Stands, Compiled, Value, Steps, Sound, Cells, Length, Wrap;
    var u := s.(pc := 1, sp := Wrap(s.sp - n));
    Enters(m, s, n);
    var w := EvaluatesBody(m, u, e);
    t := w.(sp := s.sp);
    Leaves(m, w, n, s.sp);
    var k := Steps(m.host, u.image, u.sp, e);
    RunsBetween(m, s, u, w, k, t);
  }

  lemma EvaluatesBody(m: Machine, u: State, e: Expr) returns (w: State)
    requires Sound(e) && Stands(m.code, 1, Compiled(e, 1)) && Cells(e) + 1 < CELLS
    requires Proper(u) && u.pc == 1 && u.top == 1 && Value(m.host, u.image, u.sp, e).Some?
    ensures Run(m, u, Steps(m.host, u.image, u.sp, e)) == Running(w) && Proper(w) && w.top == 2
    ensures w.pc == 1 + Length(e) && w.sp == u.sp && w.image == u.image
    ensures w.cells[2] == Value(m.host, u.image, u.sp, e).value
  {
    hide Run, Step, Stands, Compiled;
    w := Evaluates(m, u, e);
    ReachesParts(m, u, w, Steps(m.host, u.image, u.sp, e), 1 + Length(e), Value(m.host, u.image, u.sp, e).value);
  }

  lemma Enters(m: Machine, s: State, n: int)
    requires Proper(s) && s.top == 1 && s.pc == 0 && |m.code| > 0 && m.code[0] == Instr(3, n)
    ensures Step(m, s) == Running(s.(pc := 1, sp := Wrap(s.sp - n)))
  {
  }

  lemma ProgramParts(n: int, e: Expr)
    requires Length(e) + 2 < 0x8000_0000
    ensures Stands(Program(n, e), 1, Compiled(e, 1))
    ensures Program(n, e)[0] == Instr(3, n) && Program(n, e)[1 + Length(e)] == Instr(4, n)
  {
    hide Compiled;
    assert Program(n, e)[1..1 + Length(e)] == Compiled(e, 1);
  }

  lemma Leaves(m: Machine, s: State, n: int, sp: int)
    requires Proper(s) && 1 <= s.top < CELLS && 0 <= s.pc < |m.code| && m.code[s.pc] == Instr(4, n)
    requires 0 <= sp && sp + 4 <= |s.image| < 0x8000_0000 && s.sp == Wrap(sp - n) && Load4(s.image, sp) == -1
    ensures Step(m, s) == Finished(s.(sp := sp))
  {
    hide Load4;
    assert Wrap(s.sp + n) == sp;
  }

  lemma RunsBetween(m: Machine, s: State, u: State, w: State, k: nat, t: State)
    requires Proper(s) && Step(m, s) == Running(u) && Proper(u) && Run(m, u, k) == Running(w) && Proper(w)
    requires Step(m, w) == Finished(t)
    ensures Run(m, s, k + 2) == Finished(t)
  {
    hide Step;
    RunOne(m, s);
    RunSplits(m, s, 1, k);
    Then(m, s, w, k + 1);
  }

  lemma {:induction false} RunStops(m: Machine, s: State, a: nat, b: nat)
    requires Proper(s) && !Run(m, s, a).Running? && a <= b
    ensures Run(m, s, b) == Run(m, s, a)
    decreases a
  {
    hide Step;
    if a > 0 && Step(m, s).Running? { RunStops(m, Step(m, s).s, a - 1, b - 1); }
  }

  /** The byte code of the function */
  function ByteCode(n: int, e: Expr): seq<byte>
    requires Sound(e) && Int32(n) && Length(e) + 2 < 0x8000_0000
  {
    ProgramIsWellFormed(n, e);
    Encoded(Program(n, e), Length(e) + 2)
  }

  /** Loading the byte code of the function and calling it returns the value of its expression. */
  method CallFunction(host: Host, bytes: array<byte>, instructionCount: nat, dataBase: array<byte>, args: seq<int>,
      fuel: nat, ghost n: int, ghost e: Expr) returns (r: Result)
    requires Sound(e) && Int32(n) && instructionCount == Length(e) + 2 < 0x8000_0000 && Int32(bytes.Length)
    requires ByteCode(n, e) <= bytes[..]
    requires 48 <= dataBase.Length < 0x8000_0000 && dataBase.Length % 4 == 0 && |args| == 10 && Cells(e) + 1 < CELLS
    requires Worth(host, dataBase[..], dataBase.Length, args, n, e).Some?
    requires
      var image := Framed(dataBase[..], dataBase.Length, args);
      fuel >= Steps(host, image, Wrap(dataBase.Length - 48 - n), e) + 2
    modifies dataBase
    ensures r == Returned(Worth(host, old(dataBase[..]), dataBase.Length, args, n, e).value)
    ensures dataBase[..] == Framed(old(dataBase[..]), dataBase.Length, args)
  {
    hide Run, Entry, Value, Steps, Sound, Cells, ResultOf, Wrap, Compiled, Program, Framed, Encoded, WellFormed, Worth;
    ProgramIsWellFormed(n, e);
    ghost var m, image := Machine(Program(n, e), bytes.Length, host), dataBase[..];
    forall cells: seq<int> | |cells| == CELLS
      ensures Run(m, Entry(cells, image, dataBase.Length, args, 0), fuel).Finished?
    {
      var t := ReturnsInTime(m, cells, image, args, fuel, n, e);
    }
    ghost var cells;
    r, cells := LoadAndCall(host, bytes, instructionCount, dataBase, args, fuel, Program(n, e));
    ghost var t := ReturnsInTime(m, cells, image, args, fuel, n, e);
  }

  lemma ReturnsInTime(m: Machine, cells: seq<int>, image: Image, args: seq<int>, fuel: nat, n: int, e: Expr)
    returns (t: State)
    requires Sound(e) && Int32(n) && m.code == Program(n, e) && |m.code| < 0x8000_0000 && Cells(e) + 1 < CELLS
    requires |cells| == CELLS && |args| == 10 && 48 <= |image| < 0x8000_0000 && |image| % 4 == 0
    requires Worth(m.host, image, |image|, args, n, e).Some?
    requires fuel >= Steps(m.host, Framed(image, |image|, args), Wrap(|image| - 48 - n), e) + 2
    ensures Run(m, Entry(cells, image, |image|, args, 0), fuel) == Finished(t)
    ensures t.image == Framed(image, |image|, args)
    ensures ResultOf(Finished(t)) == Returned(Worth(m.host, image, |image|, args, n, e).value)
  {
    hide Run, Entry, Value, Steps, Sound, Cells, ResultOf, Wrap, Compiled, Program, Framed, Step, Load4, Length;
    hide WordsBytes, Put, WordBytes;
    t := Returns(m, cells, image, |image|, args, 0, n, e);
    EntryIs(cells, image, |image|, args, 0);
    RunStops(m, Entry(cells, image, |image|, args, 0),
      Steps(m.host, Framed(image, |image|, args), Wrap(|image| - 48 - n), e) + 2, fuel);
  }
}
