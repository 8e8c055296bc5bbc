/** What an instruction of the abstract machine does, once it has been fetched.
    `cip` is kept as an offset into the code segment. */
module AmxMachine {
  import opened Wrappers
  import opened AmxOpcodes

  const STKMARGIN: Cell := 64

  type Data = seq<Cell>

  /** The registers, the data, and what natives remember outside the plugin, in any coding. */
  datatype State = State(pri: Cell, alt: Cell, frm: Cell, stk: Cell, hea: Cell, cip: Cell, data: Data, host: nat)

  /** How `amx_Exec` can end: an abort resets the stack and heap pointers, a sleep
      and a failed stack check leave them. */
  datatype Stop = Abort(err: Cell) | Asleep | Unsafe(err: Cell)

  /** `Undefined` stands for an access outside the code or the data. */
  datatype Outcome = Next(state: State) | Halted(how: Stop, last: State) | Undefined

  /** What a native or an arithmetic unit hands back. */
  datatype Reply = Reply(err: Cell, pri: Cell, alt: Cell, data: Data, host: nat) | Crash

  /** The float unit, as operations on cells. */
  datatype FloatUnit = FloatUnit(
    mul: (Cell, Cell) -> Cell, div: (Cell, Cell) -> Cell, add: (Cell, Cell) -> Cell, sub: (Cell, Cell) -> Cell,
    to: Cell -> Cell, nearest: Cell -> Cell, floor: Cell -> Cell, ceil: Cell -> Cell,
    negative: Cell -> bool, equal: (Cell, Cell) -> bool, greater: (Cell, Cell) -> bool)

  /** What surrounds the machine: the layout of its image, the float unit, the natives,
      and the instructions whose arithmetic is not spelled out here. */
  datatype Env = Env(
    cod: Cell, dat: Cell, stp: Cell, hlw: Cell, codesize: Cell,
    unit: FloatUnit, call: (Cell, State) -> Reply, other: (nat, Cell, State) -> Reply)

  // ------------------------------------------------------------------ memory

  predicate Mapped(data: Data, a: Cell) {
    a % 4 == 0 && a / 4 < |data|
  }

  function Peek(data: Data, a: Cell): Cell
    requires Mapped(data, a)
  {
    data[a / 4]
  }

  function Poke(data: Data, a: Cell, v: Cell): (r: Data)
    requires Mapped(data, a)
    ensures |r| == |data| && Peek(r, a) == v
    ensures forall b: Cell | Mapped(data, b) && b != a :: Peek(r, b) == Peek(data, b)
  {
    data[a / 4 := v]
  }

  function Get(s: State, r: Reg): Cell {
    if r.Pri? then s.pri else s.alt
  }

  function Set(s: State, r: Reg, v: Cell): State {
    if r.Pri? then s.(pri := v) else s.(alt := v)
  }

  /** The address an operand names. */
  function AddressOf(s: State, p: Place, v: Cell): Option<Cell> {
    match p
    case Global => Some(v)
    case Local => Some(Wrap(s.frm + v))
    case GlobalRef => Fetch(s, v)
    case LocalRef => Fetch(s, Wrap(s.frm + v))
  }

  function Fetch(s: State, a: Cell): Option<Cell> {
    if Mapped(s.data, a) then Some(Peek(s.data, a)) else None
  }

  function Stored(s: State, a: Option<Cell>, v: Cell): Outcome {
    if a.Some? && Mapped(s.data, a.value) then Next(s.(data := Poke(s.data, a.value, v))) else Undefined
  }

  function Loaded(s: State, a: Option<Cell>, r: Reg): Outcome {
    if a.Some? && Mapped(s.data, a.value) then Next(Set(s, r, Peek(s.data, a.value))) else Undefined
  }

  /** An address in the gap between heap and stack, or above the top. */
  predicate Forbidden(env: Env, s: State, a: Cell) {
    (Signed(a) >= Signed(s.hea) && Signed(a) < Signed(s.stk)) || a >= env.stp
  }

  function Pushed(s: State, v: Cell): Outcome {
    Stored(s.(stk := Wrap(s.stk - 4)), Some(Wrap(s.stk - 4)), v)
  }

  function PushedTimes(s: State, v: Cell, n: nat): Outcome
    decreases n
  {
    if n == 0 then Next(s)
    else match Pushed(s, v)
         case Next(t) => PushedTimes(t, v, n - 1)
         case o => o
  }

  predicate Collides(s: State) {
    Signed(Wrap(s.hea + STKMARGIN)) > Signed(s.stk)
  }

  // ------------------------------------------------------------------- tests

  predicate Holds(t: Test, a: Cell, b: Cell) {
    match t
    case Eq => a == b
    case Neq => a != b
    case Less => a < b
    case Leq => a <= b
    case Grtr => a > b
    case Geq => a >= b
    case SignedLess => Signed(a) < Signed(b)
    case SignedLeq => Signed(a) <= Signed(b)
    case SignedGrtr => Signed(a) > Signed(b)
    case SignedGeq => Signed(a) >= Signed(b)
  }

  function Truth(b: bool): Cell {
    if b then 1 else 0
  }

  // ------------------------------------------------------------------ floats

  /** The float opcodes, on the two arguments above the stack pointer. */
  function FloatOpcode(u: FloatUnit, f: FloatOp, x: Cell, y: Cell): Cell {
    match f
    case Mul => u.mul(x, y)
    case Div => u.div(x, y)
    case Add => u.add(x, y)
    case Sub => u.sub(x, y)
    case To => u.to(x)
    case Round => if y == 0 then u.nearest(x) else if y == 1 then u.floor(x) else u.ceil(x)
    case Cmp => if u.equal(x, y) then 0 else if u.greater(x, y) then 1 else 0xffff_ffff
  }

  /** The natives that float opcodes stand in for. */
  function FloatNative(u: FloatUnit, f: FloatOp, x: Cell, y: Cell): Cell {
    match f
    case Mul => u.mul(x, y)
    case Div => u.div(x, y)
    case Add => u.add(x, y)
    case Sub => u.sub(x, y)
    case To => u.to(x)
    case Round =>
      if y == 1 then u.floor(x)
      else if y == 2 then u.ceil(x)
      else if y == 3 then (if u.negative(x) then u.ceil(x) else u.floor(x))
      else u.nearest(x)
    case Cmp => if u.equal(x, y) then 0 else if u.greater(x, y) then 1 else 0xffff_ffff
  }

  /** The `k`-th argument of a native, above the byte count on top of the stack. */
  function Argument(s: State, k: nat): Option<Cell> {
    Fetch(s, Wrap(s.stk + 4 * k))
  }

  /** The arguments a float operation reads. */
  function FloatArguments(s: State, f: FloatOp): Option<(Cell, Cell)> {
    var x := Argument(s, 1);
    var y := if f.To? then Some(0) else Argument(s, 2);
    if x.Some? && y.Some? then Some((x.value, y.value)) else None
  }

  // ------------------------------------------------------------- instructions

  datatype Arg = NoArg | Value(v: Cell) | Target(to: Cell) | Table(fallback: Cell, cases: seq<(Cell, Cell)>)

  /** The first case with the value, or the fallback. */
  function Lookup(fallback: Cell, cases: seq<(Cell, Cell)>, v: Cell): Cell {
    if cases == [] then fallback
    else if cases[0].0 == v then cases[0].1
    else Lookup(fallback, cases[1..], v)
  }

  function Returned(s: State, reply: Reply): Outcome {
    match reply
    case Crash => Undefined
    case Reply(err, pri, alt, data, host) =>
      var t := s.(pri := pri, alt := alt, data := data, host := host);
      if err == ERR_NONE then Next(t)
      else if err == ERR_SLEEP then Halted(Asleep, t)
      else Halted(Abort(err), t)
  }

  /** A native's reply does not reach `alt`, which the machine keeps in a local. */
  function CallNative(env: Env, s: State, index: Cell): Outcome {
    match env.call(index, s)
    case Crash => Undefined
    case Reply(err, pri, _, data, host) => Returned(s, Reply(err, pri, s.alt, data, host))
  }

  /** One fetched instruction; `s.cip` is already the offset of the next one. */
  function Execute(op: Op, arg: Arg, env: Env, s: State): Outcome {
    match op
    case Memory(m) => ExecuteMemory(m, arg, env, s)
    case Stacking(t) => ExecuteStacking(t, arg, env, s)
    case Jumping(j) => ExecuteJumping(j, arg, s)
    case Summing(u) => ExecuteSumming(u, arg, s)
    case Special(p) => ExecuteSpecial(p, arg, env, s)
  }

  /** Loads, stores and addresses. */
  function ExecuteMemory(op: MemoryOp, arg: Arg, env: Env, s: State): Outcome {
    match (op, arg)
    case (Load(r, p), Value(v)) => Loaded(s, AddressOf(s, p, v), r)
    case (Store(r, p), Value(v)) => Stored(s, AddressOf(s, p, v), Get(s, r))
    case (LoadIndirect, _) =>
      if Forbidden(env, s, s.pri) then Halted(Abort(ERR_MEMACCESS), s) else Loaded(s, Some(s.pri), Pri)
    case (StoreIndirect, _) =>
      if Forbidden(env, s, s.alt) then Halted(Abort(ERR_MEMACCESS), s) else Stored(s, Some(s.alt), s.pri)
    case (LoadIndexed, _) =>
      var a := Wrap(4 * s.pri + s.alt);
      if Forbidden(env, s, a) then Halted(Abort(ERR_MEMACCESS), s) else Loaded(s, Some(a), Pri)
    case (IndexAddress, _) => Next(s.(pri := Wrap(4 * s.pri + s.alt)))
    case (Const(r), Value(v)) => Next(Set(s, r, v))
    case (Address(r), Value(v)) => Next(Set(s, r, Wrap(v + s.frm)))
    case (ZeroAt(p), Value(v)) => Stored(s, AddressOf(s, p, v), 0)
    case (IncrementAt(d, p), Value(v)) => Bumped(s, AddressOf(s, p, v), d)
    case (IncrementIndirect(d), _) => Bumped(s, Some(s.pri), d)
    case (LoadControl, Value(v)) => Next(s.(pri := Control(env, s, v)))
    case (StoreControl, Value(v)) => Next(SetControl(s, v))
    case (_, _) => Halted(Abort(ERR_INVINSTR), s)
  }

  /** The stack, the heap pointer and frames. */
  function ExecuteStacking(op: StackingOp, arg: Arg, env: Env, s: State): Outcome {
    match (op, arg)
    case (Swap(r), _) =>
      if Mapped(s.data, s.stk)
      then Next(Set(s.(data := Poke(s.data, s.stk, Get(s, r))), r, Peek(s.data, s.stk))) else Undefined
    case (Push(r), _) => Pushed(s, Get(s, r))
    case (PushMany, Value(v)) => PushedTimes(s, s.pri, v)
    case (PushConst, Value(v)) => Pushed(s, v)
    case (PushAt(p), Value(v)) =>
      var a := AddressOf(s, p, v);
      if a.Some? && Mapped(s.data, a.value) then Pushed(s, Peek(s.data, a.value)) else Undefined
    case (PushAddress, Value(v)) => Pushed(s, Wrap(s.frm + v))
    case (Pop(r), _) =>
      if Mapped(s.data, s.stk) then Next(Set(s, r, Peek(s.data, s.stk)).(stk := Wrap(s.stk + 4))) else Undefined
    case (Stack, Value(v)) =>
      var t := s.(alt := s.stk, stk := Wrap(s.stk + v));
      if Collides(t) then Halted(Unsafe(ERR_STACKERR), t)
      else if Signed(t.stk) > Signed(env.stp) then Halted(Unsafe(ERR_STACKLOW), t)
      else Next(t)
    case (Heap, Value(v)) =>
      var t := s.(alt := s.hea, hea := Wrap(s.hea + v));
      if Collides(t) then Halted(Unsafe(ERR_STACKERR), t)
      else if Signed(t.hea) < Signed(env.hlw) then Halted(Unsafe(ERR_HEAPLOW), t)
      else Next(t)
    case (Proc, _) =>
      (match Pushed(s, s.frm)
       case Next(t) =>
         var u := t.(frm := t.stk);
         if Collides(u) then Halted(Unsafe(ERR_STACKERR), u) else Next(u)
       case o => o)
    case (Return, _) => Popped(env, s)
    case (ReturnPop, _) =>
      (match Popped(env, s)
       case Next(t) =>
         if Mapped(t.data, t.stk) then Next(t.(stk := Wrap(t.stk + Peek(t.data, t.stk) + 4))) else Undefined
       case o => o)
    case (_, _) => Halted(Abort(ERR_INVINSTR), s)
  }

  /** Calls and jumps. */
  function ExecuteJumping(op: JumpingOp, arg: Arg, s: State): Outcome {
    match (op, arg)
    case (Call, Target(to)) => GoTo(Pushed(s, s.cip), to)
    case (CallPri, _) => GoTo(Pushed(s, s.cip), s.pri)
    case (Jump, Target(to)) => Next(s.(cip := to))
    case (JumpRelative, Value(v)) => Next(s.(cip := Wrap(s.cip + v)))
    case (JumpPri, _) => Next(s.(cip := s.pri))
    case (JumpZero, Target(to)) => Next(if s.pri == 0 then s.(cip := to) else s)
    case (JumpNonZero, Target(to)) => Next(if s.pri != 0 then s.(cip := to) else s)
    case (JumpIf(t), Target(to)) => Next(if Holds(t, s.pri, s.alt) then s.(cip := to) else s)
    case (Switch, Table(fallback, cases)) => Next(s.(cip := Lookup(fallback, cases, s.pri)))
    case (_, _) => Halted(Abort(ERR_INVINSTR), s)
  }

  /** The two registers. */
  function ExecuteSumming(op: SummingOp, arg: Arg, s: State): Outcome {
    match (op, arg)
    case (ZeroReg(r), _) => Next(Set(s, r, 0))
    case (Increment(d, r), _) => Next(Set(s, r, Wrap(Get(s, r) + d)))
    case (Move(r), _) => Next(Set(s, r, if r.Pri? then s.alt else s.pri))
    case (Exchange, _) => Next(s.(pri := s.alt, alt := s.pri))
    case (Bounds, Value(v)) => if s.pri > v then Halted(Abort(ERR_BOUNDS), s) else Next(s)
    case (Plus, _) => Next(s.(pri := Wrap(s.pri + s.alt)))
    case (Minus, _) => Next(s.(pri := Wrap(s.pri - s.alt)))
    case (MinusAlt, _) => Next(s.(pri := Wrap(s.alt - s.pri)))
    case (Not, _) => Next(s.(pri := Truth(s.pri == 0)))
    case (Negate, _) => Next(s.(pri := Wrap(-(s.pri as int))))
    case (AddConst, Value(v)) => Next(s.(pri := Wrap(s.pri + v)))
    case (Compare(t), _) => Next(s.(pri := Truth(Holds(t, s.pri, s.alt))))
    case (EqualsConst(r), Value(v)) => Next(s.(pri := Truth(Get(s, r) == v)))
    case (_, _) => Halted(Abort(ERR_INVINSTR), s)
  }

  /** The surroundings, and instructions that do nothing. */
  function ExecuteSpecial(op: SpecialOp, arg: Arg, env: Env, s: State): Outcome {
    match (op, arg)
    case (Halt, Value(v)) => Halted(if v == ERR_SLEEP then Asleep else Abort(v), s)
    case (Other(n, _), NoArg) => Returned(s, env.other(n, 0, s))
    case (Other(n, _), Value(v)) => Returned(s, env.other(n, v, s))
    case (SysreqPri, _) => CallNative(env, s, s.pri)
    case (SysreqConst, Value(v)) => CallNative(env, s, v)
    case (Float(f), _) =>
      (match FloatArguments(s, f)
       case None => Undefined
       case Some(xy) => Next(s.(pri := FloatOpcode(env.unit, f, xy.0, xy.1))))
    case (Skip(_), _) => Next(s)
    case (Symbol, Value(v)) => Next(s.(cip := Wrap(s.cip + v)))
    case (_, _) => Halted(Abort(ERR_INVINSTR), s)
  }

  function Bumped(s: State, a: Option<Cell>, d: int): Outcome {
    if a.Some? && Mapped(s.data, a.value) then Stored(s, a, Wrap(Peek(s.data, a.value) + d)) else Undefined
  }

  function Control(env: Env, s: State, v: Cell): Cell {
    if v == 0 then env.cod else if v == 1 then env.dat else if v == 2 then s.hea else if v == 3 then env.stp
    else if v == 4 then s.stk else if v == 5 then s.frm else if v == 6 then s.cip else s.pri
  }

  function SetControl(s: State, v: Cell): State {
    if v == 2 then s.(hea := s.pri) else if v == 4 then s.(stk := s.pri) else if v == 5 then s.(frm := s.pri)
    else if v == 6 then s.(cip := s.pri) else s
  }

  function GoTo(o: Outcome, to: Cell): Outcome {
    if o.Next? then Next(o.state.(cip := to)) else o
  }

  /** Pop the saved frame and the return address, which must lie in the code. */
  function Popped(env: Env, s: State): Outcome {
    if !Mapped(s.data, s.stk) || !Mapped(s.data, Wrap(s.stk + 4)) then Undefined
    else
      var t := s.(frm := Peek(s.data, s.stk), stk := Wrap(s.stk + 8));
      var to := Peek(s.data, Wrap(s.stk + 4));
      if to >= env.codesize then Halted(Abort(ERR_MEMACCESS), t) else Next(t.(cip := to))
  }

  // ------------------------------------------------------------------ fetching

  /** How jump operands are read: as the 16-bit build does, relative to the code, or as
      the 32-bit build does, as absolute addresses (`base` is where the code lies). */
  datatype Jumps = Relative | Absolute(base: Cell)

  /** The offset a jump operand leads to. */
  function Landing(mode: Jumps, w: Cell): Cell {
    if mode.Relative? then w else Wrap(w - mode.base)
  }

  datatype Need = Nothing | Cell1 | Jump1 | Table1 | Cells(n: nat)

  /** The operands the interpreter takes. */
  function NeedOf(op: Op): Need {
    match op
    case Memory(m) =>
      if m.LoadIndirect? || m.StoreIndirect? || m.LoadIndexed? || m.IndexAddress? || m.IncrementIndirect?
      then Nothing else Cell1
    case Stacking(t) =>
      if t.PushMany? || t.PushConst? || t.PushAt? || t.PushAddress? || t.Stack? || t.Heap? then Cell1 else Nothing
    case Jumping(j) =>
      if j.CallPri? || j.JumpPri? then Nothing
      else if j.JumpRelative? then Cell1 else if j.Switch? then Table1 else Jump1
    case Summing(u) => if u.AddConst? || u.EqualsConst? || u.Bounds? then Cell1 else Nothing
    case Special(p) =>
      (match p
       case SysreqConst | Halt | Symbol => Cell1
       case Other(_, constant) => if constant then Cell1 else Nothing
       case Skip(n) => Cells(n)
       case _ => Nothing)
  }

  /** The case table at offset `t`: a count, a fallback address, then values beside addresses. */
  function TableAt(code: seq<Cell>, mode: Jumps, t: Cell): Option<Arg> {
    var i := t / 4;
    if t % 4 == 0 && i + 2 < |code| && Signed(code[i + 1]) >= 0 && i + 3 + 2 * (code[i + 1] as int) <= |code| then
      Some(Table(Landing(mode, code[i + 2]), CasesOf(code, mode, i + 3, code[i + 1])))
    else None
  }

  function CasesOf(code: seq<Cell>, mode: Jumps, i: nat, n: nat): (cases: seq<(Cell, Cell)>)
    requires i + 2 * n <= |code|
    ensures |cases| == n
    ensures forall k | 0 <= k < n :: cases[k] == (code[i + 2 * k], Landing(mode, code[i + 2 * k + 1]))
    decreases n
  {
    if n == 0 then [] else [(code[i], Landing(mode, code[i + 1]))] + CasesOf(code, mode, i + 2, n - 1)
  }

  /** The operand at word `i + 1`. */
  function ArgAt(code: seq<Cell>, mode: Jumps, need: Need, i: nat): Option<Arg> {
    match need
    case Nothing => Some(NoArg)
    case Cells(_) => Some(NoArg)
    case Cell1 => if i + 1 < |code| then Some(Value(code[i + 1])) else None
    case Jump1 => if i + 1 < |code| then Some(Target(Landing(mode, code[i + 1]))) else None
    case Table1 => if i + 1 < |code| then TableAt(code, mode, Landing(mode, code[i + 1])) else None
  }

  function Width(need: Need): nat {
    match need
    case Nothing => 1
    case Cells(n) => 1 + n
    case _ => 2
  }

  /** The instruction at word `i`: its operand is taken and `cip` passes it before it acts. */
  function Instruction(code: seq<Cell>, mode: Jumps, env: Env, i: nat, s: State): Outcome
    requires i < |code|
  {
    var op := OpOf(code[i]);
    match ArgAt(code, mode, NeedOf(op), i)
    case None => Undefined
    case Some(arg) => Execute(op, arg, env, s.(cip := Wrap(4 * i + 4 * Width(NeedOf(op)))))
  }

  /** One turn of the interpreter loop. */
  function Step(code: seq<Cell>, mode: Jumps, env: Env, s: State): Outcome {
    if s.cip % 4 == 0 && s.cip / 4 < |code| then Instruction(code, mode, env, s.cip / 4, s) else Undefined
  }

  /** At most `n` turns. */
  function Run(code: seq<Cell>, mode: Jumps, env: Env, n: nat, s: State): Outcome
    decreases n
  {
    if n == 0 then Next(s)
    else match Step(code, mode, env, s)
         case Next(t) => Run(code, mode, env, n - 1, t)
         case o => o
  }
}
