/** Cells of the abstract machine, and its instruction set. */
module AmxOpcodes {

  /** A 32-bit cell, as its unsigned value. */
  type Cell = x: int | 0 <= x < 0x1_0000_0000

  function Wrap(x: int): Cell {
    x % 0x1_0000_0000
  }

  function Signed(c: Cell): int {
    if c < 0x8000_0000 then c else c - 0x1_0000_0000
  }

  datatype Reg = Pri | Alt

  /** Where a load or store finds its cell. */
  datatype Place = Global | Local | GlobalRef | LocalRef

  datatype Test =
    Eq | Neq | Less | Leq | Grtr | Geq | SignedLess | SignedLeq | SignedGrtr | SignedGeq

  datatype FloatOp = Mul | Div | Add | Sub | To | Round | Cmp

  datatype MemoryOp =
    | Load(reg: Reg, place: Place) | Store(reg: Reg, place: Place)
    | LoadIndirect | StoreIndirect | LoadIndexed | IndexAddress
    | Const(reg: Reg) | Address(reg: Reg) | ZeroAt(place: Place)
    | IncrementAt(delta: int, place: Place) | IncrementIndirect(delta: int)
    | LoadControl | StoreControl

  datatype StackingOp =
    | Push(reg: Reg) | PushMany | PushConst | PushAt(place: Place) | PushAddress | Pop(reg: Reg) | Swap(reg: Reg)
    | Stack | Heap | Proc | Return | ReturnPop

  datatype JumpingOp =
    | Call | CallPri | Jump | JumpRelative | JumpPri | JumpZero | JumpNonZero | JumpIf(test: Test) | Switch

  datatype SummingOp =
    | Move(to: Reg) | Exchange | ZeroReg(reg: Reg) | Increment(delta: int, reg: Reg)
    | Plus | Minus | MinusAlt | Not | Negate | AddConst | Compare(test: Test) | EqualsConst(reg: Reg) | Bounds

  datatype SpecialOp =
    | SysreqPri | SysreqConst | Float(float: FloatOp) | Halt | Skip(params: nat) | Symbol
    | Other(code: nat, constant: bool) | CaseTable | Invalid

  datatype Op =
    | Memory(memory: MemoryOp) | Stacking(stacking: StackingOp) | Jumping(jumping: JumpingOp)
    | Summing(summing: SummingOp) | Special(special: SpecialOp)

  function RegOf(n: nat): Reg {
    if n % 2 == 0 then Pri else Alt
  }

  function PlaceOf(n: nat): Place {
    if n < 2 then Global else if n < 4 then Local else if n < 6 then GlobalRef else LocalRef
  }

  function TestOf(n: nat): Test {
    match n
    case 0 => Eq
    case 1 => Neq
    case 2 => Less
    case 3 => Leq
    case 4 => Grtr
    case 5 => Geq
    case 6 => SignedLess
    case 7 => SignedLeq
    case 8 => SignedGrtr
    case _ => SignedGeq
  }

  function FloatOf(n: nat): FloatOp {
    match n
    case 0 => Mul
    case 1 => Div
    case 2 => Add
    case 3 => Sub
    case 4 => To
    case 5 => Round
    case _ => Cmp
  }

  /** The numbering of the instruction set. */
  function OpOf(n: Cell): Op {
    if 1 <= n <= 8 then Memory(Load(RegOf(n - 1), PlaceOf(n - 1)))
    else if 15 <= n <= 22 then Memory(Store(RegOf(n - 15), PlaceOf(n - 15)))
    else if 55 <= n <= 64 then Jumping(JumpIf(TestOf(n - 55)))
    else if 95 <= n <= 104 then Summing(Compare(TestOf(n - 95)))
    else if 138 <= n <= 144 then Special(Float(FloatOf(n - 138)))
    else if n < 36 then AddressingOp(n)
    else if n < 65 then StackOp(n)
    else if n < 95 then ArithmeticOp(n)
    else if n < 120 then CountingOp(n)
    else SystemOp(n)
  }

  /** Indirect access, constants, addresses and control registers. */
  function AddressingOp(n: Cell): Op {
    match n
    case 9 => Memory(LoadIndirect)
    case 10 => Special(Other(10, true))
    case 11 => Memory(Const(Pri))
    case 12 => Memory(Const(Alt))
    case 13 => Memory(Address(Pri))
    case 14 => Memory(Address(Alt))
    case 23 => Memory(StoreIndirect)
    case 24 => Special(Other(24, true))
    case 25 => Memory(LoadIndexed)
    case 26 => Special(Other(26, true))
    case 27 => Memory(IndexAddress)
    case 28 => Special(Other(28, true))
    case 29 => Special(Other(29, true))
    case 30 => Special(Other(30, true))
    case 31 => Memory(LoadControl)
    case 32 => Memory(StoreControl)
    case 33 => Summing(Move(Pri))
    case 34 => Summing(Move(Alt))
    case 35 => Summing(Exchange)
    case _ => Special(Invalid)
  }

  /** The stack, calls and plain jumps. */
  function StackOp(n: Cell): Op {
    match n
    case 36 => Stacking(Push(Pri))
    case 37 => Stacking(Push(Alt))
    case 38 => Stacking(PushMany)
    case 39 => Stacking(PushConst)
    case 40 => Stacking(PushAt(Global))
    case 41 => Stacking(PushAt(Local))
    case 42 => Stacking(Pop(Pri))
    case 43 => Stacking(Pop(Alt))
    case 44 => Stacking(Stack)
    case 45 => Stacking(Heap)
    case 46 => Stacking(Proc)
    case 47 => Stacking(Return)
    case 48 => Stacking(ReturnPop)
    case 49 => Jumping(Call)
    case 50 => Jumping(CallPri)
    case 51 => Jumping(Jump)
    case 52 => Jumping(JumpRelative)
    case 53 => Jumping(JumpZero)
    case 54 => Jumping(JumpNonZero)
    case _ => Special(Invalid)
  }

  /** Arithmetic on the two registers. */
  function ArithmeticOp(n: Cell): Op {
    if n <= 67 || 72 <= n <= 77 || 81 <= n <= 83 || n == 86 || n == 93 || n == 94 then Special(Other(n, false))
    else if n <= 71 || n == 88 then Special(Other(n, true))
    else match n
         case 78 => Summing(Plus)
         case 79 => Summing(Minus)
         case 80 => Summing(MinusAlt)
         case 84 => Summing(Not)
         case 85 => Summing(Negate)
         case 87 => Summing(AddConst)
         case 89 => Summing(ZeroReg(Pri))
         case 90 => Summing(ZeroReg(Alt))
         case 91 => Memory(ZeroAt(Global))
         case _ => Memory(ZeroAt(Local))
  }

  /** Increments and block operations. */
  function CountingOp(n: Cell): Op {
    match n
    case 105 => Summing(EqualsConst(Pri))
    case 106 => Summing(EqualsConst(Alt))
    case 107 => Summing(Increment(1, Pri))
    case 108 => Summing(Increment(1, Alt))
    case 109 => Memory(IncrementAt(1, Global))
    case 110 => Memory(IncrementAt(1, Local))
    case 111 => Memory(IncrementIndirect(1))
    case 112 => Summing(Increment(-1, Pri))
    case 113 => Summing(Increment(-1, Alt))
    case 114 => Memory(IncrementAt(-1, Global))
    case 115 => Memory(IncrementAt(-1, Local))
    case 116 => Memory(IncrementIndirect(-1))
    case 117 => Special(Other(117, true))
    case 118 => Special(Other(118, true))
    case 119 => Special(Other(119, true))
    case _ => Special(Invalid)
  }

  /** Halting, system requests, switches and markers. */
  function SystemOp(n: Cell): Op {
    match n
    case 120 => Special(Halt)
    case 121 => Summing(Bounds)
    case 122 => Special(SysreqPri)
    case 123 => Special(SysreqConst)
    case 125 => Special(Skip(2))
    case 126 => Special(Symbol)
    case 127 => Special(Skip(2))
    case 128 => Jumping(JumpPri)
    case 129 => Jumping(Switch)
    case 130 => Special(CaseTable)
    case 131 => Stacking(Swap(Pri))
    case 132 => Stacking(Swap(Alt))
    case 133 => Stacking(PushAddress)
    case 134 => Special(Skip(0))
    case 135 => Special(Other(135, true))
    case 136 => Special(Skip(1))
    case 137 => Special(Skip(0))
    case _ => Special(Invalid)
  }

  const ERR_NONE: Cell := 0
  const ERR_STACKERR: Cell := 3
  const ERR_BOUNDS: Cell := 4
  const ERR_MEMACCESS: Cell := 5
  const ERR_INVINSTR: Cell := 6
  const ERR_STACKLOW: Cell := 7
  const ERR_HEAPLOW: Cell := 8
  const ERR_SLEEP: Cell := 12

  const NOP: Cell := 134
  const FLOAT_MUL: Cell := 138

  /** How the sweep over a code segment treats an opcode. */
  datatype Shape = Plain(params: nat) | Jumps | Native | Text | Cases | Unknown

  function ShapeOf(n: Cell): Shape {
    if n == 123 then Native
    else if n == 49 || n == 51 || 53 <= n <= 64 || n == 129 then Jumps
    else if n == 124 || n == 126 then Text
    else if n == 125 || n == 127 then Plain(2)
    else if n == 130 then Cases
    else if TakesOne(n) || n == 136 then Plain(1)
    else if TakesNone(n) then Plain(0)
    else Unknown
  }

  predicate TakesOne(n: Cell) {
    || 1 <= n <= 8 || 10 <= n <= 22 || n == 24 || n == 26 || 28 <= n <= 32 || 38 <= n <= 41
    || 44 <= n <= 45 || n == 52 || 68 <= n <= 71 || 87 <= n <= 88 || 91 <= n <= 92 || 105 <= n <= 106
    || 109 <= n <= 110 || 114 <= n <= 115 || 117 <= n <= 121 || n == 133 || n == 135
  }

  predicate TakesNone(n: Cell) {
    || n == 9 || n == 23 || n == 25 || n == 27 || 33 <= n <= 37 || 42 <= n <= 43 || 46 <= n <= 48
    || n == 50 || 65 <= n <= 67 || 72 <= n <= 86 || 89 <= n <= 90 || 93 <= n <= 104 || 107 <= n <= 108
    || 111 <= n <= 113 || n == 116 || n == 122 || n == 128 || 131 <= n <= 132 || n == 134 || 137 <= n <= 144
  }
}
