/** The interpreter loop of `amx_Exec`, opcode by opcode, on registers and data it
    updates in place. */
module AmxExec {
  import opened Wrappers
  import opened AmxOpcodes
  import opened AmxMachine

  /** How a turn leaves the loop: it goes on, it ends, or it has touched an address
      outside the image. */
  datatype Ending = Going | Ended(how: Stop) | Lost {
    predicate IsFailure() {
      !Going?
    }

    function PropagateFailure(): Ending
      requires IsFailure()
    {
      this
    }
  }

  /** A cell read from the image, or a miss. */
  datatype Access = Hit(value: Cell) | Miss {
    predicate IsFailure() {
      Miss?
    }

    function PropagateFailure(): Ending
      requires IsFailure()
    {
      Lost
    }

    function Extract(): Cell
      requires !IsFailure()
    {
      value
    }
  }

  ghost function Came(r: Ending, s: State): Outcome {
    match r
    case Going => Next(s)
    case Ended(how) => Halted(how, s)
    case Lost => Undefined
  }

  class Amx {
    const code: seq<Cell>
    const base: Cell
    const env: Env
    var pri: Cell
    var alt: Cell
    var frm: Cell
    var stk: Cell
    var hea: Cell
    var cip: Cell
    var data: Data
    var host: nat

    constructor (code: seq<Cell>, base: Cell, env: Env, s: State)
      ensures this.code == code && this.base == base && this.env == env && View() == s
    {
      this.code, this.base, this.env := code, base, env;
      pri, alt, frm, stk, hea, cip, data, host := s.pri, s.alt, s.frm, s.stk, s.hea, s.cip, s.data, s.host;
    }

    /** The registers and the data, as one value. */
    function View(): State
      reads this
    {
      State(pri, alt, frm, stk, hea, cip, data, host)
    }

    /** The opcode at word `i` has been read, and `cip` is past it. */
    ghost predicate Fetched(op: Cell, i: nat)
      reads this
    {
      i < |code| && 4 * |code| < 0x8000_0000 && code[i] == op && cip == 4 * (i + 1)
    }

    /** What the instruction at word `i` should do. */
    ghost function Expected(i: nat, s: State): Outcome
      requires i < |code|
    {
      Instruction(code, Absolute(base), env, i, s)
    }

    // ------------------------------------------------------- reads and writes

    function Read(a: Cell): Access
      reads this
    {
      if Mapped(data, a) then Hit(data[a / 4]) else Miss
    }

    method Write(a: Cell, v: Cell) returns (r: Ending)
      modifies this`data
      ensures Came(r, View()) == Stored(old(View()), Some(a), v)
    {
      if !Mapped(data, a) {
        return Lost;
      }
      data := data[a / 4 := v];
      r := Going;
    }

    method GetParam() returns (r: Access)
      requires 4 * |code| < 0x8000_0000
      modifies this`cip
      ensures r.Hit? <==> old(cip) % 4 == 0 && old(cip) / 4 < |code|
      ensures r.Hit? ==> r.value == code[old(cip) / 4] && cip == old(cip) + 4
    {
      if cip % 4 != 0 || cip / 4 >= |code| {
        return Miss;
      }
      r := Hit(code[cip / 4]);
      cip := cip + 4;
    }

    method PushCell(v: Cell) returns (r: Ending)
      modifies this`stk, this`data
      ensures Came(r, View()) == Pushed(old(View()), v)
    {
      stk := Wrap(stk - 4);
      r := Write(stk, v);
    }

    method PopCell() returns (r: Access)
      modifies this`stk
      ensures r.Hit? <==> Mapped(data, old(stk))
      ensures r.Hit? ==> r.value == Peek(data, old(stk)) && stk == Wrap(old(stk) + 4)
    {
      if !Mapped(data, stk) {
        return Miss;
      }
      r := Hit(data[stk / 4]);
      stk := Wrap(stk + 4);
    }

    /** The pointer that a relocated jump operand is, as an offset. */
    function JumpAbs(w: Cell): Cell {
      Wrap(w - base)
    }

    /** Pop the saved frame and the return address. */
    method PopReturn() returns (r: Ending)
      modifies this
      ensures Came(r, View()) == Popped(env, old(View()))
    {
      ghost var s := View();
      frm :- PopCell();
      var offs :- PopCell();
      StackTwice(s.stk);
      if offs >= env.codesize {
        return Ended(Abort(ERR_MEMACCESS));
      }
      cip := offs;
      r := Going;
    }

    method PushTimes(n: nat) returns (r: Ending)
      modifies this`stk, this`data
      ensures Came(r, View()) == PushedTimes(old(View()), pri, n)
    {
      ghost var s := View();
      var left := n;
      while left > 0
        invariant PushedTimes(s, pri, n) == PushedTimes(View(), pri, left)
        modifies this`stk, this`data
      {
        left := left - 1;
        :- PushCell(pri);
      }
      r := Going;
    }

    /** The callback: a native's result goes to `pri`, its error ends the loop. */
    method Native(index: Cell) returns (r: Ending)
      modifies this`pri, this`data, this`host
      ensures Came(r, View()) == CallNative(env, old(View()), index)
    {
      match env.call(index, View())
      case Crash =>
        r := Lost;
      case Reply(err, v, _, d, h) =>
        pri, data, host := v, d, h;
        r := Finish(err);
    }

    function Finish(err: Cell): Ending {
      if err == ERR_NONE then Going else if err == ERR_SLEEP then Ended(Asleep) else Ended(Abort(err))
    }


    predicate Guarded(a: Cell)
      reads this
    {
      Forbidden(env, View(), a)
    }


    /** LOAD, LOAD.S, LREF and LREF.S. */
    method Loads(op: Cell, ghost i: nat) returns (r: Ending)
      requires Fetched(op, i) && 1 <= op <= 8
      modifies this
      ensures Came(r, View()) == Expected(i, old(View()))
    {
      hide Wrap, Signed, Stored, Pushed, PushedTimes, Popped, CallNative, AddressingOp, StackOp, ArithmeticOp, CountingOp, SystemOp;
      InReach(i);
      r := Going;
      var offs :- GetParam();
      match op
      case 1 => // LOAD.pri
        pri :- Read(offs);
      case 2 => // LOAD.alt
        alt :- Read(offs);
      case 3 => // LOAD.S.pri
        offs := Wrap(frm + offs);
        pri :- Read(offs);
      case 4 => // LOAD.S.alt
        offs := Wrap(frm + offs);
        alt :- Read(offs);
      case 5 => // LREF.pri
        offs :- Read(offs);
        pri :- Read(offs);
      case 6 => // LREF.alt
        offs :- Read(offs);
        alt :- Read(offs);
      case 7 => // LREF.S.pri
        offs :- Read(Wrap(frm + offs));
        pri :- Read(offs);
      case _ => // LREF.S.alt
        offs :- Read(Wrap(frm + offs));
        alt :- Read(offs);
    }

    /** STOR, STOR.S, SREF and SREF.S. */
    method Stores(op: Cell, ghost i: nat) returns (r: Ending)
      requires Fetched(op, i) && 15 <= op <= 22
      modifies this
      ensures Came(r, View()) == Expected(i, old(View()))
    {
      hide Wrap, Signed, Pushed, PushedTimes, Popped, CallNative, AddressingOp, StackOp, ArithmeticOp, CountingOp, SystemOp;
      InReach(i);
      r := Going;
      var offs :- GetParam();
      match op
      case 15 => // STOR.pri
        r := Write(offs, pri);
      case 16 => // STOR.alt
        r := Write(offs, alt);
      case 17 => // STOR.S.pri
        offs := Wrap(frm + offs);
        r := Write(offs, pri);
      case 18 => // STOR.S.alt
        offs := Wrap(frm + offs);
        r := Write(offs, alt);
      case 19 => // SREF.pri
        offs :- Read(offs);
        r := Write(offs, pri);
      case 20 => // SREF.alt
        offs :- Read(offs);
        r := Write(offs, alt);
      case 21 => // SREF.S.pri
        offs :- Read(Wrap(frm + offs));
        r := Write(offs, pri);
      case _ => // SREF.S.alt
        offs :- Read(Wrap(frm + offs));
        r := Write(offs, alt);
    }

    /** Checked indirect access, and moves between the registers. */
    method Indirect(op: Cell, ghost i: nat) returns (r: Ending)
      requires Fetched(op, i) && (op == 9 || op == 23 || op == 25 || op == 27 || op == 33 || op == 34 || op == 35)
      modifies this
      ensures Came(r, View()) == Expected(i, old(View()))
    {
      hide Wrap, Signed, Stored, Pushed, PushedTimes, Popped, CallNative, StackOp, ArithmeticOp, CountingOp, SystemOp;
      InReach(i);
      r := Going;
      match op
      case 9 => // LOAD.I
        if Guarded(pri) {
          return Ended(Abort(ERR_MEMACCESS));
        }
        pri :- Read(pri);
      case 23 => // STOR.I
        if Guarded(alt) {
          return Ended(Abort(ERR_MEMACCESS));
        }
        r := Write(alt, pri);
      case 25 => // LIDX
        var offs := Wrap(4 * pri + alt);
        if Guarded(offs) {
          return Ended(Abort(ERR_MEMACCESS));
        }
        pri :- Read(offs);
      case 27 => // IDXADDR
        pri := Wrap(4 * pri + alt);
      case 33 => // MOVE.pri
        pri := alt;
      case 34 => // MOVE.alt
        alt := pri;
      case _ => // XCHG
        pri, alt := alt, pri;
    }

    /** Swaps, requests through a register and markers without operands. */
    method Plain(op: Cell, ghost i: nat) returns (r: Ending)
      requires Fetched(op, i) && (op == 131 || op == 132 || op == 122 || op == 128 || op == 134 || op == 137)
      modifies this
      ensures Came(r, View()) == Expected(i, old(View()))
    {
      hide Wrap, Signed, Pushed, PushedTimes, Popped, CallNative, AddressingOp, StackOp, ArithmeticOp, CountingOp;
      InReach(i);
      r := Going;
      match op
      case 131 => // SWAP.pri
        var offs :- Read(stk);
        r := Write(stk, pri);
        pri := offs;
      case 132 => // SWAP.alt
        var offs :- Read(stk);
        r := Write(stk, alt);
        alt := offs;
      case 122 => // SYSREQ.pri
        r := Native(pri);
      case 128 => // JUMP.pri
        cip := pri;
      case 134 => // NOP
      case _ => // BREAK, with no debugger attached
    }

    /** Constants, frame addresses and control registers. */
    method Constants(op: Cell, ghost i: nat) returns (r: Ending)
      requires Fetched(op, i) && (op == 11 || op == 12 || op == 13 || op == 14 || op == 31 || op == 32)
      modifies this
      ensures Came(r, View()) == Expected(i, old(View()))
    {
      hide Wrap, Signed, Stored, Pushed, PushedTimes, Popped, CallNative, StackOp, ArithmeticOp, CountingOp, SystemOp;
      InReach(i);
      r := Going;
      var offs :- GetParam();
      match op
      case 11 => // CONST.pri
        pri := offs;
      case 12 => // CONST.alt
        alt := offs;
      case 13 => // ADDR.pri
        pri := Wrap(offs + frm);
      case 14 => // ADDR.alt
        alt := Wrap(offs + frm);
      case 31 => // LCTRL
        match offs {
        case 0 => pri := env.cod;
        case 1 => pri := env.dat;
        case 2 => pri := hea;
        case 3 => pri := env.stp;
        case 4 => pri := stk;
        case 5 => pri := frm;
        case 6 => pri := cip;
        case _ =>
        }
      case _ => // SCTRL
        match offs {
        case 2 => hea := pri;
        case 4 => stk := pri;
        case 5 => frm := pri;
        case 6 => cip := pri;
        case _ =>
        }
    }

    /** Pushing, popping, and entering and leaving functions. */
    method Frames(op: Cell, ghost i: nat) returns (r: Ending)
      requires Fetched(op, i) && (op == 36 || op == 37 || op == 42 || op == 43 || op == 46 || op == 47 || op == 48 || op == 50)
      modifies this
      ensures Came(r, View()) == Expected(i, old(View()))
    {
      hide Wrap, Signed, Stored, Pushed, PushedTimes, Popped, CallNative, AddressingOp, ArithmeticOp, CountingOp, SystemOp;
      InReach(i);
      r := Going;
      match op
      case 36 => // PUSH.pri
        r := PushCell(pri);
      case 37 => // PUSH.alt
        r := PushCell(alt);
      case 42 => // POP.pri
        pri :- PopCell();
      case 43 => // POP.alt
        alt :- PopCell();
      case 46 => // PROC
        :- PushCell(frm);
        frm := stk;
        if Collides(View()) {
          return Ended(Unsafe(ERR_STACKERR));
        }
      case 47 => // RET
        r := PopReturn();
      case 48 => // RETN
        :- PopReturn();
        var bytes :- Read(stk);
        stk := Wrap(stk + bytes + 4);
      case _ => // CALL.pri
        :- PushCell(cip);
        cip := pri;
    }

    /** Pushing operands, and plain jumps. */
    method Pushes(op: Cell, ghost i: nat) returns (r: Ending)
      requires Fetched(op, i) && (op == 38 || op == 39 || op == 40 || op == 41 || op == 49 || op == 51 || op == 52)
      modifies this
      ensures Came(r, View()) == Expected(i, old(View()))
    {
      hide Wrap, Signed, Stored, Pushed, PushedTimes, Popped, CallNative, AddressingOp, ArithmeticOp, CountingOp, SystemOp;
      InReach(i);
      r := Going;
      var offs :- GetParam();
      match op
      case 38 => // PUSH.R
        r := PushTimes(offs);
      case 39 => // PUSH.C
        r := PushCell(offs);
      case 40 => // PUSH
        offs :- Read(offs);
        r := PushCell(offs);
      case 41 => // PUSH.S
        offs :- Read(Wrap(frm + offs));
        r := PushCell(offs);
      case 49 => // CALL
        :- PushCell(cip);
        cip := JumpAbs(offs);
      case 51 => // JUMP
        cip := JumpAbs(offs);
      case _ => // JREL
        cip := Wrap(cip + offs);
    }

    /** Moving the stack and heap pointers. */
    method Margins(op: Cell, ghost i: nat) returns (r: Ending)
      requires Fetched(op, i) && (op == 44 || op == 45)
      modifies this
      ensures Came(r, View()) == Expected(i, old(View()))
    {
      hide Wrap, Signed, Stored, Pushed, PushedTimes, Popped, CallNative, AddressingOp, ArithmeticOp, CountingOp, SystemOp;
      InReach(i);
      r := Going;
      var offs :- GetParam();
      match op
      case 44 => // STACK
        alt := stk;
        stk := Wrap(stk + offs);
        if Collides(View()) {
          return Ended(Unsafe(ERR_STACKERR));
        }
        if Signed(stk) > Signed(env.stp) {
          return Ended(Unsafe(ERR_STACKLOW));
        }
      case _ => // HEAP
        alt := hea;
        hea := Wrap(hea + offs);
        if Collides(View()) {
          return Ended(Unsafe(ERR_STACKERR));
        }
        if Signed(hea) < Signed(env.hlw) {
          return Ended(Unsafe(ERR_HEAPLOW));
        }
    }

    /** Conditional jumps. */
    method Branches(op: Cell, ghost i: nat) returns (r: Ending)
      requires Fetched(op, i) && 53 <= op <= 58
      modifies this
      ensures Came(r, View()) == Expected(i, old(View()))
    {
      hide Wrap, Signed, Stored, Pushed, PushedTimes, Popped, CallNative, AddressingOp, ArithmeticOp, CountingOp, SystemOp;
      InReach(i);
      r := Going;
      var offs :- GetParam();
      match op
      case 53 => // JZER
        cip := if pri == 0 then JumpAbs(offs) else cip;
      case 54 => // JNZ
        cip := if pri != 0 then JumpAbs(offs) else cip;
      case 55 => // JEQ
        cip := if pri == alt then JumpAbs(offs) else cip;
      case 56 => // JNEQ
        cip := if pri != alt then JumpAbs(offs) else cip;
      case 57 => // JLESS
        cip := if pri < alt then JumpAbs(offs) else cip;
      case _ => // JLEQ
        cip := if pri <= alt then JumpAbs(offs) else cip;
    }

    /** Conditional jumps on the signed and the reverse orders. */
    method Orderings(op: Cell, ghost i: nat) returns (r: Ending)
      requires Fetched(op, i) && 59 <= op <= 64
      modifies this
      ensures Came(r, View()) == Expected(i, old(View()))
    {
      hide Wrap, Signed, Stored, Pushed, PushedTimes, Popped, CallNative, AddressingOp, ArithmeticOp, CountingOp, SystemOp;
      InReach(i);
      r := Going;
      var offs :- GetParam();
      match op
      case 59 => // JGRTR
        cip := if pri > alt then JumpAbs(offs) else cip;
      case 60 => // JGEQ
        cip := if pri >= alt then JumpAbs(offs) else cip;
      case 61 => // JSLESS
        cip := if Signed(pri) < Signed(alt) then JumpAbs(offs) else cip;
      case 62 => // JSLEQ
        cip := if Signed(pri) <= Signed(alt) then JumpAbs(offs) else cip;
      case 63 => // JSGRTR
        cip := if Signed(pri) > Signed(alt) then JumpAbs(offs) else cip;
      case _ => // JSGEQ
        cip := if Signed(pri) >= Signed(alt) then JumpAbs(offs) else cip;
    }

    /** Comparisons of the two registers. */
    method Comparisons(op: Cell, ghost i: nat) returns (r: Ending)
      requires Fetched(op, i) && 95 <= op <= 104
      modifies this
      ensures Came(r, View()) == Expected(i, old(View()))
    {
      hide Wrap, Signed, Stored, Pushed, PushedTimes, Popped, CallNative, AddressingOp, StackOp, ArithmeticOp, CountingOp, SystemOp;
      InReach(i);
      r := Going;
      match op
      case 95 => // EQ
        pri := if pri == alt then 1 else 0;
      case 96 => // NEQ
        pri := if pri != alt then 1 else 0;
      case 97 => // LESS
        pri := if pri < alt then 1 else 0;
      case 98 => // LEQ
        pri := if pri <= alt then 1 else 0;
      case 99 => // GRTR
        pri := if pri > alt then 1 else 0;
      case 100 => // GEQ
        pri := if pri >= alt then 1 else 0;
      case 101 => // SLESS
        pri := if Signed(pri) < Signed(alt) then 1 else 0;
      case 102 => // SLEQ
        pri := if Signed(pri) <= Signed(alt) then 1 else 0;
      case 103 => // SGRTR
        pri := if Signed(pri) > Signed(alt) then 1 else 0;
      case _ => // SGEQ
        pri := if Signed(pri) >= Signed(alt) then 1 else 0;
    }

    /** Sums of the two registers. */
    method Sums(op: Cell, ghost i: nat) returns (r: Ending)
      requires Fetched(op, i) && (op == 78 || op == 79 || op == 80 || op == 84 || op == 85 || op == 89 || op == 90)
      modifies this
      ensures Came(r, View()) == Expected(i, old(View()))
    {
      hide Wrap, Signed, Stored, Pushed, PushedTimes, Popped, CallNative, AddressingOp, StackOp, CountingOp, SystemOp;
      InReach(i);
      r := Going;
      match op
      case 78 => // ADD
        pri := Wrap(pri + alt);
      case 79 => // SUB
        pri := Wrap(pri - alt);
      case 80 => // SUB.ALT
        pri := Wrap(alt - pri);
      case 84 => // NOT
        pri := if pri == 0 then 1 else 0;
      case 85 => // NEG
        pri := Wrap(-(pri as int));
      case 89 => // ZERO.pri
        pri := 0;
      case _ => // ZERO.alt
        alt := 0;
    }

    /** Increments and decrements without operands. */
    method Counts(op: Cell, ghost i: nat) returns (r: Ending)
      requires Fetched(op, i) && (op == 107 || op == 108 || op == 111 || op == 112 || op == 113 || op == 116)
      modifies this
      ensures Came(r, View()) == Expected(i, old(View()))
    {
      hide Wrap, Signed, Stored, Pushed, PushedTimes, Popped, CallNative, AddressingOp, StackOp, ArithmeticOp, SystemOp;
      InReach(i);
      r := Going;
      match op
      case 107 => // INC.pri
        pri := Wrap(pri + 1);
      case 108 => // INC.alt
        alt := Wrap(alt + 1);
      case 111 => // INC.I
        var v: int :- Read(pri);
        r := Write(pri, Wrap(v + 1));
      case 112 => // DEC.pri
        pri := Wrap(pri - 1);
      case 113 => // DEC.alt
        alt := Wrap(alt - 1);
      case _ => // DEC.I
        var v: int :- Read(pri);
        r := Write(pri, Wrap(v - 1));
    }

    /** Counting in memory, and comparison with a constant. */
    method CountsAt(op: Cell, ghost i: nat) returns (r: Ending)
      requires Fetched(op, i) && (op == 105 || op == 106 || op == 109 || op == 110 || op == 114 || op == 115)
      modifies this
      ensures Came(r, View()) == Expected(i, old(View()))
    {
      hide Wrap, Signed, Stored, Pushed, PushedTimes, Popped, CallNative, AddressingOp, StackOp, ArithmeticOp, SystemOp;
      InReach(i);
      r := Going;
      var offs :- GetParam();
      match op
      case 105 => // EQ.C.pri
        pri := if pri == offs then 1 else 0;
      case 106 => // EQ.C.alt
        pri := if alt == offs then 1 else 0;
      case 109 => // INC
        var v: int :- Read(offs);
        r := Write(offs, Wrap(v + 1));
      case 110 => // INC.S
        offs := Wrap(frm + offs);
        var v: int :- Read(offs);
        r := Write(offs, Wrap(v + 1));
      case 114 => // DEC
        var v: int :- Read(offs);
        r := Write(offs, Wrap(v - 1));
      case _ => // DEC.S
        offs := Wrap(frm + offs);
        var v: int :- Read(offs);
        r := Write(offs, Wrap(v - 1));
    }

    /** A constant added, and memory cleared. */
    method SumsAt(op: Cell, ghost i: nat) returns (r: Ending)
      requires Fetched(op, i) && (op == 87 || op == 91 || op == 92)
      modifies this
      ensures Came(r, View()) == Expected(i, old(View()))
    {
      hide Wrap, Signed, Stored, Pushed, PushedTimes, Popped, CallNative, AddressingOp, StackOp, CountingOp, SystemOp;
      InReach(i);
      r := Going;
      var offs :- GetParam();
      match op
      case 87 => // ADD.C
        pri := Wrap(pri + offs);
      case 91 => // ZERO
        r := Write(offs, 0);
      case _ => // ZERO.S
        r := Write(Wrap(frm + offs), 0);
    }

    /** Halting, bounds, system requests and symbols. */
    method System(op: Cell, ghost i: nat) returns (r: Ending)
      requires Fetched(op, i) && (op == 120 || op == 121 || op == 123 || op == 126 || op == 133)
      modifies this
      ensures Came(r, View()) == Expected(i, old(View()))
    {
      hide Wrap, Signed, Stored, Pushed, PushedTimes, Popped, CallNative, AddressingOp, StackOp, ArithmeticOp, CountingOp;
      InReach(i);
      r := Going;
      var offs :- GetParam();
      match op
      case 120 => // HALT
        r := Ended(if offs == ERR_SLEEP then Asleep else Abort(offs));
      case 121 => // BOUNDS
        if pri > offs {
          return Ended(Abort(ERR_BOUNDS));
        }
      case 123 => // SYSREQ.C
        r := Native(offs);
      case 126 => // SYMBOL
        cip := Wrap(cip + offs);
      case _ => // PUSHADDR
        r := PushCell(Wrap(frm + offs));
    }

    /** Instructions whose arithmetic is left to the surroundings. */
    method Others(op: Cell, ghost i: nat) returns (r: Ending)
      requires Fetched(op, i) && IsOther(op)
      modifies this
      ensures Came(r, View()) == Expected(i, old(View()))
    {
      hide OpOf, Wrap, Signed, ExecuteMemory;
      InReach(i);
      var kind := OpOf(op).special;
      var offs := 0;
      if kind.constant {
        offs :- GetParam();
      }
      match env.other(kind.code, offs, View())
      case Crash =>
        r := Lost;
      case Reply(err, p, a, d, h) =>
        pri, alt, data, host := p, a, d, h;
        r := Finish(err);
    }

    /** The float opcodes, on the arguments left for a native. */
    method Floats(op: Cell, ghost i: nat) returns (r: Ending)
      requires Fetched(op, i) && 138 <= op <= 144
      modifies this
      ensures Came(r, View()) == Expected(i, old(View()))
    {
      hide Wrap, Signed, AddressingOp, StackOp, ArithmeticOp, CountingOp, SystemOp;
      InReach(i);
      var u := env.unit;
      var offs :- Read(Wrap(stk + 4));
      if op == 142 {
        pri := u.to(offs); // FLOAT
        return Going;
      }
      var offs2 :- Read(Wrap(stk + 8));
      r := Going;
      match op
      case 138 => pri := u.mul(offs, offs2); // FLOAT.MUL
      case 139 => pri := u.div(offs, offs2); // FLOAT.DIV
      case 140 => pri := u.add(offs, offs2); // FLOAT.ADD
      case 141 => pri := u.sub(offs, offs2); // FLOAT.SUB
      case 143 => // FLOAT.ROUND
        pri := if offs2 == 0 then u.nearest(offs) else if offs2 == 1 then u.floor(offs) else u.ceil(offs);
      case _ => // FLOAT.CMP
        pri := if u.equal(offs, offs2) then 0 else if u.greater(offs, offs2) then 1 else 0xffff_ffff;
    }

    /** Walk the case table at `t` until a value matches. */
    method FindCase(t: Cell) returns (r: Access)
      ensures match TableAt(code, Absolute(base), t)
              case None => r == Miss
              case Some(table) => table.Table? && r == Hit(Lookup(table.fallback, table.cases, pri))
    {
      hide Wrap, Signed;
      var cptr: int := t / 4 + 1; // skip the CASETBL opcode
      if t % 4 != 0 || cptr + 1 >= |code| || Signed(code[cptr]) < 0 || cptr + 2 + 2 * (code[cptr] as int) > |code| {
        return Miss;
      }
      var num: int := code[cptr];
      ghost var table := TableAt(code, Absolute(base), t).value;
      var to := JumpAbs(code[cptr + 1]);
      cptr := cptr + 2;
      ghost var k := 0;
      while num > 0 && code[cptr] != pri
        invariant 0 <= k <= |table.cases| && num == |table.cases| - k && cptr == t / 4 + 3 + 2 * k
        invariant Lookup(table.fallback, table.cases, pri) == Lookup(table.fallback, table.cases[k..], pri)
      {
        num, cptr, k := num - 1, cptr + 2, k + 1;
      }
      if num > 0 {
        to := JumpAbs(code[cptr + 1]);
      }
      r := Hit(to);
    }

    /** SWITCH. */
    method Switches(op: Cell, ghost i: nat) returns (r: Ending)
      requires Fetched(op, i) && op == 129
      modifies this
      ensures Came(r, View()) == Expected(i, old(View()))
    {
      hide AddressingOp, StackOp, ArithmeticOp, CountingOp, Wrap, Signed, Lookup, TableAt;
      InReach(i);
      var offs :- GetParam();
      cip :- FindCase(JumpAbs(offs));
      r := Going;
    }

    /** Markers that only skip their operands. */
    method Markers(op: Cell, ghost i: nat) returns (r: Ending)
      requires Fetched(op, i) && (op == 125 || op == 127 || op == 136)
      modifies this
      ensures Came(r, View()) == Expected(i, old(View()))
    {
      hide AddressingOp, StackOp, ArithmeticOp, CountingOp, Wrap;
      InReach(i);
      cip := cip + if op == 136 then 4 else 8;
      r := Going;
    }

    /** FILE and CASETBL are not meant to run; other numbers are no opcodes. */
    method Illegal(op: Cell, ghost i: nat) returns (r: Ending)
      requires Fetched(op, i) && (OpOf(op) == Special(Invalid) || OpOf(op) == Special(CaseTable))
      modifies this
      ensures Came(r, View()) == Expected(i, old(View()))
    {
      hide OpOf, Wrap, Signed;
      InReach(i);
      r := Ended(Abort(ERR_INVINSTR));
    }

    // -------------------------------------------------------------- the loop

    /** One turn: fetch an opcode and act on it. */
    method Turn() returns (r: Ending)
      requires 4 * |code| < 0x8000_0000
      modifies this
      ensures Came(r, View()) == Step(code, Absolute(base), env, old(View()))
    {
      hide Instruction, OpOf;
      ghost var s := View();
      ghost var i := cip / 4;
      var op :- GetParam();
      CipFree(code, Absolute(base), env, i, s, cip);
      if 1 <= op <= 8 {
        r := Loads(op, i);
      } else if 15 <= op <= 22 {
        r := Stores(op, i);
      } else if op == 9 || op == 23 || op == 25 || op == 27 || op == 33 || op == 34 || op == 35 {
        r := Indirect(op, i);
      } else if op == 131 || op == 132 || op == 122 || op == 128 || op == 134 || op == 137 {
        r := Plain(op, i);
      } else if op == 11 || op == 12 || op == 13 || op == 14 || op == 31 || op == 32 {
        r := Constants(op, i);
      } else if op == 36 || op == 37 || op == 42 || op == 43 || op == 46 || op == 47 || op == 48 || op == 50 {
        r := Frames(op, i);
      } else if op == 38 || op == 39 || op == 40 || op == 41 || op == 49 || op == 51 || op == 52 {
        r := Pushes(op, i);
      } else if op == 44 || op == 45 {
        r := Margins(op, i);
      } else if 53 <= op <= 58 {
        r := Branches(op, i);
      } else if 59 <= op <= 64 {
        r := Orderings(op, i);
      } else if 95 <= op <= 104 {
        r := Comparisons(op, i);
      } else if op == 78 || op == 79 || op == 80 || op == 84 || op == 85 || op == 89 || op == 90 {
        r := Sums(op, i);
      } else if op == 107 || op == 108 || op == 111 || op == 112 || op == 113 || op == 116 {
        r := Counts(op, i);
      } else if op == 105 || op == 106 || op == 109 || op == 110 || op == 114 || op == 115 {
        r := CountsAt(op, i);
      } else if op == 87 || op == 91 || op == 92 {
        r := SumsAt(op, i);
      } else if op == 120 || op == 121 || op == 123 || op == 126 || op == 133 {
        r := System(op, i);
      } else if op == 129 {
        r := Switches(op, i);
      } else if 138 <= op <= 144 {
        r := Floats(op, i);
      } else if op == 125 || op == 127 || op == 136 {
        r := Markers(op, i);
      } else if IsOther(op) {
        r := Others(op, i);
      } else {
        Remaining(op);
        r := Illegal(op, i);
      }
    }

    /** The loop, for at most the given number of turns. */
    method Exec(turns: nat) returns (r: Ending)
      requires 4 * |code| < 0x8000_0000
      modifies this
      ensures Came(r, View()) == Run(code, Absolute(base), env, turns, old(View()))
    {
      hide Step;
      ghost var s := View();
      var left := turns;
      while left > 0
        invariant Run(code, Absolute(base), env, turns, s) == Run(code, Absolute(base), env, left, View())
        modifies this
      {
        left := left - 1;
        :- Turn();
      }
      r := Going;
    }
  }

  lemma InReach(i: nat)
    requires i < 0x2000_0000
    ensures Wrap(4 * i + 4) == 4 * i + 4 && Wrap(4 * i + 8) == 4 * i + 8 && Wrap(4 * i + 12) == 4 * i + 12
  {
  }

  lemma StackTwice(stk: Cell)
    ensures Wrap(Wrap(stk + 4) + 4) == Wrap(stk + 8)
  {
  }

  predicate IsOther(op: Cell) {
    OpOf(op).Special? && OpOf(op).special.Other?
  }

  /** The opcodes the families of turns take. */
  predicate Dispatched(op: Cell) {
    || 1 <= op <= 8
    || 15 <= op <= 22
    || (op == 9 || op == 23 || op == 25 || op == 27 || op == 33 || op == 34 || op == 35)
    || (op == 131 || op == 132 || op == 122 || op == 128 || op == 134 || op == 137)
    || (op == 11 || op == 12 || op == 13 || op == 14 || op == 31 || op == 32)
    || (op == 36 || op == 37 || op == 42 || op == 43 || op == 46 || op == 47 || op == 48 || op == 50)
    || (op == 38 || op == 39 || op == 40 || op == 41 || op == 49 || op == 51 || op == 52)
    || (op == 44 || op == 45)
    || 53 <= op <= 58
    || 59 <= op <= 64
    || 95 <= op <= 104
    || (op == 78 || op == 79 || op == 80 || op == 84 || op == 85 || op == 89 || op == 90)
    || (op == 107 || op == 108 || op == 111 || op == 112 || op == 113 || op == 116)
    || (op == 105 || op == 106 || op == 109 || op == 110 || op == 114 || op == 115)
    || (op == 87 || op == 91 || op == 92)
    || (op == 120 || op == 121 || op == 123 || op == 126 || op == 133)
    || op == 129
    || 138 <= op <= 144
    || (op == 125 || op == 127 || op == 136)
  }

  lemma Remaining(op: Cell)
    requires !Dispatched(op) && !IsOther(op)
    ensures OpOf(op) == Special(Invalid) || OpOf(op) == Special(CaseTable)
  {
  }

  /** An instruction does not depend on where `cip` was when it was fetched. */
  lemma CipFree(code: seq<Cell>, mode: Jumps, env: Env, i: nat, s: State, cip: Cell)
    requires i < |code|
    ensures Instruction(code, mode, env, i, s) == Instruction(code, mode, env, i, s.(cip := cip))
  {
    hide OpOf, NeedOf, ArgAt, Execute, Width;
  }
}
