/** A whole call of a public function by the host: entered over its parameters, it runs,
    returns to the HALT at the start of the code, and everything is where it was. */
module AmxPublic {
  import opened AmxOpcodes
  import opened AmxMachine
  import opened AmxExec
  import opened AmxHost
  import opened AmxCalls

  /** The machine in which a public function starts. */
  function Start(stk: Cell, hea: Cell, entry: Cell, count: nat, data: Data, host: nat): State
    requires Entered(stk, hea, entry, count, data, host).Next?
  {
    Entered(stk, hea, entry, count, data, host).state
  }

  /** It has the return address 0 on top of its stack, and the byte count under it. */
  lemma StartState(stk: Cell, hea: Cell, entry: Cell, count: nat, data: Data, host: nat)
    requires Entered(stk, hea, entry, count, data, host).Next?
    requires 4 * |data| < 0x8000_0000 && hea < 0x7fff_0000 && stk + 4 * count < 4 * |data|
    ensures var s := Start(stk, hea, entry, count, data, host);
            && s.stk == stk - 8 && s.cip == entry && s.hea == hea && |s.data| == |data|
            && Mapped(s.data, s.stk) && Peek(s.data, s.stk) == 0 && Word(s, Wrap(s.stk + 4)) == 4 * count
            && Linked(s, [])
  {
    hide Poke, Peek;
    assert stk >= 8;
  }

  /** One turn after a run that goes on. */
  lemma {:induction false} RunLast(code: seq<Cell>, mode: Jumps, env: Env, n: nat, s: State)
    requires Run(code, mode, env, n, s).Next?
    ensures Run(code, mode, env, n + 1, s) == Step(code, mode, env, Run(code, mode, env, n, s).state)
    decreases n
  {
    hide Step;
    if n > 0 {
      RunLast(code, mode, env, n - 1, Step(code, mode, env, s).state);
    } else {
      assert Run(code, mode, env, 1, s) == Step(code, mode, env, s) by {
        match Step(code, mode, env, s)
        case Next(t) => assert Run(code, mode, env, 0, t) == Next(t);
        case _ =>
      }
    }
  }

  lemma HaltStep(code: seq<Cell>, mode: Jumps, env: Env, t: State)
    requires t.cip == 0 && |code| > 1 && OpOf(code[0]) == Special(Halt) && code[1] != ERR_SLEEP
    ensures Step(code, mode, env, t) == Halted(Abort(code[1]), t.(cip := 8))
  {
    hide OpOf;
  }

  /** A public function with a balanced body that the host calls, over a HALT at offset 0.
      It comes back there after `n + 1` turns with all its parameters popped, by itself;
      the HALT ends the call with the function's value; and the host finds stack and heap
      as they were before the parameters were pushed. */
  method CallPublic(h: Host, entry: Cell, ghost n: nat, turns: nat) returns (r: Ending, pri: Cell)
    requires h.Valid() && Entered(h.stk, h.hea, entry, h.paramcount, h.data, h.host).Next?
    requires |h.code| > 1 && OpOf(h.code[0]) == Special(Halt) && h.code[1] != ERR_SLEEP
    requires var s := Start(h.stk, h.hea, entry, h.paramcount, h.data, h.host);
             && InCode(h.code, s) && OpAt(h.code, s) == Stacking(Proc)
             && BalancedRun(h.code, Absolute(h.base), h.env, n + 1, s, [])
             && var t := After(h.code, Absolute(h.base), h.env, s);
                && Deeper(h.code, Absolute(h.base), h.env, n, t, [NewFrame(s)], 0)
                && FramesAfter(h.code, Absolute(h.base), h.env, n, t, [NewFrame(s)]) == []
    requires turns == n + 2
    modifies h
    ensures var o := old(Run(h.code, Absolute(h.base), h.env, n + 1,
                             Start(h.stk, h.hea, entry, h.paramcount, h.data, h.host)));
            && o.Next? && o.state.cip == 0 && o.state.frm == 0 && o.state.stk == old(h.Level())
            && r == Ended(Abort(h.code[1])) && pri == o.state.pri && h.data == o.state.data && h.host == o.state.host
    ensures h.stk == old(h.Level()) && h.hea == old(h.hea) && h.paramcount == 0
  {
    hide Run, Step, Linked, OpAt, BalancedRun, Deeper, FramesAfter, Entered, OpOf, InCode;
    ghost var s := Start(h.stk, h.hea, entry, h.paramcount, h.data, h.host);
    StartState(h.stk, h.hea, entry, h.paramcount, h.data, h.host);
    FrameZero(h.stk, h.hea, entry, h.paramcount, h.data, h.host);
    EntryReturns(h.code, Absolute(h.base), h.env, n, s);
    RunLast(h.code, Absolute(h.base), h.env, n + 1, s);
    HaltStep(h.code, Absolute(h.base), h.env, Run(h.code, Absolute(h.base), h.env, n + 1, s).state);
    r, pri := h.Exec(entry, turns);
  }

  lemma FrameZero(stk: Cell, hea: Cell, entry: Cell, count: nat, data: Data, host: nat)
    requires Entered(stk, hea, entry, count, data, host).Next?
    ensures Start(stk, hea, entry, count, data, host).frm == 0
  {
  }

  // --------------------------------------------------------------- an example

  /** HALT 0; then, at offset 8, PROC; RETN. */
  const EXAMPLE: seq<Cell> := [120, 0, 46, 48]

  function Zeros(): Data {
    seq(64, _ => 0)
  }

  function First(host: nat): State {
    State(0, 0, 0, 192, 0, 8, Zeros(), host)
  }

  function Second(host: nat): State {
    First(host).(cip := 12, stk := 188, frm := 188)
  }

  function Third(host: nat): State {
    First(host).(cip := 0, stk := 200)
  }

  lemma ZerosSize()
    ensures |Zeros()| == 64
  {
  }

  lemma Ops()
    ensures OpOf(120) == Special(Halt) && OpOf(46) == Stacking(Proc) && OpOf(48) == Stacking(ReturnPop)
  {
  }

  lemma Starts(host: nat)
    ensures Entered(200, 0, 8, 0, Zeros(), host) == Next(First(host))
  {
    assert Zeros()[49 := 0] == Zeros() && Zeros()[48 := 0] == Zeros();
  }

  lemma Turn1(base: Cell, env: Env, host: nat)
    ensures Step(EXAMPLE, Absolute(base), env, First(host)) == Next(Second(host))
  {
    Ops();
    hide OpOf;
    assert Zeros()[47 := 0] == Zeros();
  }

  lemma Turn2(base: Cell, env: Env, host: nat)
    requires env.codesize == 16
    ensures Step(EXAMPLE, Absolute(base), env, Second(host)) == Next(Third(host))
  {
    Ops();
    hide OpOf;
  }

  /** What the theorem asks of the function holds of this one. */
  lemma ExampleBalanced(base: Cell, env: Env, host: nat)
    requires env.codesize == 16
    ensures var s := First(host);
            && InCode(EXAMPLE, s) && OpAt(EXAMPLE, s) == Stacking(Proc)
            && BalancedRun(EXAMPLE, Absolute(base), env, 2, s, [])
            && var t := After(EXAMPLE, Absolute(base), env, s);
               && Deeper(EXAMPLE, Absolute(base), env, 1, t, [NewFrame(s)], 0)
               && FramesAfter(EXAMPLE, Absolute(base), env, 1, t, [NewFrame(s)]) == []
  {
    hide Step, OpOf, Balanced, NewFrame, Track, Zeros, OpAt, First, Second, Third;
    Turn1(base, env, host);
    Turn2(base, env, host);
    FirstTurn(base, env, host);
    SecondTurn(base, env, host);
    var s, t, f := First(host), Second(host), Frame(188, 0, 0, 0);
    assert BalancedRun(EXAMPLE, Absolute(base), env, 0, Third(host), []);
    assert BalancedRun(EXAMPLE, Absolute(base), env, 1, t, [f]);
    assert FramesAfter(EXAMPLE, Absolute(base), env, 0, Third(host), []) == [];
    assert Deeper(EXAMPLE, Absolute(base), env, 0, Third(host), [], 0);
  }

  lemma FirstTurn(base: Cell, env: Env, host: nat)
    ensures var s := First(host);
            && InCode(EXAMPLE, s) && OpAt(EXAMPLE, s) == Stacking(Proc) && NewFrame(s) == Frame(188, 0, 0, 0)
            && Track(EXAMPLE, s, []) == [Frame(188, 0, 0, 0)] && Balanced(EXAMPLE, Absolute(base), env, s, [])
  {
    Ops();
    hide Step, OpOf;
  }

  lemma SecondTurn(base: Cell, env: Env, host: nat)
    ensures var t, f := Second(host), Frame(188, 0, 0, 0);
            InCode(EXAMPLE, t) && Track(EXAMPLE, t, [f]) == [] && Balanced(EXAMPLE, Absolute(base), env, t, [f])
  {
    Ops();
    hide Step, OpOf;
  }

  /** A host that calls a public function without a body. */
  method ExamplePublic(base: Cell, env: Env) returns (h: Host, r: Ending)
    requires env.codesize == 16 && env.hlw == 0 && env.stp == 200
    ensures r == Ended(Abort(ERR_NONE)) && h.stk == 200 && h.hea == 0
  {
    hide Step, OpOf, OpAt, Entered, Run, BalancedRun, Deeper, FramesAfter, InCode, After, NewFrame, Zeros, First;
    ZerosSize();
    h := new Host(EXAMPLE, base, env, Zeros(), 0);
    Ops();
    Starts(0);
    ExampleBalanced(base, env, 0);
    var pri;
    r, pri := CallPublic(h, 8, 1, 3);
  }
}
