/** Calls nest: whatever a function calls, its return finds the caller's place, frame
    and stack again. */
module AmxCalls {
  import opened Wrappers
  import opened AmxOpcodes
  import opened AmxMachine

  /** The linkage of an active function: the word its frame pointer is at holds the
      caller's frame pointer, and above it lie the return address and the byte count
      of the arguments. */
  datatype Frame = Frame(at: int, saved: Cell, to: Cell, bytes: Cell)

  predicate Intact(data: Data, f: Frame) {
    && 0 <= f.at && f.at + 8 < 0x8000_0000
    && Mapped(data, f.at) && Mapped(data, f.at + 4) && Mapped(data, f.at + 8)
    && Peek(data, f.at) == f.saved && Peek(data, f.at + 4) == f.to && Peek(data, f.at + 8) == f.bytes
  }

  /** Each frame lies, with its arguments, under its caller's, and the registers name
      the innermost one. */
  predicate Linked(s: State, frames: seq<Frame>) {
    && 4 * |s.data| < 0x8000_0000
    && (frames != [] ==> s.frm == frames[|frames| - 1].at && s.stk <= frames[|frames| - 1].at)
    && (forall k | 0 <= k < |frames| :: Intact(s.data, frames[k]))
    && (forall k | 0 < k < |frames| :: frames[k].saved == frames[k - 1].at)
    && (forall k | 0 < k < |frames| :: frames[k].at + 12 + frames[k].bytes <= frames[k - 1].at)
    && (forall j, k | 0 <= j < k < |frames| :: frames[k].at + 12 <= frames[j].at)
  }

  predicate InCode(code: seq<Cell>, s: State) {
    s.cip % 4 == 0 && s.cip / 4 < |code|
  }

  function OpAt(code: seq<Cell>, s: State): Op
    requires InCode(code, s)
  {
    OpOf(code[s.cip / 4])
  }

  function Word(s: State, a: Cell): Cell {
    if Mapped(s.data, a) then Peek(s.data, a) else 0
  }

  /** The frame that PROC is about to make. */
  function NewFrame(s: State): Frame {
    Frame(s.stk - 4, s.frm, Word(s, s.stk), Word(s, Wrap(s.stk + 4)))
  }

  /** The state after a turn that goes on. */
  function After(code: seq<Cell>, mode: Jumps, env: Env, s: State): State {
    var o := Step(code, mode, env, s);
    if o.Next? then o.state else s
  }

  /** The active frames after the next turn. */
  function Track(code: seq<Cell>, s: State, frames: seq<Frame>): seq<Frame>
    requires InCode(code, s)
  {
    if OpAt(code, s) == Stacking(Proc) then frames + [NewFrame(s)]
    else if OpAt(code, s) == Stacking(ReturnPop) && frames != [] then frames[..|frames| - 1]
    else frames
  }

  /** What a body owes its callers: a function is entered with its arguments, byte count
      and return address under the caller's frame; it leaves with the stack back at its
      frame; and nothing else moves the frame pointer, lifts the stack over the frame or
      writes to the linkage of an active function. */
  ghost predicate Balanced(code: seq<Cell>, mode: Jumps, env: Env, s: State, frames: seq<Frame>)
    requires InCode(code, s)
  {
    match OpAt(code, s)
    case Stacking(Proc) =>
      && Mapped(s.data, s.stk) && Mapped(s.data, Wrap(s.stk + 4))
      && (frames != [] ==> s.stk + 8 + Word(s, Wrap(s.stk + 4)) <= frames[|frames| - 1].at)
    case Stacking(ReturnPop) => frames != [] && s.stk == s.frm
    case Stacking(Return) => false
    case _ =>
      var o := Step(code, mode, env, s);
      o.Next? ==>
        && o.state.frm == s.frm && |o.state.data| == |s.data|
        && (frames != [] ==> o.state.stk <= frames[|frames| - 1].at)
        && forall k | 0 <= k < |frames| :: Intact(o.state.data, frames[k])
  }

  // --------------------------------------------------------------- one turn

  lemma ProcStep(code: seq<Cell>, mode: Jumps, env: Env, s: State)
    requires InCode(code, s) && OpAt(code, s) == Stacking(Proc)
    requires Step(code, mode, env, s).Next?
    ensures Mapped(s.data, Wrap(s.stk - 4))
    ensures After(code, mode, env, s) ==
            s.(cip := Wrap(s.cip + 4), stk := Wrap(s.stk - 4), frm := Wrap(s.stk - 4),
               data := Poke(s.data, Wrap(s.stk - 4), s.frm))
  {
    hide OpOf;
  }

  lemma ReturnStep(code: seq<Cell>, mode: Jumps, env: Env, s: State)
    requires InCode(code, s) && OpAt(code, s) == Stacking(ReturnPop)
    requires Step(code, mode, env, s).Next?
    ensures Mapped(s.data, s.stk) && Mapped(s.data, Wrap(s.stk + 4)) && Mapped(s.data, Wrap(s.stk + 8))
    ensures After(code, mode, env, s) ==
            s.(cip := Peek(s.data, Wrap(s.stk + 4)), frm := Peek(s.data, s.stk),
               stk := Wrap(Wrap(s.stk + 8) + Peek(s.data, Wrap(s.stk + 8)) + 4))
  {
    hide OpOf;
  }

  /** A turn keeps the frames linked. */
  lemma TurnKeepsLinks(code: seq<Cell>, mode: Jumps, env: Env, s: State, frames: seq<Frame>)
    requires InCode(code, s) && Linked(s, frames) && Balanced(code, mode, env, s, frames)
    requires Step(code, mode, env, s).Next?
    ensures Linked(After(code, mode, env, s), Track(code, s, frames))
  {
    hide OpAt, Step;
    if OpAt(code, s) == Stacking(Proc) {
      ProcStep(code, mode, env, s);
      EnterKeepsLinks(s, frames, After(code, mode, env, s));
    } else if OpAt(code, s) == Stacking(ReturnPop) {
      ReturnStep(code, mode, env, s);
      LeaveValues(s, frames);
      LeaveKeepsLinks(s, frames, After(code, mode, env, s));
    }
  }

  lemma EnterKeepsLinks(s: State, frames: seq<Frame>, t: State)
    requires Linked(s, frames)
    requires Mapped(s.data, s.stk) && Mapped(s.data, Wrap(s.stk + 4)) && Mapped(s.data, Wrap(s.stk - 4))
    requires frames != [] ==> s.stk + 8 + Word(s, Wrap(s.stk + 4)) <= frames[|frames| - 1].at
    requires t == s.(cip := t.cip, stk := Wrap(s.stk - 4), frm := Wrap(s.stk - 4),
                     data := Poke(s.data, Wrap(s.stk - 4), s.frm))
    ensures Linked(t, frames + [NewFrame(s)])
  {
    hide Peek, Poke, Mapped, Intact;
    var f := NewFrame(s);
    NewIsIntact(s);
    forall k | 0 <= k < |frames| ensures Intact(t.data, frames[k]) && f.at + 12 <= frames[k].at {
      assert frames[|frames| - 1].at <= frames[k].at;
      PokeKeeps(s.data, Wrap(s.stk - 4), s.frm, frames[k]);
    }
  }

  lemma NewIsIntact(s: State)
    requires 4 * |s.data| < 0x8000_0000
    requires Mapped(s.data, s.stk) && Mapped(s.data, Wrap(s.stk + 4)) && Mapped(s.data, Wrap(s.stk - 4))
    ensures Wrap(s.stk - 4) == s.stk - 4 && Wrap(s.stk + 4) == s.stk + 4
    ensures Intact(Poke(s.data, Wrap(s.stk - 4), s.frm), NewFrame(s))
  {
    hide Peek, Poke;
    assert s.stk >= 4;
  }

  lemma PokeKeeps(data: Data, a: Cell, v: Cell, f: Frame)
    requires Mapped(data, a) && Intact(data, f) && a < f.at
    ensures Intact(Poke(data, a, v), f)
  {
    hide Peek, Poke;
  }

  lemma LeaveValues(s: State, frames: seq<Frame>)
    requires Linked(s, frames) && frames != [] && s.stk == s.frm
    ensures Mapped(s.data, s.stk) && Mapped(s.data, Wrap(s.stk + 4)) && Mapped(s.data, Wrap(s.stk + 8))
    ensures var f := frames[|frames| - 1];
            && Peek(s.data, s.stk) == f.saved && Peek(s.data, Wrap(s.stk + 4)) == f.to
            && Wrap(Wrap(s.stk + 8) + Peek(s.data, Wrap(s.stk + 8)) + 4) == Wrap(f.at + 12 + f.bytes)
  {
    hide Peek;
    var f := frames[|frames| - 1];
    assert Intact(s.data, f);
    assert Wrap(s.stk + 8) == f.at + 8 && Wrap(s.stk + 4) == f.at + 4;
  }

  lemma LeaveKeepsLinks(s: State, frames: seq<Frame>, t: State)
    requires Linked(s, frames) && frames != []
    requires t.data == s.data && t.frm == frames[|frames| - 1].saved
    requires t.stk == Wrap(frames[|frames| - 1].at + 12 + frames[|frames| - 1].bytes)
    ensures Linked(t, frames[..|frames| - 1])
  {
    hide Peek, Mapped;
    var n := |frames| - 1;
    var rest := frames[..n];
    assert forall k | 0 <= k < n :: rest[k] == frames[k];
    if n > 0 {
      assert Intact(s.data, frames[n]) && Intact(s.data, frames[n - 1]);
      assert frames[n].at + 12 + frames[n].bytes <= frames[n - 1].at;
    }
  }

  // ------------------------------------------------------------- whole bodies

  /** The first `n` turns stay in the code, go on and owe nothing. */
  ghost predicate BalancedRun(code: seq<Cell>, mode: Jumps, env: Env, n: nat, s: State, frames: seq<Frame>)
    decreases n
  {
    n == 0 ||
    (&& InCode(code, s) && Balanced(code, mode, env, s, frames)
     && Step(code, mode, env, s).Next?
     && BalancedRun(code, mode, env, n - 1, After(code, mode, env, s), Track(code, s, frames)))
  }

  /** The frames after `n` turns. */
  function FramesAfter(code: seq<Cell>, mode: Jumps, env: Env, n: nat, s: State, frames: seq<Frame>): seq<Frame>
    decreases n
  {
    if n == 0 || !InCode(code, s) || !Step(code, mode, env, s).Next? then frames
    else FramesAfter(code, mode, env, n - 1, After(code, mode, env, s), Track(code, s, frames))
  }

  /** Before each of the `n` turns, more than `depth` frames are active. */
  predicate Deeper(code: seq<Cell>, mode: Jumps, env: Env, n: nat, s: State, frames: seq<Frame>, depth: nat)
    decreases n
  {
    n == 0 || !InCode(code, s) || !Step(code, mode, env, s).Next? ||
    (|frames| > depth
     && Deeper(code, mode, env, n - 1, After(code, mode, env, s), Track(code, s, frames), depth))
  }

  /** When the frames are first back at `depth`, frame `depth` has just returned: to its
      return address, with its caller's frame pointer and the stack above its arguments. */
  lemma {:induction false} FrameReturns(code: seq<Cell>, mode: Jumps, env: Env, n: nat, s: State, frames: seq<Frame>,
                                        depth: nat)
    requires depth < |frames| && Linked(s, frames) && BalancedRun(code, mode, env, n, s, frames)
    requires Deeper(code, mode, env, n, s, frames, depth)
    requires |FramesAfter(code, mode, env, n, s, frames)| == depth
    ensures FramesAfter(code, mode, env, n, s, frames) == frames[..depth]
    ensures var o := Run(code, mode, env, n, s);
            var f := frames[depth];
            && o.Next? && Linked(o.state, frames[..depth])
            && o.state.cip == f.to && o.state.frm == f.saved && o.state.stk == Wrap(f.at + 12 + f.bytes)
    decreases n
  {
    hide OpAt, Step, Balanced, Linked;
    var t := After(code, mode, env, s);
    var next := Track(code, s, frames);
    TurnKeepsLinks(code, mode, env, s, frames);
    if |next| == depth {
      ReturnStep(code, mode, env, s);
      Leaving(code, mode, env, s, frames);
      assert n == 1;
    } else {
      assert next[depth] == frames[depth] && next[..depth] == frames[..depth];
      FrameReturns(code, mode, env, n - 1, t, next, depth);
    }
  }

  lemma Leaving(code: seq<Cell>, mode: Jumps, env: Env, s: State, frames: seq<Frame>)
    requires InCode(code, s) && Linked(s, frames) && Balanced(code, mode, env, s, frames)
    requires Step(code, mode, env, s).Next? && OpAt(code, s) == Stacking(ReturnPop)
    ensures frames != []
    ensures var f := frames[|frames| - 1];
            var t := After(code, mode, env, s);
            t.cip == f.to && t.frm == f.saved && t.stk == Wrap(f.at + 12 + f.bytes)
  {
    hide OpAt, Step;
    ReturnStep(code, mode, env, s);
    LeaveValues(s, frames);
  }

  // ----------------------------------------------------------------- a call

  lemma CallStep(code: seq<Cell>, mode: Jumps, env: Env, s: State)
    requires InCode(code, s) && OpAt(code, s) == Jumping(Call)
    requires Step(code, mode, env, s).Next?
    ensures Mapped(s.data, Wrap(s.stk - 4)) && s.cip / 4 + 1 < |code|
    ensures After(code, mode, env, s) ==
            s.(cip := Landing(mode, code[s.cip / 4 + 1]), stk := Wrap(s.stk - 4),
               data := Poke(s.data, Wrap(s.stk - 4), Wrap(s.cip + 8)))
  {
    hide OpOf;
  }

  /** A call whose target starts with PROC: with `bytes` of arguments under a byte count
      on top of the stack, control comes back behind the call, with the caller's frame
      pointer, the arguments popped, and every active function's linkage as it was. */
  lemma CallReturns(code: seq<Cell>, mode: Jumps, env: Env, n: nat, s: State, frames: seq<Frame>)
    requires Linked(s, frames) && InCode(code, s) && OpAt(code, s) == Jumping(Call) && Mapped(s.data, s.stk)
    requires BalancedRun(code, mode, env, n + 2, s, frames)
    requires var s1 := After(code, mode, env, s);
             InCode(code, s1) && OpAt(code, s1) == Stacking(Proc)
    requires var s1 := After(code, mode, env, s);
             var s2 := After(code, mode, env, s1);
             && Deeper(code, mode, env, n, s2, frames + [NewFrame(s1)], |frames|)
             && |FramesAfter(code, mode, env, n, s2, frames + [NewFrame(s1)])| == |frames|
    ensures var o := Run(code, mode, env, n + 2, s);
            && o.Next? && Linked(o.state, frames)
            && o.state.cip == Wrap(s.cip + 8) && o.state.frm == s.frm
            && o.state.stk == Wrap(s.stk + 4 + Peek(s.data, s.stk))
  {
    hide OpAt, Step, Linked, Balanced, Deeper, FramesAfter;
    var s1 := After(code, mode, env, s);
    var s2 := After(code, mode, env, s1);
    var f := NewFrame(s1);
    CallStep(code, mode, env, s);
    TurnKeepsLinks(code, mode, env, s, frames);
    assert BalancedRun(code, mode, env, n + 1, s1, frames);
    TurnKeepsLinks(code, mode, env, s1, frames);
    CallFrame(s, s1, frames);
    FrameReturns(code, mode, env, n, s2, frames + [f], |frames|);
    assert (frames + [f])[..|frames|] == frames;
  }

  /** The frame of a call names the instruction behind it and the arguments above it. */
  lemma CallFrame(s: State, s1: State, frames: seq<Frame>)
    requires Linked(s, frames) && Mapped(s.data, s.stk) && Mapped(s.data, Wrap(s.stk - 4))
    requires s1 == s.(cip := s1.cip, stk := Wrap(s.stk - 4), data := Poke(s.data, Wrap(s.stk - 4), Wrap(s.cip + 8)))
    ensures NewFrame(s1) == Frame(s1.stk - 4, s.frm, Wrap(s.cip + 8), Peek(s.data, s.stk))
    ensures s1.stk == s.stk - 4
  {
  }

  /** A public function entered by `amx_Exec`, over a zero return address and the byte
      count of the pushed parameters, returns to offset 0 with all of them popped. */
  lemma EntryReturns(code: seq<Cell>, mode: Jumps, env: Env, n: nat, s: State)
    requires Linked(s, []) && InCode(code, s) && OpAt(code, s) == Stacking(Proc)
    requires Mapped(s.data, s.stk) && Peek(s.data, s.stk) == 0
    requires BalancedRun(code, mode, env, n + 1, s, [])
    requires Deeper(code, mode, env, n, After(code, mode, env, s), [NewFrame(s)], 0)
    requires FramesAfter(code, mode, env, n, After(code, mode, env, s), [NewFrame(s)]) == []
    ensures var o := Run(code, mode, env, n + 1, s);
            && o.Next? && o.state.cip == 0 && o.state.frm == s.frm
            && o.state.stk == Wrap(s.stk + 8 + Word(s, Wrap(s.stk + 4)))
  {
    hide OpAt, Step, Linked, Balanced, Deeper, FramesAfter;
    TurnKeepsLinks(code, mode, env, s, []);
    assert [] + [NewFrame(s)] == [NewFrame(s)];
    FrameReturns(code, mode, env, n, After(code, mode, env, s), [NewFrame(s)], 0);
  }

  // --------------------------------------------------------------- an example

  /** CALL 12; NOP; then, at offset 12, PROC; RETN. */
  const EXAMPLE: seq<Cell> := [49, 12, 134, 46, 48]

  function ExampleState(): State {
    State(0, 0, 200, 100, 0, 0, seq(64, _ => 0), 0)
  }

  function ExampleCalled(): State {
    var s := ExampleState();
    s.(cip := 12, stk := 96, data := Poke(s.data, 96, 8))
  }

  function ExampleEntered(): State {
    var s := ExampleCalled();
    s.(cip := 16, stk := 92, frm := 92, data := Poke(s.data, 92, 200))
  }

  function ExampleReturned(): State {
    ExampleEntered().(cip := 8, frm := 200, stk := 104)
  }

  lemma ExampleOps()
    ensures OpOf(49) == Jumping(Call) && OpOf(46) == Stacking(Proc) && OpOf(48) == Stacking(ReturnPop)
  {
  }

  lemma ExampleTurn1(env: Env)
    ensures Step(EXAMPLE, Relative, env, ExampleState()) == Next(ExampleCalled())
  {
    ExampleOps();
    hide OpOf;
  }

  lemma ExampleTurn2(env: Env)
    ensures Step(EXAMPLE, Relative, env, ExampleCalled()) == Next(ExampleEntered())
  {
    ExampleOps();
    hide OpOf;
  }

  lemma ExampleTurn3(env: Env)
    requires env.codesize == 20
    ensures Step(EXAMPLE, Relative, env, ExampleEntered()) == Next(ExampleReturned())
  {
    ExampleOps();
    hide OpOf;
  }

  /** What the theorem about calls asks for can be met: a call without arguments of a
      function without a body. */
  lemma ExampleCall(env: Env)
    requires env.codesize == 20
    ensures BalancedRun(EXAMPLE, Relative, env, 3, ExampleState(), [])
    ensures var o := Run(EXAMPLE, Relative, env, 3, ExampleState());
            o.Next? && o.state.cip == 8 && o.state.frm == 200 && o.state.stk == 104
  {
    ExampleOps();
    hide Step, OpOf;
    ExampleTurn1(env);
    ExampleTurn2(env);
    ExampleTurn3(env);
    var s, s1, s2 := ExampleState(), ExampleCalled(), ExampleEntered();
    var f := Frame(92, 200, 8, 0);
    assert NewFrame(s1) == f;
    assert Track(EXAMPLE, s, []) == [] && Track(EXAMPLE, s1, []) == [f];
    assert Balanced(EXAMPLE, Relative, env, s2, [f]);
    assert BalancedRun(EXAMPLE, Relative, env, 0, ExampleReturned(), Track(EXAMPLE, s2, [f]));
    assert BalancedRun(EXAMPLE, Relative, env, 1, s2, [f]);
    assert BalancedRun(EXAMPLE, Relative, env, 2, s1, []);
    CallReturns(EXAMPLE, Relative, env, 1, s, []);
  }
}
