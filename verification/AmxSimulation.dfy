/** Relocating and patching a code segment preserves what it does: the relocated
    segment, read with absolute jump addresses, simulates the original one, read
    relative to the code. */
module AmxSimulation {
  import opened Wrappers
  import opened AmxOpcodes
  import opened AmxLoader
  import opened AmxMachine

  // ----------------------------------------- the sweep against the interpreter

  /** What the sweep's treatment of opcode `n` says about its operands in the interpreter. */
  predicate Agrees(n: Cell) {
    var op := OpOf(n);
    match ShapeOf(n)
    case Plain(k) => op != Special(Invalid) && op != Special(Symbol) && op != Special(CaseTable) && !NeedOf(op).Jump1? && !NeedOf(op).Table1?
                     && Width(NeedOf(op)) == 1 + k
    case Jumps => NeedOf(op).Jump1? || (op == Jumping(Switch) && n == 129)
    case Native => op == Special(SysreqConst)
    case Text => op == Special(Invalid) || op == Special(Symbol)
    case Cases => op == Special(CaseTable)
    case Unknown => op == Special(Invalid)
  }

  /** The two tables of operand counts agree on every opcode. */
  lemma TablesAgree(n: Cell)
    ensures Agrees(n)
  {
    hide Agrees;
    if n < 36 {
      AddressingAgrees(n);
    } else if n < 55 {
      StackAgrees(n);
    } else if n < 65 {
      JumpsAgree(n);
    } else if n < 95 {
      ArithmeticAgrees(n);
    } else if n < 120 {
      CountingAgrees(n);
    } else {
      SystemAgrees(n);
    }
  }

  lemma AddressingAgrees(n: Cell)
    requires n < 36
    ensures Agrees(n)
  {
    hide StackOp, ArithmeticOp, CountingOp, SystemOp;
  }

  lemma StackAgrees(n: Cell)
    requires 36 <= n < 55
    ensures Agrees(n)
  {
    hide AddressingOp, ArithmeticOp, CountingOp, SystemOp;
  }

  lemma JumpsAgree(n: Cell)
    requires 55 <= n < 65
    ensures Agrees(n)
  {
    hide AddressingOp, StackOp, ArithmeticOp, CountingOp, SystemOp;
  }

  lemma ArithmeticAgrees(n: Cell)
    requires 65 <= n < 95
    ensures Agrees(n)
  {
    hide AddressingOp, StackOp, CountingOp, SystemOp;
  }

  lemma CountingAgrees(n: Cell)
    requires 95 <= n < 120
    ensures Agrees(n)
  {
    hide AddressingOp, StackOp, ArithmeticOp, SystemOp;
  }

  lemma SystemAgrees(n: Cell)
    requires 120 <= n
    ensures Agrees(n)
  {
    hide AddressingOp, StackOp, ArithmeticOp, CountingOp;
  }

  predicate Runs(n: Cell) {
    OpOf(n) != Special(Invalid) && OpOf(n) != Special(CaseTable)
  }

  /** Where the interpreter goes on after the instruction at word `i`, if it does not jump. */
  function Following(code: Code, i: nat): int
    requires i < |code|
  {
    var op := OpOf(code[i]);
    i + Width(NeedOf(op)) + (if op == Special(Symbol) && i + 1 < |code| then code[i + 1] / 4 else 0)
  }

  /** The sweep and the interpreter agree on the length of every instruction that runs. */
  lemma LengthsAgree(code: Code, i: nat)
    requires i < |code| && Length(code, i).Some? && Runs(code[i])
    ensures Following(code, i) == i + Length(code, i).value
  {
    hide OpOf, NeedOf, Width;
    TablesAgree(code[i]);
    Widths(OpOf(code[i]));
  }

  lemma Widths(op: Op)
    ensures op == Jumping(Switch) ==> NeedOf(op) == Table1
    ensures op == Special(SysreqConst) || op == Special(Symbol) ==> NeedOf(op) == Cell1
    ensures op == Special(Invalid) || op == Special(CaseTable) ==> NeedOf(op) == Nothing
    ensures NeedOf(op).Cell1? || NeedOf(op).Jump1? || NeedOf(op).Table1? ==> Width(NeedOf(op)) == 2
  {
  }

  // ------------------------------------------------------------ covered words

  /** Each word of a clean segment belongs to one instruction, whose start is a start. */
  lemma {:induction false} CoverFrom(code: Code, i: nat, k: nat, j: nat)
    requires i <= |code| && SweepFrom(code, i).Clean? && StartsFrom(code, i, k)
    requires k <= j < |code| && Length(code, k).Some? && j < k + Length(code, k).value
    ensures i <= k && Cover(code, i, j) == k
    decreases |code| - i
  {
    if i != k {
      var next := i + Length(code, i).value;
      CoverFrom(code, next, k, j);
    }
  }

  /** Starts of a clean segment are known, countable instructions. */
  lemma {:induction false} StartFits(code: Code, i: nat, k: nat)
    requires i <= |code| && SweepFrom(code, i).Clean? && StartsFrom(code, i, k)
    ensures k < |code| && Length(code, k).Some? && !ShapeOf(code[k]).Unknown?
    decreases |code| - i
  {
    if i != k {
      StartFits(code, i + Length(code, i).value, k);
    }
  }

  /** The instructions of a clean segment tile it: every word is covered by the
      instruction at exactly one start. */
  lemma {:induction false} TiledFrom(code: Code, i: nat, j: nat)
    requires i <= j < |code| && SweepFrom(code, i).Clean?
    ensures StartsFrom(code, i, Cover(code, i, j)) && Length(code, Cover(code, i, j)).Some?
    ensures j < Cover(code, i, j) + Length(code, Cover(code, i, j)).value
    decreases |code| - i
  {
    var next := i + Length(code, i).value;
    if next <= j {
      TiledFrom(code, next, j);
    }
  }

  /** The relocated segment, instruction by instruction: every word of every instruction
      has been rewritten once, as that instruction asks. */
  lemma RelocatedAt(code: Code, base: Cell, hook: Hook, k: nat, j: nat)
    requires SweepFrom(code, 0).Clean? && IsStart(code, k)
    ensures k < |code| && Length(code, k).Some? && !ShapeOf(code[k]).Unknown?
    ensures k <= j < k + Length(code, k).value ==>
              Relocated(code, base, hook)[j] == Swept(code, base, hook, k, j)
  {
    hide Length, Swept, ShapeOf;
    StartFits(code, 0, k);
    if k <= j < k + Length(code, k).value {
      CoverFrom(code, 0, k, j);
    }
  }

  // ------------------------------------------------------- unpatched instructions

  /** Every switch names a case table that the sweep has found. */
  ghost predicate Linked(code: Code) {
    forall i: nat {:trigger IsStart(code, i)} | IsStart(code, i) && i + 1 < |code| && code[i] == 129 ::
      code[i + 1] % 4 == 0 && code[i + 1] / 4 < |code|
      && IsStart(code, code[i + 1] / 4) && code[code[i + 1] / 4] == 130
  }

  /** An offset at which an instruction starts, or one outside the code. */
  predicate Lands(code: Code, w: Cell) {
    w % 4 != 0 || w / 4 >= |code| || IsStart(code, w / 4)
  }

  /** The operands of jumps at word `i`, and the addresses of a case table there, lead to
      starts or out of the code. */
  ghost predicate AimedAt(code: Code, i: nat)
    requires i < |code|
  {
    && (i + 1 < |code| && NeedOf(OpOf(code[i])).Jump1? ==> Lands(code, code[i + 1]))
    && (i + 1 < |code| && OpOf(code[i]) == Jumping(JumpRelative) ==> Lands(code, Wrap(4 * i + 8 + code[i + 1])))
    && (i + 1 < |code| && code[i] == 130 ==>
          forall k: nat {:trigger CaseLands(code, i, k)} | k <= (code[i + 1] as int) :: CaseLands(code, i, k))
  }

  /** The `k`-th address of the case table at word `i`; the fallback is the first. */
  predicate CaseLands(code: Code, i: nat, k: nat) {
    i + 2 + 2 * k < |code| ==> Lands(code, code[i + 2 + 2 * k])
  }

  ghost predicate Aimed(code: Code) {
    forall i: nat {:trigger IsStart(code, i)} | IsStart(code, i) && i < |code| :: AimedAt(code, i)
  }

  /** A code segment the loader can take: a clean sweep, switches that name case
      tables, jumps that lead to instructions, and a size that offsets can express. */
  ghost predicate WellFormed(code: Code) {
    SweepFrom(code, 0).Clean? && Linked(code) && Aimed(code) && 4 * |code| < 0x8000_0000
  }

  /** Whether the sweep patches the instruction at word `i`. */
  predicate Patched(code: Code, hook: Hook, i: nat) {
    i + 1 < |code| && code[i] == 123 && PatchOf(hook, code[i + 1]).Some?
  }

  lemma LandingUndoes(base: Cell, w: Cell)
    ensures Landing(Absolute(base), Wrap(w + base)) == w
  {
  }

  lemma LandingRelative(w: Cell)
    ensures Landing(Relative, w) == w
  {
  }

  lemma Size(code: Code, base: Cell, hook: Hook)
    ensures |Relocated(code, base, hook)| == |code|
  {
  }

  /** The words of a case table after the sweep: each address moved once, each value kept. */
  lemma CaseWords(code: Code, base: Cell, hook: Hook, i: nat)
    requires SweepFrom(code, 0).Clean? && IsStart(code, i) && i < |code| && code[i] == 130
    ensures i + 2 < |code| && Signed(code[i + 1]) >= 0 && i + 3 + 2 * (code[i + 1] as int) <= |code|
    ensures |Relocated(code, base, hook)| == |code|
    ensures Relocated(code, base, hook)[i + 1] == code[i + 1]
    ensures Relocated(code, base, hook)[i + 2] == Wrap(code[i + 2] + base)
    ensures forall k | 0 <= k < code[i + 1] as int ::
              && Relocated(code, base, hook)[i + 3 + 2 * k] == code[i + 3 + 2 * k]
              && Relocated(code, base, hook)[i + 4 + 2 * k] == Wrap(code[i + 4 + 2 * k] + base)
  {
    hide Wrap, SweepFrom, StartsFrom, Cover, Relocated;
    Size(code, base, hook);
    RelocatedAt(code, base, hook, i, i + 1);
    RelocatedAt(code, base, hook, i, i + 2);
    forall k | 0 <= k < code[i + 1] as int
      ensures && Relocated(code, base, hook)[i + 3 + 2 * k] == code[i + 3 + 2 * k]
              && Relocated(code, base, hook)[i + 4 + 2 * k] == Wrap(code[i + 4 + 2 * k] + base)
    {
      RelocatedAt(code, base, hook, i, i + 3 + 2 * k);
      RelocatedAt(code, base, hook, i, i + 4 + 2 * k);
    }
  }

  /** The case table of a switch reads the same. */
  lemma TableAgrees(code: Code, base: Cell, hook: Hook, t: Cell)
    requires WellFormed(code) && t % 4 == 0 && IsStart(code, t / 4) && t / 4 < |code| && code[t / 4] == 130
    ensures TableAt(code, Relative, t).Some?
    ensures TableAt(Relocated(code, base, hook), Absolute(base), t) == TableAt(code, Relative, t)
  {
    hide Wrap, Landing, SweepFrom, StartsFrom, Cover, Relocated, Signed;
    var i := t / 4;
    var image := Relocated(code, base, hook);
    CaseWords(code, base, hook, i);
    var num := code[i + 1];
    var cases := CasesOf(code, Relative, i + 3, num);
    var moved := CasesOf(image, Absolute(base), i + 3, num);
    forall k | 0 <= k < num as int ensures moved[k] == cases[k] {
      LandingUndoes(base, code[i + 4 + 2 * k]);
      LandingRelative(code[i + 4 + 2 * k]);
    }
    assert moved == cases;
    LandingUndoes(base, code[i + 2]);
    LandingRelative(code[i + 2]);
  }

  /** An opcode and its operand after the sweep, when the instruction is not patched. */
  lemma OperandWord(code: Code, base: Cell, hook: Hook, i: nat)
    requires SweepFrom(code, 0).Clean? && IsStart(code, i) && !Patched(code, hook, i)
    ensures i < |code| == |Relocated(code, base, hook)| && Relocated(code, base, hook)[i] == code[i]
    ensures Width(NeedOf(OpOf(code[i]))) == 2 && !NeedOf(OpOf(code[i])).Cells? ==>
              && i + 1 < |code|
              && Relocated(code, base, hook)[i + 1] ==
                 if ShapeOf(code[i]).Jumps? then Wrap(code[i + 1] + base) else code[i + 1]
    ensures NeedOf(OpOf(code[i])).Jump1? || NeedOf(OpOf(code[i])).Table1? ==> ShapeOf(code[i]).Jumps?
    ensures NeedOf(OpOf(code[i])).Cell1? ==> !ShapeOf(code[i]).Jumps?
    ensures NeedOf(OpOf(code[i])).Table1? ==> code[i] == 129
  {
    hide Wrap, SweepFrom, StartsFrom, Cover, Relocated, OpOf, NeedOf, Width, PatchOf;
    Size(code, base, hook);
    RelocatedAt(code, base, hook, i, i);
    RelocatedAt(code, base, hook, i, i + 1);
    TablesAgree(code[i]);
    Widths(OpOf(code[i]));
    NativeIs123(code[i]);
  }

  lemma NativeIs123(n: Cell)
    ensures ShapeOf(n).Native? <==> n == 123
  {
  }

  /** An instruction that is not patched is fetched as before. */
  lemma FetchAgrees(code: Code, base: Cell, hook: Hook, i: nat)
    requires WellFormed(code) && IsStart(code, i) && !Patched(code, hook, i)
    ensures i < |code| == |Relocated(code, base, hook)| && Relocated(code, base, hook)[i] == code[i]
    ensures ArgAt(Relocated(code, base, hook), Absolute(base), NeedOf(OpOf(code[i])), i) ==
            ArgAt(code, Relative, NeedOf(OpOf(code[i])), i)
  {
    hide Wrap, Landing, SweepFrom, StartsFrom, Cover, Relocated, TableAt, OpOf, NeedOf, Patched, ShapeOf, Width;
    OperandWord(code, base, hook, i);
    Widths(OpOf(code[i]));
    var need := NeedOf(OpOf(code[i]));
    if need.Jump1? || need.Table1? {
      LandingUndoes(base, code[i + 1]);
      LandingRelative(code[i + 1]);
    }
    if need.Table1? {
      TableAgrees(code, base, hook, code[i + 1]);
    }
  }

  /** The state is about to run an instruction the sweep has found, or none at all. */
  predicate AtStart(code: Code, s: State) {
    Lands(code, s.cip)
  }

  /** Outside the patched calls, one turn is one turn. */
  lemma StepAgrees(code: Code, base: Cell, hook: Hook, env: Env, s: State)
    requires WellFormed(code) && AtStart(code, s) && (s.cip % 4 == 0 ==> !Patched(code, hook, s.cip / 4))
    ensures Step(Relocated(code, base, hook), Absolute(base), env, s) == Step(code, Relative, env, s)
  {
    hide SweepFrom, StartsFrom, Relocated, ArgAt, OpOf, NeedOf, Execute, Width;
    Size(code, base, hook);
    if s.cip % 4 == 0 && s.cip / 4 < |code| {
      FetchAgrees(code, base, hook, s.cip / 4);
    }
  }

  // --------------------------------------------------------- patched instructions

  /** What a float native hands back: its value, and nothing else changed. */
  function FloatReply(u: FloatUnit, f: FloatOp, s: State): Reply {
    match FloatArguments(s, f)
    case None => Crash
    case Some(xy) => Reply(ERR_NONE, FloatNative(u, f, xy.0, xy.1), s.alt, s.data, s.host)
  }

  /** Every call that is patched is a call of the float native it is patched for. */
  ghost predicate Bound(code: Code, hook: Hook, env: Env) {
    forall i: nat, s: State {:trigger IsStart(code, i), FloatReply(env.unit, To, s)} ::
      IsStart(code, i) && Patched(code, hook, i) ==> BoundAt(code, hook, env, i, s)
  }

  predicate BoundAt(code: Code, hook: Hook, env: Env, i: nat, s: State)
    requires Patched(code, hook, i)
  {
    env.call(code[i + 1], s) == FloatReply(env.unit, FloatOf(PatchOf(hook, code[i + 1]).value), s)
  }

  /** The rounding modes that the opcode and the native share. */
  predicate SharedMode(y: Cell) {
    y <= 2
  }

  /** A patched call of `floatround` is made with a shared mode. */
  predicate ModeAt(code: Code, hook: Hook, s: State) {
    var i := s.cip / 4;
    Patched(code, hook, i) && FloatOf(PatchOf(hook, code[i + 1]).value).Round? ==>
      Argument(s, 2).Some? ==> SharedMode(Argument(s, 2).value)
  }

  /** An opcode computes what its native does, except `floatround` in other modes. */
  lemma FloatsAgree(u: FloatUnit, f: FloatOp, x: Cell, y: Cell)
    requires f.Round? ==> SharedMode(y)
    ensures FloatOpcode(u, f, x, y) == FloatNative(u, f, x, y)
  {
  }

  /** For any other mode, there is a float unit on which the two differ. */
  lemma ModesExact(y: Cell)
    ensures (forall u: FloatUnit, x: Cell :: FloatOpcode(u, Round, x, y) == FloatNative(u, Round, x, y))
            <==> SharedMode(y)
  {
    var u := FloatUnit((_, _) => 0, (_, _) => 0, (_, _) => 0, (_, _) => 0,
                       _ => 0, _ => 0, _ => 0, _ => 1, _ => false, (_, _) => false, (_, _) => false);
    assert !SharedMode(y) ==> FloatOpcode(u, Round, 0, y) != FloatNative(u, Round, 0, y);
  }

  /** The two instructions that replace a patched call. */
  lemma PatchedWords(code: Code, base: Cell, hook: Hook, i: nat)
    requires SweepFrom(code, 0).Clean? && IsStart(code, i) && Patched(code, hook, i)
    ensures i + 1 < |code| == |Relocated(code, base, hook)|
    ensures OpOf(Relocated(code, base, hook)[i]) == Special(Float(FloatOf(PatchOf(hook, code[i + 1]).value)))
    ensures OpOf(Relocated(code, base, hook)[i + 1]) == Special(Skip(0))
  {
    hide SweepFrom, StartsFrom, Cover, Relocated, Wrap, PatchOf, OpOf;
    Size(code, base, hook);
    NativeIs123(code[i]);
    RelocatedAt(code, base, hook, i, i);
    RelocatedAt(code, base, hook, i, i + 1);
    PatchRange(hook, code[i + 1]);
    FloatNumbers(PatchOf(hook, code[i + 1]).value);
  }

  lemma PatchRange(hook: Hook, v: Cell)
    ensures PatchOf(hook, v).Some? ==> PatchOf(hook, v).value < FLOAT_NATIVES
  {
  }

  lemma FloatNumbers(k: nat)
    requires k < FLOAT_NATIVES
    ensures OpOf(FLOAT_MUL + k) == Special(Float(FloatOf(k))) && OpOf(NOP) == Special(Skip(0)) && OpOf(123) == Special(SysreqConst)
  {
  }

  lemma ExecuteFloat(f: FloatOp, env: Env, s: State)
    ensures Execute(Special(Float(f)), NoArg, env, s) ==
            match FloatArguments(s, f)
            case None => Undefined
            case Some(xy) => Next(s.(pri := FloatOpcode(env.unit, f, xy.0, xy.1)))
  {
    hide FloatArguments, FloatOpcode;
  }

  lemma FloatStep(code: Code, mode: Jumps, env: Env, s: State, f: FloatOp)
    requires s.cip % 4 == 0 && s.cip / 4 < |code| && OpOf(code[s.cip / 4]) == Special(Float(f))
    ensures Step(code, mode, env, s) ==
            match FloatArguments(s, f)
            case None => Undefined
            case Some(xy) => Next(s.(cip := Wrap(s.cip + 4), pri := FloatOpcode(env.unit, f, xy.0, xy.1)))
  {
    hide OpOf, Execute, FloatOpcode;
    var t := s.(cip := Wrap(s.cip + 4));
    ExecuteFloat(f, env, t);
    assert FloatArguments(t, f) == FloatArguments(s, f);
  }

  lemma NopStep(code: Code, mode: Jumps, env: Env, s: State)
    requires s.cip % 4 == 0 && s.cip / 4 < |code| && OpOf(code[s.cip / 4]) == Special(Skip(0))
    ensures Step(code, mode, env, s) == Next(s.(cip := Wrap(s.cip + 4)))
  {
    hide OpOf;
  }

  lemma CallStep(code: Code, mode: Jumps, env: Env, s: State)
    requires s.cip % 4 == 0 && s.cip / 4 + 1 < |code| && OpOf(code[s.cip / 4]) == Special(SysreqConst)
    ensures Step(code, mode, env, s) == CallNative(env, s.(cip := Wrap(s.cip + 8)), code[s.cip / 4 + 1])
  {
    hide OpOf;
  }

  /** Where a float operation leaves the machine after a call and its operand. */
  function AfterFloat(s: State, args: Option<(Cell, Cell)>, v: Cell): Outcome {
    if args.None? then Undefined else Next(s.(cip := Wrap(s.cip + 8), pri := v))
  }

  lemma PatchedTurns(code: Code, base: Cell, hook: Hook, env: Env, s: State, f: FloatOp)
    requires SweepFrom(code, 0).Clean? && 4 * |code| < 0x8000_0000
    requires s.cip % 4 == 0 && IsStart(code, s.cip / 4) && Patched(code, hook, s.cip / 4)
    requires f == FloatOf(PatchOf(hook, code[s.cip / 4 + 1]).value)
    ensures var args := FloatArguments(s, f);
            Run(Relocated(code, base, hook), Absolute(base), env, 2, s) ==
            AfterFloat(s, args, if args.Some? then FloatOpcode(env.unit, f, args.value.0, args.value.1) else 0)
  {
    hide SweepFrom, StartsFrom, Relocated, PatchOf, OpOf, Step, FloatOpcode, FloatArguments;
    var image := Relocated(code, base, hook);
    PatchedWords(code, base, hook, s.cip / 4);
    FloatStep(image, Absolute(base), env, s, f);
    match FloatArguments(s, f)
    case None =>
    case Some(xy) =>
      var mid := s.(cip := Wrap(s.cip + 4), pri := FloatOpcode(env.unit, f, xy.0, xy.1));
      NopStep(image, Absolute(base), env, mid);
  }

  lemma CalledTurn(code: Code, hook: Hook, env: Env, s: State, f: FloatOp)
    requires Bound(code, hook, env)
    requires s.cip % 4 == 0 && IsStart(code, s.cip / 4) && Patched(code, hook, s.cip / 4)
    requires f == FloatOf(PatchOf(hook, code[s.cip / 4 + 1]).value)
    ensures var args := FloatArguments(s, f);
            Step(code, Relative, env, s) ==
            AfterFloat(s, args, if args.Some? then FloatNative(env.unit, f, args.value.0, args.value.1) else 0)
  {
    hide StartsFrom, PatchOf, OpOf, Step, FloatNative;
    FloatNumbers(0);
    CallStep(code, Relative, env, s);
    var t := s.(cip := Wrap(s.cip + 8));
    assert FloatReply(env.unit, To, t) == FloatReply(env.unit, To, t);
    assert BoundAt(code, hook, env, s.cip / 4, t);
    assert FloatArguments(t, f) == FloatArguments(s, f);
  }

  /** A patched call takes two turns, and does what the call did. */
  lemma PatchAgrees(code: Code, base: Cell, hook: Hook, env: Env, s: State)
    requires WellFormed(code) && Bound(code, hook, env)
    requires AtStart(code, s) && s.cip % 4 == 0 && Patched(code, hook, s.cip / 4) && ModeAt(code, hook, s)
    ensures Step(code, Relative, env, s) == Run(Relocated(code, base, hook), Absolute(base), env, 2, s)
  {
    hide SweepFrom, StartsFrom, Linked, Bound, Relocated, PatchOf, Step, Run, FloatOpcode, FloatNative;
    var f := FloatOf(PatchOf(hook, code[s.cip / 4 + 1]).value);
    CalledTurn(code, hook, env, s, f);
    PatchedTurns(code, base, hook, env, s, f);
    match FloatArguments(s, f)
    case None =>
    case Some(xy) => FloatsAgree(env.unit, f, xy.0, xy.1);
  }

  // ------------------------------------------------------------ from start to start

  /** The instruction goes on at an address that it computes. */
  predicate Computes(code: Code, i: nat)
    requires i < |code|
  {
    match OpOf(code[i])
    case Stacking(t) => t.Return? || t.ReturnPop?
    case Jumping(j) => j.CallPri? || j.JumpPri?
    case Memory(m) => m.StoreControl? && i + 1 < |code| && code[i + 1] == 6
    case _ => false
  }

  /** Behind an instruction of a clean segment there is another one, or the end. */
  lemma {:induction false} StartsOn(code: Code, from: nat, i: nat)
    requires from <= |code| && SweepFrom(code, from).Clean? && StartsFrom(code, from, i)
    ensures i < |code| && Length(code, i).Some?
    ensures i + Length(code, i).value == |code| || StartsFrom(code, from, i + Length(code, i).value)
    decreases |code| - from
  {
    if from != i {
      StartsOn(code, from + Length(code, from).value, i);
    } else if i + Length(code, i).value < |code| {
      assert StartsFrom(code, i + Length(code, i).value, i + Length(code, i).value);
    }
  }

  /** Where an instruction that does not jump, and computes no address, goes on. */
  lemma KeepsMemory(op: MemoryOp, arg: Arg, env: Env, s: State)
    requires !(op.StoreControl? && arg == Value(6))
    ensures var o := ExecuteMemory(op, arg, env, s); o.Next? ==> o.state.cip == s.cip
  {
    hide Forbidden, AddressOf;
  }

  lemma {:induction false} KeepsPushes(s: State, v: Cell, n: nat)
    ensures var o := PushedTimes(s, v, n); o.Next? ==> o.state.cip == s.cip
    decreases n
  {
    if n > 0 {
      match Pushed(s, v)
      case Next(t) => KeepsPushes(t, v, n - 1);
      case _ =>
    }
  }

  lemma KeepsStacking(op: StackingOp, arg: Arg, env: Env, s: State)
    requires !op.Return? && !op.ReturnPop?
    ensures var o := ExecuteStacking(op, arg, env, s); o.Next? ==> o.state.cip == s.cip
  {
    hide AddressOf, Collides, PushedTimes;
    if op.PushMany? && arg.Value? {
      KeepsPushes(s, s.pri, arg.v);
    }
  }

  lemma KeepsSumming(op: SummingOp, arg: Arg, s: State)
    ensures var o := ExecuteSumming(op, arg, s); o.Next? ==> o.state.cip == s.cip
  {
  }

  lemma KeepsSpecial(op: SpecialOp, arg: Arg, env: Env, s: State)
    ensures var o := ExecuteSpecial(op, arg, env, s);
            o.Next? ==> o.state.cip == if op.Symbol? && arg.Value? then Wrap(s.cip + arg.v) else s.cip
    ensures ExecuteSpecial(op, arg, env, s).Next? ==> !op.Invalid? && !op.CaseTable?
  {
    hide FloatOpcode, FloatArguments;
  }

  /** The address that a case leads to is the fallback or stands in the table. */
  lemma {:induction false} LookupIs(fallback: Cell, cases: seq<(Cell, Cell)>, v: Cell)
    ensures Lookup(fallback, cases, v) == fallback || exists k :: 0 <= k < |cases| && Lookup(fallback, cases, v) == cases[k].1
  {
    if cases != [] && cases[0].0 != v {
      LookupIs(fallback, cases[1..], v);
      if k :| 0 <= k < |cases[1..]| && Lookup(fallback, cases[1..], v) == cases[1..][k].1 {
        assert cases[k + 1] == cases[1..][k];
      }
    }
  }

  /** Where a jump can lead. */
  lemma JumpsTo(op: JumpingOp, arg: Arg, s: State)
    requires !op.CallPri? && !op.JumpPri? && ExecuteJumping(op, arg, s).Next?
    ensures var to := ExecuteJumping(op, arg, s).state.cip;
            match arg
            case Target(w) => to == w || to == s.cip
            case Value(v) => op.JumpRelative? && to == Wrap(s.cip + v)
            case Table(fallback, cases) => op.Switch? && to == Lookup(fallback, cases, s.pri)
            case NoArg => false
  {
    hide Holds, Lookup;
  }

  /** Behind the instruction at a start there is a start, or the end of the code. */
  lemma FallsThrough(code: Code, i: nat)
    requires WellFormed(code) && IsStart(code, i) && i < |code| && Runs(code[i])
    ensures var w := 4 * Following(code, i); 0 <= w < 0x8000_0000 && Lands(code, Wrap(w))
  {
    hide Following, SweepFrom, StartsFrom, Linked, Aimed, Runs;
    StartsOn(code, 0, i);
    LengthsAgree(code, i);
    var j := i + Length(code, i).value;
    assert Wrap(4 * j) == 4 * j && 4 * j / 4 == j;
  }

  lemma TableLands(code: Code, i: nat, t: Cell, v: Cell)
    requires WellFormed(code) && IsStart(code, i) && i < |code| && t % 4 == 0 && t / 4 == i && code[i] == 130
    ensures TableAt(code, Relative, t).Some? && TableAt(code, Relative, t).value.Table?
    ensures var table := TableAt(code, Relative, t).value; Lands(code, Lookup(table.fallback, table.cases, v))
  {
    hide StartsFrom, SweepFrom, Lands, Lookup, Linked, OpOf, NeedOf, Relocated;
    CaseWords(code, 0, None, i);
    var table := TableAt(code, Relative, t).value;
    assert AimedAt(code, i);
    assert CaseLands(code, i, 0);
    LookupIs(table.fallback, table.cases, v);
    if k :| 0 <= k < |table.cases| && Lookup(table.fallback, table.cases, v) == table.cases[k].1 {
      assert CaseLands(code, i, k + 1);
      assert i + 2 + 2 * (k + 1) == i + 3 + 2 * k + 1;
    }
  }

  /** The turn, once its instruction has been fetched. */
  lemma StepExecutes(code: Code, env: Env, s: State)
    requires s.cip % 4 == 0 && s.cip / 4 < |code| && Step(code, Relative, env, s).Next?
    ensures var op := OpOf(code[s.cip / 4]);
            && ArgAt(code, Relative, NeedOf(op), s.cip / 4).Some?
            && Step(code, Relative, env, s) ==
               Execute(op, ArgAt(code, Relative, NeedOf(op), s.cip / 4).value, env, s.(cip := Wrap(s.cip + 4 * Width(NeedOf(op)))))
  {
    hide OpOf, NeedOf, ArgAt, Width, Execute;
  }

  /** Executed, it goes on behind itself, unless it jumps, computes an address or marks a
      text. */
  lemma GoesBehind(op: Op, arg: Arg, env: Env, t: State)
    requires !op.Jumping? && Execute(op, arg, env, t).Next?
    requires op.Stacking? ==> !op.stacking.Return? && !op.stacking.ReturnPop?
    requires op.Memory? && op.memory.StoreControl? ==> arg != Value(6)
    ensures Execute(op, arg, env, t).state.cip ==
            if op == Special(Symbol) && arg.Value? then Wrap(t.cip + arg.v) else t.cip
    ensures op != Special(Invalid) && op != Special(CaseTable)
  {
    hide ExecuteMemory, ExecuteStacking, ExecuteSumming, ExecuteSpecial;
    match op {
      case Memory(m) => KeepsMemory(m, arg, env, t);
      case Stacking(k) => KeepsStacking(k, arg, env, t);
      case Summing(u) => KeepsSumming(u, arg, t);
      case Special(p) => KeepsSpecial(p, arg, env, t);
    }
  }

  /** A turn that starts at an instruction the sweep has found, and computes no address,
      leads to another such instruction or out of the code. */
  lemma TurnLands(code: Code, env: Env, s: State)
    requires WellFormed(code) && s.cip % 4 == 0 && IsStart(code, s.cip / 4) && s.cip / 4 < |code|
    requires !Computes(code, s.cip / 4) && Step(code, Relative, env, s).Next?
    ensures AtStart(code, Step(code, Relative, env, s).state)
  {
    hide WellFormed, OpOf, NeedOf, ArgAt, Width, Execute, Step, StartsFrom, Lands;
    var i := s.cip / 4;
    var op := OpOf(code[i]);
    StepExecutes(code, env, s);
    var arg := ArgAt(code, Relative, NeedOf(op), i).value;
    var t := s.(cip := Wrap(s.cip + 4 * Width(NeedOf(op))));
    if op.Jumping? {
      BehindLands(code, i);
      ExecutesJump(op, arg, env, t);
      JumpLands(code, env, s, op.jumping, arg, t);
    } else {
      ArgOfControl(code, i);
      GoesBehind(op, arg, env, t);
      BehindLands(code, i);
    }
  }

  lemma ExecutesJump(op: Op, arg: Arg, env: Env, t: State)
    requires op.Jumping?
    ensures Execute(op, arg, env, t) == ExecuteJumping(op.jumping, arg, t)
  {
  }

  lemma ArgOfControl(code: Code, i: nat)
    requires i < |code| && !Computes(code, i)
    ensures OpOf(code[i]).Memory? && OpOf(code[i]).memory.StoreControl? ==>
              ArgAt(code, Relative, NeedOf(OpOf(code[i])), i) != Some(Value(6))
    ensures OpOf(code[i]) == Special(Symbol) ==>
              var a := ArgAt(code, Relative, NeedOf(OpOf(code[i])), i);
              a.Some? ==> i + 1 < |code| && a == Some(Value(code[i + 1]))
  {
    hide OpOf;
  }

  /** What stands behind the instruction at a start. */
  lemma BehindLands(code: Code, i: nat)
    requires WellFormed(code) && IsStart(code, i) && i < |code| && Runs(code[i])
    ensures var w := 4 * i + 4 * Width(NeedOf(OpOf(code[i])));
            if OpOf(code[i]) == Special(Symbol) && i + 1 < |code|
            then Lands(code, Wrap(Wrap(w) + code[i + 1])) else Lands(code, Wrap(w))
  {
    hide OpOf, NeedOf, Width, Lands, SweepFrom, StartsFrom;
    FallsThrough(code, i);
    if OpOf(code[i]) == Special(Symbol) && i + 1 < |code| {
      SymbolIs126(code[i]);
      StartFits(code, 0, i);
      assert code[i + 1] % 4 == 0;
    }
  }

  lemma SymbolIs126(n: Cell)
    ensures OpOf(n) == Special(Symbol) ==> ShapeOf(n).Text? && NeedOf(OpOf(n)) == Cell1
  {
  }

  lemma JumpLands(code: Code, env: Env, s: State, j: JumpingOp, arg: Arg, t: State)
    requires WellFormed(code) && s.cip % 4 == 0 && IsStart(code, s.cip / 4) && s.cip / 4 < |code|
    requires OpOf(code[s.cip / 4]) == Jumping(j) && !j.CallPri? && !j.JumpPri?
    requires Some(arg) == ArgAt(code, Relative, NeedOf(Jumping(j)), s.cip / 4)
    requires t == s.(cip := Wrap(s.cip + 4 * Width(NeedOf(Jumping(j))))) && Lands(code, t.cip)
    requires ExecuteJumping(j, arg, t).Next?
    ensures Lands(code, ExecuteJumping(j, arg, t).state.cip)
  {
    hide OpOf, ExecuteJumping, SweepFrom, StartsFrom, TableAt;
    var i := s.cip / 4;
    JumpsTo(j, arg, t);
    assert AimedAt(code, i);
    if j.Switch? {
      SwitchIs129(code[i]);
      assert Linked(code) && IsStart(code, i);
      TableLands(code, code[i + 1] / 4, code[i + 1], t.pri);
    }
  }

  lemma SwitchIs129(n: Cell)
    ensures OpOf(n) == Jumping(Switch) ==> n == 129
  {
  }

  // ------------------------------------------------------------------ whole runs

  /** When the first `n` turns go on at an address that an instruction has computed, an
      instruction that the sweep has found stands there; and patched calls of `floatround`
      use a shared mode. */
  predicate Orderly(code: Code, hook: Hook, env: Env, n: nat, s: State)
    decreases n
  {
    n == 0 ||
    (&& (s.cip % 4 == 0 ==> ModeAt(code, hook, s))
     && match Step(code, Relative, env, s)
        case Next(t) =>
          && (s.cip % 4 == 0 && s.cip / 4 < |code| && Computes(code, s.cip / 4) ==> AtStart(code, t))
          && Orderly(code, hook, env, n - 1, t)
        case _ => true)
  }

  /** The turns the relocated segment takes for `n` turns of the original: one more for
      each patched call. */
  function Turns(code: Code, hook: Hook, env: Env, n: nat, s: State): (m: nat)
    ensures n <= m <= 2 * n
    decreases n
  {
    if n == 0 then 0
    else
      (if s.cip % 4 == 0 && Patched(code, hook, s.cip / 4) then 2 else 1) +
      match Step(code, Relative, env, s)
      case Next(t) => Turns(code, hook, env, n - 1, t)
      case _ => n - 1
  }

  lemma RunOne(code: Code, mode: Jumps, env: Env, n: nat, s: State)
    requires n > 0
    ensures Run(code, mode, env, n, s) ==
            match Step(code, mode, env, s)
            case Next(t) => Run(code, mode, env, n - 1, t)
            case o => o
  {
  }

  lemma RunTwo(code: Code, mode: Jumps, env: Env, n: nat, s: State)
    requires n >= 2
    ensures Run(code, mode, env, n, s) ==
            match Run(code, mode, env, 2, s)
            case Next(t) => Run(code, mode, env, n - 2, t)
            case o => o
  {
    hide Step;
    RunOne(code, mode, env, n, s);
    RunOne(code, mode, env, 2, s);
    match Step(code, mode, env, s)
    case Next(t) => RunOne(code, mode, env, n - 1, t);
    case _ =>
  }

  /** Relocation and patching preserve meaning: after any number of orderly turns the
      relocated segment is in the state, or has come to the end, that the original has,
      wherever it was loaded. */
  lemma {:induction false} RelocationPreservesMeaning(code: Code, base: Cell, hook: Hook, env: Env, n: nat, s: State)
    requires WellFormed(code) && Bound(code, hook, env) && AtStart(code, s) && Orderly(code, hook, env, n, s)
    ensures Run(Relocated(code, base, hook), Absolute(base), env, Turns(code, hook, env, n, s), s) ==
            Run(code, Relative, env, n, s)
    decreases n
  {
    hide WellFormed, Bound, Relocated, Step, AtStart, ModeAt, Patched, Computes;
    if n > 0 {
      var image := Relocated(code, base, hook);
      var m := Turns(code, hook, env, n, s);
      RunOne(code, Relative, env, n, s);
      if s.cip % 4 == 0 && Patched(code, hook, s.cip / 4) {
        PatchAgrees(code, base, hook, env, s);
        RunTwo(image, Absolute(base), env, m, s);
      } else {
        StepAgrees(code, base, hook, env, s);
        RunOne(image, Absolute(base), env, m, s);
      }
      match Step(code, Relative, env, s)
      case Next(t) =>
        GoesOn(code, env, s, t);
        RelocationPreservesMeaning(code, base, hook, env, n - 1, t);
      case _ =>
    }
  }

  lemma GoesOn(code: Code, env: Env, s: State, t: State)
    requires WellFormed(code) && AtStart(code, s) && Step(code, Relative, env, s) == Next(t)
    requires s.cip % 4 == 0 && s.cip / 4 < |code| && Computes(code, s.cip / 4) ==> AtStart(code, t)
    ensures AtStart(code, t)
  {
    hide WellFormed, Computes, Instruction;
    if !Computes(code, s.cip / 4) {
      TurnLands(code, env, s);
    }
  }
}
