/** `amx_BrowseRelocate`: the sweep over a code segment that makes its jump
    addresses absolute and patches calls of the float natives. */
module AmxLoader {
  import opened Wrappers
  import opened AmxOpcodes

  type Code = seq<Cell>

  const FLOAT_NATIVES: nat := 7

  // -------------------------------------------------- the shape of a segment

  /** The number of cells of the instruction at word `i`, when they can be counted. */
  function Length(code: Code, i: nat): (n: Option<nat>)
    requires i < |code|
    ensures n.Some? ==> n.value > 0 && i + n.value <= |code|
  {
    match ShapeOf(code[i])
    case Unknown => None
    case Plain(k) => Within(code, i, 1 + k)
    case Jumps => Within(code, i, 2)
    case Native => Within(code, i, 2)
    case Text =>
      if i + 1 < |code| && Signed(code[i + 1]) >= 0 && code[i + 1] % 4 == 0
      then Within(code, i, 2 + code[i + 1] / 4) else None
    case Cases =>
      if i + 1 < |code| && Signed(code[i + 1]) >= 0
      then Within(code, i, 3 + 2 * (code[i + 1] as int)) else None
  }

  function Within(code: Code, i: nat, n: nat): Option<nat> {
    if i + n <= |code| then Some(n) else None
  }

  datatype Sweep = Clean | Unknown(at: nat) | Ragged(at: nat)

  /** What a sweep from word `i` meets: the end of the segment, an opcode it does not
      know, or an instruction that does not end inside the segment. */
  function SweepFrom(code: Code, i: nat): Sweep
    requires i <= |code|
    decreases |code| - i
  {
    if i == |code| then Clean
    else if ShapeOf(code[i]).Unknown? then Sweep.Unknown(i)
    else match Length(code, i)
         case None => Ragged(i)
         case Some(n) => SweepFrom(code, i + n)
  }

  /** Whether an instruction starts at word `j`, seen from the one at word `i`. */
  predicate StartsFrom(code: Code, i: nat, j: nat)
    requires i <= |code|
    decreases |code| - i
  {
    || (i == j && i < |code|)
    || (i < |code| && Length(code, i).Some? && StartsFrom(code, i + Length(code, i).value, j))
  }

  predicate IsStart(code: Code, j: nat) {
    StartsFrom(code, 0, j)
  }

  /** The start of the instruction that covers word `j`, seen from the one at `i`. */
  function Cover(code: Code, i: nat, j: nat): (c: nat)
    requires i <= j < |code|
    ensures i <= c <= j
    decreases |code| - i
  {
    match Length(code, i)
    case None => i
    case Some(n) => if j < i + n then i else Cover(code, i + n, j)
  }

  // ----------------------------------------------------- what a sweep writes

  /** The first float native bound to index `v`. */
  function PatchFor(natives: seq<Cell>, v: Cell): (k: Option<nat>)
    requires |natives| == FLOAT_NATIVES
    ensures k.None? <==> v !in natives
    ensures k.Some? ==> k.value < FLOAT_NATIVES && natives[k.value] == v
    ensures k.Some? ==> forall j | 0 <= j < k.value :: natives[j] != v
  {
    FirstFrom(natives, v, 0)
  }

  function FirstFrom(natives: seq<Cell>, v: Cell, i: nat): (k: Option<nat>)
    requires i <= |natives| && forall j | 0 <= j < i :: natives[j] != v
    ensures k.None? <==> v !in natives
    ensures k.Some? ==> k.value < |natives| && natives[k.value] == v
    ensures k.Some? ==> forall j | 0 <= j < k.value :: natives[j] != v
    decreases |natives| - i
  {
    if i == |natives| then None else if natives[i] == v then Some(i) else FirstFrom(natives, v, i + 1)
  }

  /** The browse hook: absent, or bound to the indices of the float natives. */
  type Hook = h: Option<seq<Cell>> | h.Some? ==> |h.value| == FLOAT_NATIVES witness None

  function PatchOf(hook: Hook, v: Cell): Option<nat> {
    if hook.Some? then PatchFor(hook.value, v) else None
  }

  /** Word `j` of the instruction at `i`, after the sweep. */
  function Swept(code: Code, base: Cell, hook: Hook, i: nat, j: nat): Cell
    requires i <= j < |code|
  {
    match ShapeOf(code[i])
    case Jumps => if j == i + 1 then Wrap(code[j] + base) else code[j]
    case Cases => if j >= i + 2 && (j - i) % 2 == 0 then Wrap(code[j] + base) else code[j]
    case Native =>
      if i + 1 < |code| && PatchOf(hook, code[i + 1]).Some? then
        if j == i then FLOAT_MUL + PatchOf(hook, code[i + 1]).value
        else if j == i + 1 then NOP else code[j]
      else code[j]
    case _ => code[j]
  }

  /** The image a sweep of the first `n` words leaves. */
  function Image(code: Code, base: Cell, hook: Hook, n: nat): Code
    requires n <= |code|
  {
    seq(|code|, j requires 0 <= j < |code| =>
      if j < n then Swept(code, base, hook, Cover(code, 0, j), j) else code[j])
  }

  /** The relocated segment. */
  function Relocated(code: Code, base: Cell, hook: Hook): Code {
    Image(code, base, hook, |code|)
  }

  // --------------------------------------------------------------- the sweep

  /** A sweep that has reached word `i`. */
  ghost predicate Reached(code: Code, i: nat) {
    && i <= |code|
    && SweepFrom(code, i) == SweepFrom(code, 0)
    && (i < |code| ==> IsStart(code, i))
    && (forall j | i <= j < |code| :: Cover(code, 0, j) == Cover(code, i, j))
    && (forall j | i <= j :: StartsFrom(code, i, j) == IsStart(code, j))
  }

  lemma ReachedStart(code: Code)
    ensures Reached(code, 0)
  {
  }

  lemma ReachedNext(code: Code, i: nat)
    requires Reached(code, i) && i < |code| && Length(code, i).Some?
    ensures Reached(code, i + Length(code, i).value)
    ensures forall j | i <= j < i + Length(code, i).value :: Cover(code, 0, j) == i
  {
    var n := Length(code, i).value;
    var next := i + n;
    forall j | next <= j < |code| ensures Cover(code, 0, j) == Cover(code, next, j) {
      assert Cover(code, i, j) == Cover(code, next, j);
    }
    forall j | next <= j ensures StartsFrom(code, next, j) == IsStart(code, j) {
      assert StartsFrom(code, i, j) == StartsFrom(code, next, j);
    }
    if next < |code| {
      assert StartsFrom(code, next, next);
    }
  }

  /** Writing one instruction as the sweep should, on top of the image before it. */
  lemma ImageNext(code: Code, base: Cell, hook: Hook, i: nat, now: Code)
    requires Reached(code, i) && i < |code| && Length(code, i).Some?
    requires |now| == |code|
    requires forall j | 0 <= j < |code| ::
               now[j] == if i <= j < i + Length(code, i).value then Swept(code, base, hook, i, j)
                         else Image(code, base, hook, i)[j]
    ensures now == Image(code, base, hook, i + Length(code, i).value)
  {
    hide Length, Swept;
    ReachedNext(code, i);
    var next := i + Length(code, i).value;
    var image := Image(code, base, hook, next);
    forall j | 0 <= j < |code| ensures now[j] == image[j] {
      if j < i {
        assert now[j] == Swept(code, base, hook, Cover(code, 0, j), j);
      } else if j < next {
        assert Cover(code, 0, j) == i;
      }
    }
  }

  /** The hook: patch the call whose operand is at word `at`, if it names a float native. */
  method OnBrowseRelocate(code: array<Cell>, natives: seq<Cell>, at: nat)
    requires |natives| == FLOAT_NATIVES && 0 < at < code.Length
    modifies code
    ensures var k := PatchFor(natives, old(code[at]));
            code[..] == if k.None? then old(code[..])
                        else old(code[..])[at - 1 := FLOAT_MUL + k.value][at := NOP]
  {
    var offs := code[at];
    var i := 0;
    while i < FLOAT_NATIVES && natives[i] != offs
      invariant i <= FLOAT_NATIVES && forall j | 0 <= j < i :: natives[j] != offs
      modifies {}
    {
      i := i + 1;
    }
    if i < FLOAT_NATIVES {
      assert forall j | 0 <= j < i :: natives[j] != offs;
      code[at - 1] := FLOAT_MUL + i;
      code[at] := NOP;
    }
  }

  /** The addresses of a case table: its fallback, then one beside each of its values. */
  method RelocateCases(code: array<Cell>, base: Cell, at: nat, num: nat)
    requires at + 2 * num + 1 <= code.Length
    modifies code
    ensures forall j | 0 <= j < code.Length ::
              code[j] == if at <= j < at + 2 * num + 1 && (j - at) % 2 == 0
                         then Wrap(old(code[j]) + base) else old(code[j])
  {
    for i := 0 to num + 1
      invariant forall j | 0 <= j < code.Length ::
                  code[j] == if at <= j < at + 2 * i && (j - at) % 2 == 0
                             then Wrap(old(code[j]) + base) else old(code[j])
      modifies code
    {
      code[at + 2 * i] := Wrap(code[at + 2 * i] + base);
    }
  }

  /** One turn of the sweep. */
  method SweepOne(code: array<Cell>, base: Cell, hook: Hook, at: nat, ghost src: Code)
    returns (known: bool, next: nat)
    requires |src| == code.Length && at < code.Length
    requires forall j | at <= j < |src| :: code[j] == src[j]
    requires ShapeOf(src[at]).Unknown? || Length(src, at).Some?
    modifies code
    ensures known == !ShapeOf(src[at]).Unknown?
    ensures !known ==> code[..] == old(code[..])
    ensures known ==>
              && at < next == at + Length(src, at).value <= code.Length
              && forall j | 0 <= j < code.Length ::
                   code[j] == if at <= j < next then Swept(src, base, hook, at, j) else old(code[j])
  {
    hide Wrap, TakesOne, TakesNone;
    var op := code[at];
    if op >= 256 {
      SmallOpcodes(op);
      return false, at;
    }
    next := at + 1;
    if op == 123 {
      if hook.Some? {
        OnBrowseRelocate(code, hook.value, next);
      }
      next := next + 1;
    } else if op == 49 || op == 51 || 53 <= op <= 64 || op == 129 {
      code[next] := Wrap(code[next] + base);
      next := next + 1;
    } else if op == 124 || op == 126 {
      next := next + 1 + code[next] / 4;
    } else if op == 125 || op == 127 {
      next := next + 2;
    } else if op == 130 {
      var num: int := code[next];
      next := next + 1;
      RelocateCases(code, base, next, num);
      next := next + 2 * num + 1;
    } else if TakesOne(op) || op == 136 {
      next := next + 1;
    } else if !TakesNone(op) {
      return false, at;
    }
    return true, next;
  }

  lemma SmallOpcodes(n: Cell)
    ensures n >= 256 ==> ShapeOf(n).Unknown?
  {
  }

  /** The loader's sweep. */
  method BrowseRelocate(code: array<Cell>, base: Cell, hook: Hook) returns (err: Cell)
    requires !SweepFrom(code[..], 0).Ragged?
    modifies code
    ensures SweepFrom(old(code[..]), 0).Clean? ==>
              err == ERR_NONE && code[..] == Relocated(old(code[..]), base, hook)
    ensures SweepFrom(old(code[..]), 0).Unknown? ==>
              err == ERR_INVINSTR && SweepFrom(old(code[..]), 0).at <= code.Length &&
              code[..] == Image(old(code[..]), base, hook, SweepFrom(old(code[..]), 0).at)
  {
    hide Length, Swept, ShapeOf, PatchOf, Cover, StartsFrom, Wrap;
    ghost var src := code[..];
    var cip := 0;
    assert Image(src, base, hook, 0) == src;
    ReachedStart(src);
    while cip < code.Length
      invariant cip <= code.Length && Reached(src, cip)
      invariant code[..] == Image(src, base, hook, cip)
      decreases code.Length - cip
      modifies code
    {
      ghost var i := cip;
      ghost var before := code[..];
      assert forall j | i <= j < |src| :: before[j] == src[j];
      var known, next := SweepOne(code, base, hook, cip, src);
      if !known {
        return ERR_INVINSTR;
      }
      ReachedNext(src, i);
      ImageNext(src, base, hook, i, code[..]);
      cip := next;
    }
    return ERR_NONE;
  }
}
