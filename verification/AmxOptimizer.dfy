/** Which natives the optimizer binds, and what that means for a plugin's calls. */
module AmxOptimizer {
  import opened Wrappers
  import opened AmxOpcodes
  import opened AmxLoader
  import opened AmxMachine
  import opened AmxSimulation

  /** The index of a float native that is not bound. */
  const UNBOUND: Cell := 0xffff_ffff

  /** The name of float native `k`. */
  function NameOf(k: nat): string
    requires k < FLOAT_NATIVES
  {
    match k
    case 0 => "floatmul"
    case 1 => "floatdiv"
    case 2 => "floatadd"
    case 3 => "floatsub"
    case 4 => "float"
    case 5 => "floatround"
    case _ => "floatcmp"
  }

  /** Entry `v` is the first with the name. */
  predicate First(names: seq<string>, name: string, v: nat) {
    v < |names| && names[v] == name && forall j | 0 <= j < v :: names[j] != name
  }

  /** `amx_FindNative`: a scan of the native table. */
  method FindNative(names: seq<string>, name: string) returns (index: Option<nat>)
    ensures index.None? <==> name !in names
    ensures index.Some? ==> First(names, name, index.value)
  {
    var mid := 0;
    while mid < |names|
      invariant mid <= |names| && forall j | 0 <= j < mid :: names[j] != name
    {
      if names[mid] == name {
        return Some(mid);
      }
      mid := mid + 1;
    }
    return None;
  }

  /** The optimization level asks for float native `k`, and the processor can run it. */
  predicate Enabled(level: nat, cpu: bool, k: nat) {
    if k < 4 then level % 2 == 1 else if k < 6 then level / 4 % 2 == 1 else level / 2 % 2 == 1 && cpu
  }

  /** Index `v` is bound to float native `k`: it is the first entry with that name. */
  predicate BoundTo(names: seq<string>, level: nat, cpu: bool, k: nat, v: Cell)
    requires k < FLOAT_NATIVES
  {
    Enabled(level, cpu, k) && First(names, NameOf(k), v)
  }

  predicate Bindings(names: seq<string>, level: nat, cpu: bool, natives: seq<Cell>) {
    && |natives| == FLOAT_NATIVES
    && forall k | 0 <= k < FLOAT_NATIVES ::
         if Enabled(level, cpu, k) && NameOf(k) in names then BoundTo(names, level, cpu, k, natives[k])
         else natives[k] == UNBOUND
  }

  /** Bind the natives that the level asks for; without processor support the level
      loses its comparison bit. */
  method Setup(names: seq<string>, level: nat, cpu: bool) returns (natives: seq<Cell>, newLevel: nat)
    requires |names| < 0x8000_0000
    ensures Bindings(names, level, cpu, natives)
    ensures newLevel == if level / 2 % 2 == 1 && !cpu then level - 2 else level
  {
    hide NameOf;
    natives := seq(FLOAT_NATIVES, _ => UNBOUND);
    newLevel := level;
    var k := 0;
    while k < FLOAT_NATIVES
      invariant k <= FLOAT_NATIVES && |natives| == FLOAT_NATIVES
      invariant forall j | k <= j < FLOAT_NATIVES :: natives[j] == UNBOUND
      invariant forall j | 0 <= j < k ::
                  if Enabled(level, cpu, j) && NameOf(j) in names then BoundTo(names, level, cpu, j, natives[j])
                  else natives[j] == UNBOUND
    {
      if Enabled(level, cpu, k) {
        var index := FindNative(names, NameOf(k));
        if index.Some? {
          natives := natives[k := index.value];
        }
      }
      k := k + 1;
    }
    if level / 2 % 2 == 1 && !cpu {
      newLevel := level - 2;
    }
  }

  lemma NamesDiffer(j: nat, k: nat)
    requires j < FLOAT_NATIVES && k < FLOAT_NATIVES && j != k
    ensures NameOf(j) != NameOf(k)
  {
    if |NameOf(j)| == |NameOf(k)| {
      assert NameOf(j)[5] != NameOf(k)[5];
    }
  }

  /** A native of the plugin is patched as float native `k` exactly when it is the first
      native with that name and the level asks for it. */
  lemma PatchedByName(names: seq<string>, level: nat, cpu: bool, natives: seq<Cell>, v: Cell, k: nat)
    requires |names| < 0x8000_0000 && Bindings(names, level, cpu, natives)
    requires v < |names| && k < FLOAT_NATIVES
    ensures PatchFor(natives, v) == Some(k) <==> BoundTo(names, level, cpu, k, v)
  {
    hide NameOf, Enabled;
    var p := PatchFor(natives, v);
    if p.Some? {
      assert BoundTo(names, level, cpu, p.value, v);
      if p.value != k {
        NamesDiffer(p.value, k);
      }
    }
    if BoundTo(names, level, cpu, k, v) {
      assert NameOf(k) in names;
      assert First(names, NameOf(k), natives[k]);
      assert natives[k] == v;
    }
  }

  /** A call of native -1 would be patched exactly when some float native is not bound. */
  lemma UnboundIsPatched(names: seq<string>, level: nat, cpu: bool, natives: seq<Cell>)
    requires |names| < 0x8000_0000 && Bindings(names, level, cpu, natives)
    ensures PatchFor(natives, UNBOUND).Some? <==>
            exists k :: 0 <= k < FLOAT_NATIVES && !(Enabled(level, cpu, k) && NameOf(k) in names)
  {
    hide NameOf, Enabled;
    if PatchFor(natives, UNBOUND).Some? {
      var k := PatchFor(natives, UNBOUND).value;
      assert natives[k] == UNBOUND;
      assert !BoundTo(names, level, cpu, k, natives[k]);
    }
    if k :| 0 <= k < FLOAT_NATIVES && !(Enabled(level, cpu, k) && NameOf(k) in names) {
      assert natives[k] == UNBOUND;
    }
  }

  /** Natives with a float native's name behave as that native. */
  ghost predicate Genuine(names: seq<string>, env: Env) {
    forall v: Cell, k, s: State {:trigger env.call(v, s), NameOf(k)} ::
      0 <= k < FLOAT_NATIVES && v < |names| && names[v] == NameOf(k) ==>
        env.call(v, s) == FloatReply(env.unit, FloatOf(k), s)
  }

  /** Calls in the code name natives of the table. */
  ghost predicate CallsKnown(code: Code, names: seq<string>) {
    forall i: nat {:trigger IsStart(code, i)} |
      IsStart(code, i) && i + 1 < |code| && code[i] == 123 :: code[i + 1] < |names|
  }

  /** Binding by name patches float calls only. */
  lemma BindingIsBound(code: Code, names: seq<string>, level: nat, cpu: bool, natives: seq<Cell>, env: Env)
    requires |names| < 0x8000_0000 && Bindings(names, level, cpu, natives)
    requires Genuine(names, env) && CallsKnown(code, names)
    ensures Bound(code, Some(natives), env)
  {
    hide NameOf, Enabled, StartsFrom, FloatReply;
    forall i: nat, s: State | IsStart(code, i) && Patched(code, Some(natives), i)
      ensures BoundAt(code, Some(natives), env, i, s)
    {
      var v := code[i + 1];
      var k := PatchFor(natives, v).value;
      PatchedByName(names, level, cpu, natives, v, k);
      assert names[v] == NameOf(k);
      assert env.call(v, s) == FloatReply(env.unit, FloatOf(k), s);
    }
  }

  /** At level 0 nothing is bound, and a call of native -1 would be patched as the first
      float native. */
  method BindsNothing(names: seq<string>) returns (natives: seq<Cell>)
    requires |names| < 0x8000_0000
    ensures Bindings(names, 0, true, natives) && PatchFor(natives, UNBOUND) == Some(0)
  {
    hide NameOf;
    var level;
    natives, level := Setup(names, 0, true);
    assert !Enabled(0, true, 0);
    assert natives[0] == UNBOUND;
    var k := PatchFor(natives, UNBOUND).value;
    assert k == 0;
  }
}
