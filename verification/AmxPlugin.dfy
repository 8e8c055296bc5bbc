/** Loader, optimizer and interpreter together. */
module AmxPlugin {
  import opened Wrappers
  import opened AmxOpcodes
  import opened AmxLoader
  import opened AmxMachine
  import opened AmxSimulation
  import opened AmxOptimizer
  import opened AmxExec

  /** A plugin's code is bound, relocated and run. After as many turns as stand for `n`
      turns of the original code, the machine is where the original code, read relative
      to its start, would be after `n`. */
  method LoadAndRun(code: array<Cell>, base: Cell, names: seq<string>, level: nat, cpu: bool, env: Env, n: nat, s: State)
    returns (r: Ending, amx: Amx)
    requires WellFormed(code[..]) && |names| < 0x8000_0000 && AtStart(code[..], s)
    requires Genuine(names, env) && CallsKnown(code[..], names)
    requires forall natives | Bindings(names, level, cpu, natives) :: Orderly(code[..], Some(natives), env, n, s)
    modifies code
    ensures Came(r, amx.View()) == Run(old(code[..]), Relative, env, n, s)
  {
    hide Genuine, CallsKnown, Bound, Bindings, Orderly, Turns, Run, Relocated, StartsFrom, Linked;
    ghost var src := code[..];
    var natives, newLevel := Setup(names, level, cpu);
    BindingSize(names, level, cpu, natives);
    var turns := Turns(code[..], Some(natives), env, n, s);
    BindingIsBound(src, names, level, cpu, natives, env);
    var err := BrowseRelocate(code, base, Some(natives));
    Size(src, base, Some(natives));
    RelocationPreservesMeaning(src, base, Some(natives), env, n, s);
    amx := new Amx(code[..], base, env, s);
    r := amx.Exec(turns);
  }

  lemma BindingSize(names: seq<string>, level: nat, cpu: bool, natives: seq<Cell>)
    requires Bindings(names, level, cpu, natives)
    ensures |natives| == FLOAT_NATIVES
  {
  }
}
