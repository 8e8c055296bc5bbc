/** The host's side of a call into a plugin: `amx_Push` and the ends of `amx_Exec`. */
module AmxHost {
  import opened AmxOpcodes
  import opened AmxMachine
  import opened AmxExec

  /** The machine as `amx_Exec` starts it: the byte count of the parameters and a zero
      return address pushed on top of them. */
  function Entered(stk: Cell, hea: Cell, entry: Cell, count: nat, data: Data, host: nat): Outcome {
    match Pushed(State(0, 0, 0, stk, hea, entry, data, host), Wrap(4 * count))
    case Next(s) =>
      (match Pushed(s, 0)
       case Next(t) => if Collides(t) then Halted(Unsafe(ERR_STACKERR), t) else Next(t)
       case o => o)
    case o => o
  }

  class Host {
    const code: seq<Cell>
    const base: Cell
    const env: Env
    var stk: Cell
    var hea: Cell
    var paramcount: nat
    var data: Data
    var host: nat

    predicate Valid()
      reads this
    {
      && 4 * |code| < 0x8000_0000 && 4 * |data| < 0x8000_0000
      && env.hlw <= hea < 0x7fff_0000 && stk % 4 == 0
      && env.stp < 4 * |data| && stk + 4 * paramcount <= env.stp
    }

    /** Where the stack pointer was before the parameters were pushed. */
    function Level(): int
      reads this
    {
      stk + 4 * paramcount
    }

    constructor (code: seq<Cell>, base: Cell, env: Env, data: Data, host: nat)
      requires 4 * |code| < 0x8000_0000 && 4 * |data| < 0x8000_0000
      requires env.hlw < 0x7fff_0000 && env.stp % 4 == 0 && env.stp < 4 * |data|
      ensures Valid() && Level() == stk == env.stp && hea == env.hlw && paramcount == 0
      ensures this.code == code && this.base == base && this.env == env && this.data == data && this.host == host
    {
      this.code, this.base, this.env, this.data, this.host := code, base, env, data, host;
      hea, stk, paramcount := env.hlw, env.stp, 0;
    }

    /** Push one parameter, unless heap and stack are about to meet. */
    method Push(value: Cell) returns (err: Cell)
      requires Valid()
      modifies this`stk, this`paramcount, this`data
      ensures Valid() && hea == old(hea) && Level() == old(Level())
      ensures err == if old(hea) + STKMARGIN > old(stk) then ERR_STACKERR else ERR_NONE
      ensures err != ERR_NONE ==> (stk, paramcount, data) == old((stk, paramcount, data))
      ensures err == ERR_NONE ==>
                && paramcount == old(paramcount) + 1
                && Mapped(data, stk) && data == Poke(old(data), stk, value)
    {
      if hea + STKMARGIN > stk {
        return ERR_STACKERR;
      }
      stk := stk - 4;
      paramcount := paramcount + 1;
      data := data[stk / 4 := value];
      err := ERR_NONE;
    }

    /** Run the function at `entry` for at most `turns` turns. An abort, which is how a
        plugin's HALT ends, puts the stack pointer back to where it was before the
        parameters were pushed, and the heap pointer to where it was. */
    method Exec(entry: Cell, turns: nat) returns (r: Ending, pri: Cell)
      requires Valid()
      modifies this
      ensures paramcount == 0
      ensures var o := match old(Entered(stk, hea, entry, paramcount, data, host))
                       case Next(s) => Run(code, Absolute(base), env, turns, s)
                       case o => o;
              match o
              case Next(s) => r == Going && data == s.data && host == s.host
              case Halted(how, s) => r == Ended(how) && data == s.data && host == s.host && pri == s.pri
              case Undefined => r == Lost
      ensures r.Ended? && r.how.Abort? ==> stk == old(Level()) && hea == old(hea)
    {
      var resetStk := stk + 4 * paramcount;
      var resetHea := hea;
      var amx := new Amx(code, base, env, State(0, 0, 0, stk, hea, entry, data, host));
      r := amx.PushCell(Wrap(4 * paramcount));
      paramcount := 0;
      if r.Going? {
        r := amx.PushCell(0);
      }
      if r.Going? {
        if Collides(amx.View()) {
          r := Ended(Unsafe(ERR_STACKERR));
        } else {
          r := amx.Exec(turns);
        }
      }
      data, host, pri := amx.data, amx.host, amx.pri;
      if r.Ended? && r.how.Abort? {
        stk, hea := resetStk, resetHea;
      }
    }
  }
}
