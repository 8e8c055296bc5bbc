/** The registry of single-plugin forwards: slots that are handed out by id, given back
    to a stack of free ids, and deleted late when they are given back while running. */
module Forwards {
  import opened Wrappers

  /** A slot; `target` is the public function, when there is one. */
  datatype Forward = Forward(target: Option<nat>, inExec: bool, toDelete: bool, isFree: bool)

  /** The id of slot `j`: the low bit marks single-plugin forwards. */
  function Id(j: nat): int {
    2 * j + 1
  }

  /** An id of one of `n` slots. */
  predicate IsId(id: int, n: nat) {
    id % 2 == 1 && 0 <= id / 2 < n
  }

  /** Slots, free ids (top of the stack last), the ids handed out and not given back, and
      the ids whose functions are running (innermost last). */
  datatype Registry = Registry(slots: seq<Forward>, freeIds: seq<int>, held: set<int>, chain: seq<int>)

  /** What a slot's flags say about who has its id. */
  predicate Accounted(r: Registry, j: nat)
    requires j < |r.slots|
  {
    var f := r.slots[j];
    && (Id(j) in r.held ==> !f.isFree && !f.toDelete && f.target.Some?)
    && (Id(j) in r.freeIds ==> !f.toDelete && !f.inExec && (f.isFree || f.target.None?))
    && (f.toDelete ==> f.inExec && !f.isFree)
    && (f.toDelete <==> Id(j) !in r.held && Id(j) !in r.freeIds)
    && (f.inExec ==> Id(j) in r.chain)
  }

  /** Every slot is free, held by one client, or waiting for its execution to return; the
      free ids do not repeat and are nobody's. */
  ghost predicate Sound(r: Registry) {
    && (forall i, j | 0 <= i < j < |r.freeIds| :: r.freeIds[i] != r.freeIds[j])
    && (forall id | id in r.freeIds :: IsId(id, |r.slots|) && id !in r.held)
    && (forall id | id in r.held :: IsId(id, |r.slots|))
    && (forall j {:trigger Accounted(r, j)} | 0 <= j < |r.slots| :: Accounted(r, j))
    && (forall id | id in r.chain :: IsId(id, |r.slots|))
  }

  /** With nothing running, every id is either free or held: none is lost. */
  lemma AtRest(r: Registry)
    requires Sound(r) && r.chain == []
    ensures forall j | 0 <= j < |r.slots| :: Id(j) in r.held <==> Id(j) !in r.freeIds
  {
    forall j | 0 <= j < |r.slots| ensures Id(j) in r.held <==> Id(j) !in r.freeIds {
      assert Accounted(r, j);
    }
  }

  // ------------------------------------------------------------- the operations

  /** One slot changes; ids that are none change nothing. */
  function Updated(slots: seq<Forward>, id: int, f: Forward): (r: seq<Forward>)
    ensures |r| == |slots|
  {
    if IsId(id, |slots|) then slots[id / 2 := f] else slots
  }

  function SlotOf(r: Registry, id: int): Forward {
    if IsId(id, |r.slots|) then r.slots[id / 2] else Forward(None, false, false, true)
  }

  /** The id that a registration gets: the top of the free stack, else a new slot's. */
  function NextId(r: Registry): int {
    if r.freeIds != [] then r.freeIds[|r.freeIds| - 1] else Id(|r.slots|)
  }

  /** A registration. A name that is no public function overwrites the slot on top of the
      free stack, and leaves its id there. */
  function Registered(r: Registry, target: Option<nat>): Registry {
    var f := Forward(target, false, false, false);
    var id := NextId(r);
    if target.None? then r.(slots := if r.freeIds != [] then Updated(r.slots, id, f) else r.slots)
    else if r.freeIds != [] then
      Registry(Updated(r.slots, id, f), r.freeIds[..|r.freeIds| - 1], r.held + {id}, r.chain)
    else r.(slots := r.slots + [f], held := r.held + {id})
  }

  /** A held id is given back: at once, or when its running execution returns. */
  function Unregistered(r: Registry, id: int): Registry {
    var f := SlotOf(r, id);
    if f.isFree then r.(held := r.held - {id})
    else if f.inExec then r.(slots := Updated(r.slots, id, f.(toDelete := true)), held := r.held - {id})
    else Registry(Updated(r.slots, id, f.(isFree := true)), r.freeIds + [id], r.held - {id}, r.chain)
  }

  /** Whether an execution calls the function. */
  predicate Runs(r: Registry, id: int, executable: bool) {
    var f := SlotOf(r, id);
    !f.isFree && f.target.Some? && !f.toDelete && executable
  }

  function Begun(r: Registry, id: int): Registry {
    r.(slots := Updated(r.slots, id, SlotOf(r, id).(inExec := true)), chain := r.chain + [id])
  }

  /** The registry when the innermost execution, of `id`, has returned: a deletion that had
      been put off happens now. */
  function Left(r: Registry, id: int): Registry {
    var f := SlotOf(r, id);
    var up := if r.chain == [] then [] else r.chain[..|r.chain| - 1];
    if f.toDelete
    then Registry(Updated(r.slots, id, f.(inExec := false, toDelete := false, isFree := true)), r.freeIds + [id], r.held, up)
    else r.(slots := Updated(r.slots, id, f.(inExec := false)), chain := up)
  }

  // ------------------------------------------------- what keeps a registry sound

  lemma SameSlot(id: int, j: nat)
    requires id % 2 == 1 && id >= 0
    ensures Id(j) == id <==> j == id / 2
  {
  }

  /** A new id is nobody's, and it is an id. */
  lemma Register(r: Registry, target: Option<nat>)
    requires Sound(r)
    ensures Sound(Registered(r, target)) && NextId(r) !in r.held
    ensures target.Some? ==> IsId(NextId(r), |Registered(r, target).slots|) && NextId(r) in Registered(r, target).held
  {
    var id := NextId(r);
    var r' := Registered(r, target);
    if r.freeIds != [] {
      assert id in r.freeIds;
      assert r.freeIds == r.freeIds[..|r.freeIds| - 1] + [id];
      if target.Some? {
        forall x | x in r'.freeIds ensures x in r.freeIds && x != id {
          var i :| 0 <= i < |r'.freeIds| && r.freeIds[i] == x;
        }
      }
    } else {
      assert !IsId(id, |r.slots|);
    }
    SameSlot(id, id / 2);
    forall j | 0 <= j < |r'.slots| ensures Accounted(r', j) {
      if j < |r.slots| {
        assert Accounted(r, j);
      }
      SameSlot(id, j);
    }
  }

  lemma GiveBack(r: Registry, id: int)
    requires Sound(r) && id in r.held
    ensures Sound(Unregistered(r, id)) && !SlotOf(r, id).isFree
  {
    SameSlot(id, id / 2);
    assert Accounted(r, id / 2);
    var r' := Unregistered(r, id);
    forall j | 0 <= j < |r.slots| ensures Accounted(r', j) {
      assert Accounted(r, j);
      SameSlot(id, j);
    }
  }

  lemma Enter(r: Registry, id: int, executable: bool)
    requires Sound(r) && IsId(id, |r.slots|) && Runs(r, id, executable)
    ensures Sound(Begun(r, id)) && id !in r.freeIds
  {
    var r' := Begun(r, id);
    SameSlot(id, id / 2);
    assert Accounted(r, id / 2);
    forall j | 0 <= j < |r.slots| ensures Accounted(r', j) {
      assert Accounted(r, j);
      SameSlot(id, j);
    }
  }

  lemma Leave(r: Registry, id: int)
    requires Sound(r) && r.chain != [] && r.chain[|r.chain| - 1] == id
    ensures IsId(id, |r.slots|) && Sound(Left(r, id))
  {
    assert id in r.chain;
    var r' := Left(r, id);
    assert r.chain == r'.chain + [id];
    SameSlot(id, id / 2);
    assert Accounted(r, id / 2);
    forall j | 0 <= j < |r.slots| ensures Accounted(r', j) {
      assert Accounted(r, j);
      SameSlot(id, j);
    }
  }

  /** The forward of whoever holds an id runs exactly when its plugin is not paused. */
  lemma HolderRuns(r: Registry, id: int, executable: bool)
    requires Sound(r) && id in r.held
    ensures IsId(id, |r.slots|) && (Runs(r, id, executable) <==> executable)
  {
    SameSlot(id, id / 2);
    assert Accounted(r, id / 2);
  }

  /** A slot waits to be deleted only while it runs, and nobody holds it. */
  lemma Pending(r: Registry, id: int)
    requires Sound(r) && IsId(id, |r.slots|) && r.slots[id / 2].toDelete
    ensures id !in r.held && r.slots[id / 2].inExec && !r.slots[id / 2].isFree
  {
    assert Accounted(r, id / 2);
    SameSlot(id, id / 2);
  }

  // ---------------------------------------------------- free ids that are running

  /** An id is free although its function is running. */
  predicate FreeRunning(r: Registry, id: int) {
    id in r.freeIds && id in r.chain
  }

  /** Giving an id back frees it while it runs exactly when it is running but not marked
      so, as after a nested run of it. */
  lemma UnregisterFrees(r: Registry, id: int, x: int)
    requires Sound(r) && id in r.held
    ensures FreeRunning(Unregistered(r, id), x) <==>
            FreeRunning(r, x) || (x == id && id in r.chain && !SlotOf(r, id).inExec)
  {
    GiveBack(r, id);
  }

  /** Returning frees an id that still runs exactly when its deletion had been put off and
      it runs further out as well. */
  lemma ReturnFrees(r: Registry, x: int)
    requires Sound(r) && r.chain != []
    ensures var id, out := r.chain[|r.chain| - 1], r.chain[..|r.chain| - 1];
            FreeRunning(Left(r, id), x) <==> x in out && (x in r.freeIds || (x == id && SlotOf(r, id).toDelete))
  {
  }

  /** A registration frees nothing. */
  lemma RegisterFrees(r: Registry, target: Option<nat>, x: int)
    requires Sound(r)
    ensures FreeRunning(Registered(r, target), x) <==> FreeRunning(r, x) && !(target.Some? && x == NextId(r))
  {
    if r.freeIds != [] {
      assert r.freeIds == r.freeIds[..|r.freeIds| - 1] + [NextId(r)];
      assert NextId(r) in r.freeIds;
    }
    Register(r, target);
  }

  /** Nor does a call. */
  lemma CallFrees(r: Registry, id: int, executable: bool, x: int)
    requires Sound(r) && IsId(id, |r.slots|) && Runs(r, id, executable)
    ensures FreeRunning(Begun(r, id), x) <==> FreeRunning(r, x)
  {
    Enter(r, id, executable);
  }

  /** No function is running twice, and those that run are marked so. */
  predicate RunsOnce(r: Registry) {
    && (forall i, j | 0 <= i < j < |r.chain| :: r.chain[i] != r.chain[j])
    && (forall id | id in r.chain :: SlotOf(r, id).inExec)
  }

  /** While that is so no running id is free, and it stays so under every operation that
      does not call a function that is running. */
  lemma RunsOnceApart(r: Registry, x: int)
    requires Sound(r) && RunsOnce(r)
    ensures !FreeRunning(r, x)
  {
    if x in r.chain {
      assert Accounted(r, x / 2);
      SameSlot(x, x / 2);
    }
  }

  lemma RunsOnceRegister(r: Registry, target: Option<nat>)
    requires Sound(r) && RunsOnce(r)
    ensures RunsOnce(Registered(r, target))
  {
    var id := NextId(r);
    RunsOnceApart(r, id);
    Register(r, target);
    assert r.freeIds != [] ==> id in r.freeIds;
    forall x | x in r.chain ensures SlotOf(Registered(r, target), x).inExec {
      SameSlot(x, id / 2);
      SameSlot(x, x / 2);
    }
  }

  lemma RunsOnceUnregister(r: Registry, id: int)
    requires Sound(r) && RunsOnce(r) && id in r.held
    ensures RunsOnce(Unregistered(r, id))
  {
    forall x | x in r.chain ensures SlotOf(Unregistered(r, id), x).inExec {
      SameSlot(x, id / 2);
    }
  }

  lemma RunsOnceCall(r: Registry, id: int, executable: bool)
    requires Sound(r) && RunsOnce(r) && IsId(id, |r.slots|) && Runs(r, id, executable)
    ensures RunsOnce(Begun(r, id)) <==> id !in r.chain
  {
    var r' := Begun(r, id);
    forall x | x in r.chain ensures SlotOf(r', x).inExec {
      SameSlot(x, id / 2);
    }
    if id in r.chain {
      var i :| 0 <= i < |r.chain| && r.chain[i] == id;
      assert r'.chain[i] == r'.chain[|r.chain|];
    }
  }

  lemma RunsOnceReturn(r: Registry)
    requires Sound(r) && RunsOnce(r) && r.chain != []
    ensures RunsOnce(Left(r, r.chain[|r.chain| - 1]))
  {
    var n := |r.chain| - 1;
    var top := r.chain[n];
    assert top in r.chain;
    var r' := Left(r, top);
    forall x | x in r'.chain ensures SlotOf(r', x).inExec {
      var i :| 0 <= i < n && r.chain[i] == x;
      assert x in r.chain;
      SameSlot(x, top / 2);
      SameSlot(top, top / 2);
      SameSlot(x, x / 2);
    }
  }

  // ------------------------------------------------------------------ the manager

  class CForwardMngr {
    var slots: seq<Forward>
    var freeIds: seq<int>
    ghost var held: set<int>
    ghost var chain: seq<int>

    ghost function View(): Registry
      reads this
    {
      Registry(slots, freeIds, held, chain)
    }

    ghost predicate Valid()
      reads this
    {
      Sound(View())
    }

    constructor ()
      ensures Valid() && View() == Registry([], [], {}, [])
    {
      slots, freeIds, held, chain := [], [], {}, [];
    }

    predicate IsIdValid(id: int)
      reads this
    {
      IsId(id, |slots|)
    }

    /** Hand out an id, or -1 for a name that is no public function. */
    method RegisterSPForward(target: Option<nat>) returns (id: int)
      requires Valid()
      modifies this
      ensures Valid() && View() == Registered(old(View()), target)
      ensures id == if target.Some? then NextId(old(View())) else -1
      ensures target.Some? ==> id !in old(held) && id in held && IsIdValid(id) && id >= 0
    {
      hide Sound;
      Register(View(), target);
      FreeIsId(View());
      var f := Forward(target, false, false, false);
      if freeIds != [] {
        id := freeIds[|freeIds| - 1];
        slots := slots[id / 2 := f];
        if target.None? {
          return -1;
        }
        freeIds := freeIds[..|freeIds| - 1];
      } else {
        id := Id(|slots|);
        if target.None? {
          return -1;
        }
        slots := slots + [f];
      }
      held := held + {id};
    }

    /** Give a held id back. */
    method UnregisterSPForward(id: int)
      requires Valid() && id in held
      modifies this
      ensures Valid() && View() == Unregistered(old(View()), id)
    {
      hide Sound;
      GiveBack(View(), id);
      HolderRuns(View(), id, true);
      Free(id);
    }

    /** What `unregisterSPForward` does with a slot that is not free. */
    method Free(id: int)
      requires IsIdValid(id) && !slots[id / 2].isFree
      modifies this
      ensures View() == Unregistered(old(View()), id)
    {
      held := held - {id};
      var f := slots[id / 2];
      if f.inExec {
        slots := slots[id / 2 := f.(toDelete := true)];
      } else {
        slots := slots[id / 2 := f.(isFree := true)];
        freeIds := freeIds + [id];
      }
    }

    /** The start of an execution: whether the function is called at all. */
    method Begin(id: int, executable: bool) returns (runs: bool)
      requires Valid() && IsIdValid(id)
      modifies this
      ensures Valid() && runs == Runs(old(View()), id, executable)
      ensures View() == if runs then Begun(old(View()), id) else old(View())
    {
      hide Sound;
      var f := slots[id / 2];
      runs := !f.isFree && f.target.Some? && !f.toDelete && executable;
      if runs {
        Enter(View(), id, executable);
        slots := slots[id / 2 := f.(inExec := true)];
        chain := chain + [id];
      }
    }

    /** The end of an execution: when its function was called it is not running any more,
        and a deletion that had been put off frees the id, once. */
    method End(id: int, ran: bool)
      requires Valid() && IsIdValid(id) && (ran ==> chain != [] && chain[|chain| - 1] == id)
      modifies this
      ensures Valid() && View() == if ran then Left(old(View()), id) else old(View())
    {
      hide Sound;
      ghost var before := View();
      if ran {
        slots := slots[id / 2 := slots[id / 2].(inExec := false)];
        chain := chain[..|chain| - 1];
        Leave(before, id);
      }
      if slots[id / 2].toDelete {
        Pending(before, id);
        slots := slots[id / 2 := slots[id / 2].(toDelete := false)];
        Free(id);
      }
      assert slots == if ran then Left(before, id).slots else before.slots;
      assert held == before.held;
    }
  }

  lemma FreeIsId(r: Registry)
    requires Sound(r)
    ensures r.freeIds != [] ==> IsId(NextId(r), |r.slots|)
  {
    assert r.freeIds != [] ==> NextId(r) in r.freeIds;
  }

  /** A function that runs itself again, returns, and only then is unregistered: the id is
      free while the outer run is still going on. */
  method ReentrantRun() returns (m: CForwardMngr, id: int)
    ensures m.Valid() && FreeRunning(m.View(), id)
  {
    hide Sound;
    m := new CForwardMngr();
    id := m.RegisterSPForward(Some(0));
    HolderRuns(m.View(), id, true);
    var outer := m.Begin(id, true);
    HolderRuns(m.View(), id, true);
    var inner := m.Begin(id, true);
    m.End(id, inner);
    UnregisterFrees(m.View(), id, id);
    m.UnregisterSPForward(id);
  }
}
