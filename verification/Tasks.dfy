/** The task scheduler, with callbacks that call back into it. */
module Tasks {
  import opened Wrappers
  import opened Forwards
  import opened TaskBooks
  import opened TaskRules
  import opened TaskFrames

  /** How many tasks a descriptor matches. */
  function Matching(ts: seq<Task>, id: int, from: Option<nat>): nat {
    if ts == [] then 0
    else Matching(ts[..|ts| - 1], id, from) + if Described(ts[|ts| - 1], id, from) then 1 else 0
  }

  class CTaskMngr {
    const fm: CForwardMngr
    var tasks: seq<Task>
    var now: real
    /** The forward ids that other clients hold. */
    var clients: set<int>
    ghost var serials: seq<nat>
    ghost var lives: map<nat, Life>
    ghost var count: nat
    ghost var ids: map<int, nat>

    ghost function View(): World
      reads this
    {
      World(tasks, serials, lives, count, ids, clients)
    }

    ghost function Whole(): State
      reads this, fm
    {
      State(fm.View(), View(), now)
    }

    ghost predicate Valid()
      reads this, fm
    {
      Good(Whole())
    }

    constructor ()
      ensures Valid() && fresh(fm) && Whole() == Fresh()
    {
      fm := new CForwardMngr();
      tasks, now, clients := [], 0.0, {};
      serials, lives, count, ids := [], map[], 0, map[];
    }

    predicate Matches(i: nat, id: int, from: Option<nat>)
      requires i < |tasks|
      reads this
    {
      Described(tasks[i], id, from)
    }

    // ------------------------------------------------------------ one task

    /** `CTask::clear` on a live task. */
    method ClearTask(i: nat, ghost fate: Fate)
      requires fm.Valid() && Linked(View(), fm.held) && i < |tasks| && !tasks[i].free
      modifies this, fm
      ensures Whole() == ClearAt(old(Whole()), i, fate)
    {
      hide Linked, Sound;
      LiveSlot(View(), fm.held, i);
      if tasks[i].func >= 0 {
        fm.UnregisterSPForward(tasks[i].func);
      }
      ghost var s := serials[i];
      lives, ids := lives[s := lives[s].(fate := fate)], ids - {tasks[i].func};
      tasks := tasks[i := Cleared(tasks[i])];
    }

    /** `CTask::set` on a free slot, or on a new one at the end of the list. */
    method Set(i: nat, func: int, flags: nat, id: int, amx: nat, base: real, repeat: int)
      requires i <= |tasks| == |serials|
      modifies this
      ensures View() == Put(old(View()), i, NewTask(func, flags, id, amx, base, repeat, now)) && now == old(now)
    {
      var t := Task(false, false, func, id, amx, base, now + base, false, 0, flags / 4 % 2 == 1, flags / 8 % 2 == 1);
      if flags / 2 % 2 == 1 {
        t := t.(isLoop := true, repeat := -1);
      } else if flags % 2 == 1 {
        t := t.(isLoop := true, repeat := repeat);
      }
      if i == |tasks| {
        tasks, serials := tasks + [t], serials + [count];
      } else {
        tasks, serials := tasks[i := t], serials[i := count];
      }
      lives := lives[count := Life(Remaining(t), 0, 0, [], Live(i))];
      ids := ids[t.func := i];
      count := count + 1;
    }

    // --------------------------------------------------------- the natives

    /** `registerTask`: reuse the first slot that is free and not running. */
    method RegisterTask(func: int, flags: nat, id: int, amx: nat, base: real, repeat: int)
      requires |tasks| == |serials|
      modifies this
      ensures now == old(now)
      ensures View() == Put(old(View()), FirstFree(old(tasks)), NewTask(func, flags, id, amx, base, repeat, now))
    {
      var i := 0;
      while i < |tasks| && !(tasks[i].free && !tasks[i].inExecute)
        invariant i <= |tasks| && forall j | 0 <= j < i :: !tasks[j].free || tasks[j].inExecute
        modifies {}
      {
        i := i + 1;
      }
      Set(i, func, flags, id, amx, base, repeat);
    }

    /** `set_task`: a name that is no public function sets nothing. */
    method SetTask(target: Option<nat>, base: real, id: int, amx: nat, flags: nat, repeat: int) returns (ok: bool)
      requires Valid()
      modifies this, fm
      ensures Valid() && Whole() == Scheduled(old(Whole()), target, base, id, amx, flags, repeat)
      ensures ok == target.Some?
    {
      hide Linked, Booked, Sound, Later, Put;
      ScheduleLeads(Whole(), target, base, id, amx, flags, repeat);
      Numbers(View(), fm.held);
      var func := fm.RegisterSPForward(target);
      if func == -1 {
        return false;
      }
      RegisterTask(func, flags, id, amx, if base < 0.1 then 0.1 else base, repeat);
      ok := true;
    }

    /** `removeTasks`: clear every task that matches, and count them. */
    method RemoveTasks(id: int, from: Option<nat>) returns (n: nat)
      requires Valid()
      modifies this, fm
      ensures Valid() && Whole() == RemovedFrom(old(Whole()), id, from, 0)
      ensures n == Matching(old(tasks), id, from)
    {
      hide Linked, Booked, Sound, Later;
      n := 0;
      var i := 0;
      ghost var ts := tasks;
      while i < |tasks|
        invariant i <= |tasks| == |ts| && Valid()
        invariant n == Matching(ts[..i], id, from) && forall j | i <= j < |ts| :: tasks[j] == ts[j]
        invariant RemovedFrom(Whole(), id, from, i) == RemovedFrom(old(Whole()), id, from, 0)
        modifies this, fm
      {
        assert ts[..i + 1][..i] == ts[..i];
        if Matches(i, id, from) {
          RemoveLeads(Whole(), i);
          ClearTask(i, Removed);
          n := n + 1;
        }
        i := i + 1;
      }
      assert ts[..i] == ts;
    }

    /** `changeBase` and `resetNextExecTime`. */
    method ChangeBase(i: nat, base: real)
      requires i < |tasks|
      modifies this`tasks
      ensures Whole() == RebaseAt(old(Whole()), i, base)
    {
      ghost var before := tasks;
      tasks := tasks[i := tasks[i].(base := base)];
      tasks := tasks[i := tasks[i].(next := now + tasks[i].base)];
      assert tasks == before[i := before[i].(base := base, next := now + base)];
    }

    /** `changeTasks`: give every task that matches a new interval, counted from now. */
    method ChangeTasks(id: int, from: Option<nat>, base: real) returns (n: nat)
      requires Valid()
      modifies this
      ensures Valid() && Whole() == RebasedFrom(old(Whole()), id, from, base, 0)
      ensures n == Matching(old(tasks), id, from)
    {
      hide Linked, Booked, Sound, Later;
      n := 0;
      var i := 0;
      ghost var ts := tasks;
      while i < |tasks|
        invariant i <= |tasks| == |ts| && Valid()
        invariant n == Matching(ts[..i], id, from) && forall j | i <= j < |ts| :: tasks[j] == ts[j]
        invariant RebasedFrom(Whole(), id, from, base, i) == RebasedFrom(old(Whole()), id, from, base, 0)
        modifies this
      {
        assert ts[..i + 1][..i] == ts[..i];
        if Matches(i, id, from) {
          RebaseLeads(Whole(), i, base);
          ChangeBase(i, base);
          n := n + 1;
        }
        i := i + 1;
      }
      assert ts[..i] == ts;
    }

    /** `task_exists`. */
    method TaskExists(id: int, from: Option<nat>) returns (found: bool)
      ensures found <==> exists i :: 0 <= i < |tasks| && Matches(i, id, from)
    {
      for i := 0 to |tasks|
        invariant forall j | 0 <= j < i :: !Matches(j, id, from)
      {
        if Matches(i, id, from) {
          return true;
        }
      }
      found := false;
    }

    // ----------------------------------------------------------- callbacks

    /** `executeForwards` on a single-plugin forward: its function runs, may do anything,
        and a deletion asked for meanwhile happens on return. */
    method ExecuteForwards(id: int, executable: bool, body: seq<Act>) returns (ran: bool)
      requires Valid() && fm.IsIdValid(id)
      modifies this, fm
      ensures Valid() && Whole() == Executed(old(Whole()), id, executable, body)
      ensures ran == Runs(old(fm.View()), id, executable)
      decreases body, 1
    {
      hide Linked, Booked, Sound, Later;
      ExecutedLeads(Whole(), id, executable, body);
      ran := fm.Begin(id, executable);
      if ran {
        ghost var begun := Whole();
        PerformedLeads(begun, body);
        Perform(body);
        Leave(fm.View(), id);
      }
      fm.End(id, ran);
    }

    /** What a callback, or a plugin outside one, does: one act after the other. */
    method Perform(acts: seq<Act>)
      requires Valid()
      modifies this, fm
      ensures Valid() && Whole() == Performed(old(Whole()), acts)
      decreases acts, 0
    {
      hide Good;
      var i := 0;
      while i < |acts|
        invariant 0 <= i <= |acts| && Valid() && Whole() == Performed(old(Whole()), acts[..i])
        modifies this, fm
      {
        assert acts[..i + 1][..i] == acts[..i];
        Do(acts[i]);
        i := i + 1;
      }
      assert acts[..i] == acts;
    }

    /** One act. Clients destroy only forwards that they hold. */
    method Do(act: Act)
      requires Valid()
      modifies this, fm
      ensures Valid() && Whole() == TaskRules.Do(old(Whole()), act)
      decreases act, 0
    {
      hide Linked, Booked, Sound, Later;
      DoLeads(Whole(), act);
      match act
      case SetTask(target, base, id, amx, flags, repeat) =>
        var _ := SetTask(target, base, id, amx, flags, repeat);
      case RemoveTask(id, from) =>
        var _ := RemoveTasks(id, from);
      case ChangeTask(id, from, base) =>
        var _ := ChangeTasks(id, from, base);
      case CreateForward(target) =>
        var id := fm.RegisterSPForward(target);
        if id != -1 {
          clients := clients + {id};
        }
      case DestroyForward(id) =>
        if id in clients {
          OwnHeld(View(), fm.held);
          fm.UnregisterSPForward(id);
          clients := clients - {id};
        }
      case ExecuteForward(id, executable, body) =>
        if fm.IsIdValid(id) {
          var _ := ExecuteForwards(id, executable, body);
        }
    }

    // ------------------------------------------------------------- the frame

    /** Call a task's function: the turn is booked, as a run if the function is called, and
        the slot is marked as running until the function returns. */
    method Call(i: nat, script: Script)
      requires Valid() && AtRest() && HasTurn(Whole(), i) && Remaining(tasks[i]) != Times(0)
      modifies this, fm
      ensures Whole() == Called(old(Whole()), i, script)
      ensures fm.Valid() && Linked(View(), fm.held) && |tasks| >= |old(tasks)|
    {
      hide Linked, Booked, Sound, Later;
      ghost var w, func := View(), tasks[i].func;
      LiveSlot(w, fm.held, i);
      HolderRuns(fm.View(), func, script.executable);
      StartKeeps(w, fm.held, i, script.executable);
      ghost var s, ran := serials[i], Runs(fm.View(), func, script.executable);
      lives := lives[s := Turned(lives[s], script.executable, ran)];
      tasks := tasks[i := tasks[i].(inExecute := true)];
      ghost var begun := Whole();
      ExecutedLeads(begun, func, script.executable, script.acts);
      var called := ExecuteForwards(tasks[i].func, script.executable, script.acts);
      assert called == ran;
      LaterLonger(begun.world, View());
      TouchLinks(View(), fm.held, i, tasks[i].(inExecute := false));
      tasks := tasks[i := tasks[i].(inExecute := false)];
    }

    /** `executeIfRequired`: a task that is due takes a turn; then it waits for its next
        time, or goes. */
    method ExecuteIfRequired(i: nat, script: Script)
      requires Valid() && AtRest() && i < |tasks| && !tasks[i].free
      modifies this, fm
      ensures Valid() && AtRest() && |tasks| >= |old(tasks)|
      ensures Whole() == if HasTurn(old(Whole()), i) then Turn(old(Whole()), i, script) else old(Whole())
    {
      hide Linked, Booked, Sound, Later, Called, Swept;
      if !Due(tasks[i], now) {
        return;
      }
      TurnTaken(Whole(), i, script);
      SweptLonger(View(), Turn(Whole(), i, script).world, i);
      if !(tasks[i].isLoop && tasks[i].repeat == 0) {
        Call(i, script);
      }
      Finish(i);
    }

    /** What follows a call: the task may be gone, it may be done, or it waits again. */
    method Finish(i: nat)
      requires fm.Valid() && Linked(View(), fm.held) && i < |tasks|
      modifies this, fm
      ensures Whole() == Ended(old(Whole()), i)
    {
      hide Linked, Sound;
      if tasks[i].free {
        return;
      }
      ghost var before := tasks;
      var done := false;
      if tasks[i].isLoop {
        if tasks[i].repeat != -1 {
          TouchLinks(View(), fm.held, i, tasks[i].(repeat := tasks[i].repeat - 1));
          tasks := tasks[i := tasks[i].(repeat := tasks[i].repeat - 1)];
          done := tasks[i].repeat <= 0;
        }
      } else {
        done := true;
      }
      if done {
        ClearTask(i, Done);
        LiveSlot(old(View()), old(fm.held), i);
        assert tasks == before[i := Cleared(before[i])];
      } else {
        tasks := tasks[i := tasks[i].(next := tasks[i].next + tasks[i].base)];
        assert tasks == before[i := Waiting(before[i])];
      }
    }

    /** `startFrame`: one turn for every task in the list that is due, the ones that
        callbacks append included. Every registration is served. */
    method StartFrame(time: real, scripts: seq<Script>)
      requires Valid() && AtRest()
      modifies this, fm
      ensures Valid() && AtRest() && Whole() == Sweep(old(Whole()).(now := time), scripts, 0)
      ensures forall k | k in old(lives) && old(lives)[k].fate.Live? ::
                Served(old(Whole()).(now := time), scripts, old(lives)[k].fate.slot, k)
    {
      hide Linked, Booked, Sound, Turn, HasTurn;
      now := time;
      ghost var g := Whole();
      var left := scripts;
      var i := 0;
      while i < |tasks|
        invariant i <= |tasks| && Valid() && AtRest()
        invariant Sweep(Whole(), left, i) == Sweep(g, scripts, 0)
        decreases |left|, |tasks| - i
        modifies this, fm
      {
        var runs := !tasks[i].free && Due(tasks[i], now);
        HasTurnIs(Whole(), i);
        if !tasks[i].free {
          ExecuteIfRequired(i, First(left));
        }
        if runs {
          left := Rest(left);
        }
        i := i + 1;
      }
      forall k | k in g.world.lives && g.world.lives[k].fate.Live?
        ensures Served(g, scripts, g.world.lives[k].fate.slot, k)
      {
        FrameTurn(g, scripts, g.world.lives[k].fate.slot, k);
      }
    }

    /** No task is running. */
    predicate AtRest()
      reads this
    {
      forall i | 0 <= i < |tasks| :: !tasks[i].inExecute
    }
  }

  lemma HasTurnIs(g: State, i: nat)
    requires i < |g.world.tasks|
    ensures HasTurn(g, i) <==> !g.world.tasks[i].free && Due(g.world.tasks[i], g.now)
  {
  }

  lemma SweptLonger(w: World, w': World, i: nat)
    requires Swept(w, w', i, i + 1)
    ensures |w.tasks| <= |w'.tasks|
  {
  }

  lemma LaterLonger(w: World, w': World)
    requires Later(w, w')
    ensures |w.tasks| <= |w'.tasks|
  {
  }

  /** Any history of frames, callbacks and native calls, on a new scheduler. Every
      registration there has been is on its plan, and no forward id is lost. */
  method Run(events: seq<Event>) returns (tm: CTaskMngr)
    ensures tm.Valid() && tm.AtRest() && tm.Whole() == After(events)
    ensures forall k | k in tm.lives :: OnPlan(tm.lives[k]) && tm.lives[k].runs + tm.lives[k].missed == |tm.lives[k].turns|
    ensures forall k | k in tm.lives && tm.lives[k].fate == Done ::
              tm.lives[k].runs == tm.lives[k].plan.n <==> forall i | 0 <= i < |tm.lives[k].turns| :: tm.lives[k].turns[i]
    ensures forall j | 0 <= j < |tm.fm.slots| ::
              Id(j) in tm.clients || Id(j) in tm.ids || Id(j) in tm.fm.freeIds
  {
    hide Good, Happened;
    tm := new CTaskMngr();
    AlwaysGood([]);
    var i := 0;
    while i < |events|
      invariant 0 <= i <= |events| && fresh(tm) && fresh(tm.fm)
      invariant tm.Valid() && tm.AtRest() && tm.Whole() == After(events[..i])
    {
      assert events[..i + 1][..i] == events[..i];
      HappenedIs(tm.Whole(), events[i]);
      AlwaysGood(events[..i + 1]);
      match events[i] {
        case Frame(time, scripts) =>
          tm.StartFrame(time, scripts);
        case Outside(acts) =>
          tm.Perform(acts);
      }
      i := i + 1;
    }
    assert events[..i] == events;
    AlwaysOnPlan(events);
  }

  lemma HappenedIs(g: State, event: Event)
    ensures event.Frame? ==> Happened(g, event) == Sweep(g.(now := event.time), event.scripts, 0)
    ensures event.Outside? ==> Happened(g, event) == Performed(g, event.acts)
  {
  }
}
