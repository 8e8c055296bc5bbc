/** When a frame ends: callbacks can keep it going by adding tasks that are due at once. */
module TaskEnds {
  import opened Wrappers
  import opened Forwards
  import opened TaskBooks
  import opened TaskRules
  import opened TaskFrames

  /** An act that makes no task due in the same frame: it sets none that is due by its base
      (flags `c` and `d`), and changes no interval to one that is not positive. */
  predicate Calm(act: Act) {
    match act
    case SetTask(_, _, _, _, flags, _) => flags / 4 % 2 == 0 && flags / 8 % 2 == 0
    case ChangeTask(_, _, base) => base > 0.0
    case ExecuteForward(_, _, body) => forall i | 0 <= i < |body| :: Calm(body[i])
    case _ => true
  }

  predicate AllCalm(acts: seq<Act>) {
    forall i | 0 <= i < |acts| :: Calm(acts[i])
  }

  /** A task that waits for a later time. */
  predicate Idle(t: Task, now: real) {
    t.free || (!t.afterStart && !t.beforeEnd && t.next > now)
  }

  predicate SlotIdle(g: State, c: nat, m: nat, i: nat)
    requires i < |g.world.tasks| == |g.world.serials|
  {
    && (g.world.serials[i] >= c ==> Idle(g.world.tasks[i], g.now))
    && (i >= m ==> g.world.serials[i] >= c)
  }

  /** Registrations from number `c` on are not due, and only they have slots from `m` on. */
  ghost predicate NewIdle(g: State, c: nat, m: nat) {
    && c <= g.world.count && |g.world.tasks| == |g.world.serials|
    && forall i {:trigger SlotIdle(g, c, m, i)} | 0 <= i < |g.world.tasks| :: SlotIdle(g, c, m, i)
  }

  // ------------------------------------------------------------ what acts keep

  /** A slot has changed, and is still free or waits. */
  lemma OneSlot(g: State, g': State, c: nat, m: nat, i: nat)
    requires NewIdle(g, c, m) && g'.now == g.now && g'.world.serials == g.world.serials && g'.world.count == g.world.count
    requires |g'.world.tasks| == |g.world.tasks|
    requires forall j | 0 <= j < |g.world.tasks| && j != i :: g'.world.tasks[j] == g.world.tasks[j]
    requires i < |g.world.tasks| && (g.world.serials[i] >= c ==> Idle(g'.world.tasks[i], g.now))
    ensures NewIdle(g', c, m)
  {
    forall j | 0 <= j < |g'.world.tasks| ensures SlotIdle(g', c, m, j) {
      assert SlotIdle(g, c, m, j);
    }
  }

  /** Nothing has changed in the slots. */
  lemma SameSlots(g: State, g': State, c: nat, m: nat)
    requires NewIdle(g, c, m) && g'.now == g.now
    requires (g'.world.tasks, g'.world.serials, g'.world.count) == (g.world.tasks, g.world.serials, g.world.count)
    ensures NewIdle(g', c, m)
  {
    forall j | 0 <= j < |g'.world.tasks| ensures SlotIdle(g', c, m, j) {
      assert SlotIdle(g, c, m, j);
    }
  }

  lemma ScheduledIdle(g: State, c: nat, m: nat, act: Act)
    requires NewIdle(g, c, m) && act.SetTask? && Calm(act) && m <= |g.world.tasks|
    ensures NewIdle(Do(g, act), c, m) && |Do(g, act).world.tasks| >= |g.world.tasks|
  {
    var g' := Do(g, act);
    var i := FirstFree(g.world.tasks);
    forall j | 0 <= j < |g'.world.tasks| ensures SlotIdle(g', c, m, j) {
      if j < |g.world.tasks| {
        assert SlotIdle(g, c, m, j);
      }
    }
  }

  lemma {:induction false} RemovedIdle(g: State, c: nat, m: nat, id: int, from: Option<nat>, i: nat)
    requires NewIdle(g, c, m)
    ensures NewIdle(RemovedFrom(g, id, from, i), c, m)
    ensures |RemovedFrom(g, id, from, i).world.tasks| == |g.world.tasks|
    decreases |g.world.tasks| - i
  {
    if i < |g.world.tasks| {
      if Described(g.world.tasks[i], id, from) {
        assert SlotIdle(g, c, m, i);
        OneSlot(g, ClearAt(g, i, Removed), c, m, i);
        RemovedIdle(ClearAt(g, i, Removed), c, m, id, from, i + 1);
      } else {
        RemovedIdle(g, c, m, id, from, i + 1);
      }
    }
  }

  lemma {:induction false} RebasedIdle(g: State, c: nat, m: nat, id: int, from: Option<nat>, base: real, i: nat)
    requires NewIdle(g, c, m) && base > 0.0
    ensures NewIdle(RebasedFrom(g, id, from, base, i), c, m)
    ensures |RebasedFrom(g, id, from, base, i).world.tasks| == |g.world.tasks|
    decreases |g.world.tasks| - i
  {
    if i < |g.world.tasks| {
      if Described(g.world.tasks[i], id, from) {
        assert SlotIdle(g, c, m, i);
        OneSlot(g, RebaseAt(g, i, base), c, m, i);
        RebasedIdle(RebaseAt(g, i, base), c, m, id, from, base, i + 1);
      } else {
        RebasedIdle(g, c, m, id, from, base, i + 1);
      }
    }
  }

  lemma {:induction false} DoIdle(g: State, c: nat, m: nat, act: Act)
    requires NewIdle(g, c, m) && Calm(act) && m <= |g.world.tasks|
    ensures NewIdle(Do(g, act), c, m) && |Do(g, act).world.tasks| >= |g.world.tasks|
    decreases act, 0
  {
    hide NewIdle;
    match act
    case SetTask(_, _, _, _, _, _) => ScheduledIdle(g, c, m, act);
    case RemoveTask(id, from) => RemovedIdle(g, c, m, id, from, 0);
    case ChangeTask(id, from, base) => RebasedIdle(g, c, m, id, from, base, 0);
    case CreateForward(_) => SameSlots(g, Do(g, act), c, m);
    case DestroyForward(_) => SameSlots(g, Do(g, act), c, m);
    case ExecuteForward(id, executable, body) =>
      if IsId(id, |g.reg.slots|) {
        ExecutedIdle(g, c, m, id, executable, body);
      }
  }

  lemma {:induction false} ExecutedIdle(g: State, c: nat, m: nat, id: int, executable: bool, body: seq<Act>)
    requires NewIdle(g, c, m) && AllCalm(body) && m <= |g.world.tasks|
    ensures NewIdle(Executed(g, id, executable, body), c, m)
    ensures |Executed(g, id, executable, body).world.tasks| >= |g.world.tasks|
    decreases body, 1
  {
    hide NewIdle;
    if Runs(g.reg, id, executable) {
      var b := g.(reg := Begun(g.reg, id));
      SameSlots(g, b, c, m);
      PerformedIdle(b, c, m, body);
      SameSlots(Performed(b, body), Executed(g, id, executable, body), c, m);
    }
  }

  lemma {:induction false} PerformedIdle(g: State, c: nat, m: nat, acts: seq<Act>)
    requires NewIdle(g, c, m) && AllCalm(acts) && m <= |g.world.tasks|
    ensures NewIdle(Performed(g, acts), c, m) && |Performed(g, acts).world.tasks| >= |g.world.tasks|
    decreases acts, 0
  {
    hide NewIdle;
    if acts != [] {
      PerformedIdle(g, c, m, acts[..|acts| - 1]);
      DoIdle(Performed(g, acts[..|acts| - 1]), c, m, acts[|acts| - 1]);
    }
  }

  // ------------------------------------------------------------------- a frame

  /** A turn is an old registration's, and leaves the new ones waiting, without a turn. */
  lemma TurnIdle(g: State, c: nat, m: nat, i: nat, script: Script)
    requires Good(g) && TaskBooks.AtRest(g.world) && NewIdle(g, c, m) && HasTurn(g, i)
    requires AllCalm(script.acts) && m <= |g.world.tasks|
    ensures i < m && NewIdle(Turn(g, i, script), c, m) && m <= |Turn(g, i, script).world.tasks|
  {
    hide Linked, Booked, Sound, Later, NewIdle;
    OldTurn(g, c, m, i);
    if Remaining(g.world.tasks[i]) == Times(0) {
      CleanEnd(g, ClearAt(g, i, Done), c, m, i);
    } else {
      LiveSlot(g.world, g.reg.held, i);
      CallReturns(g, i, script);
      var begun := g.(world := Start(g.world, i, script.executable, script.executable));
      CleanEnd(g, begun, c, m, i);
      ExecutedIdle(begun, c, m, g.world.tasks[i].func, script.executable, script.acts);
      var r := Back(g, i, script);
      Returned(g.world, i, script.executable, r.world, r.reg.held);
      CleanEnd(r, Turn(g, i, script), c, m, i);
    }
  }

  lemma OldTurn(g: State, c: nat, m: nat, i: nat)
    requires NewIdle(g, c, m) && HasTurn(g, i)
    ensures i < |g.world.serials| && g.world.serials[i] < c && i < m
  {
    assert SlotIdle(g, c, m, i);
  }

  /** Whatever happens to the slot of an old registration. */
  lemma CleanEnd(g: State, g': State, c: nat, m: nat, i: nat)
    requires NewIdle(g, c, m) && g'.now == g.now && i < |g.world.tasks| && i < |g.world.serials| && g.world.serials[i] < c
    requires g'.world.serials == g.world.serials && g'.world.count == g.world.count
    requires |g'.world.tasks| == |g.world.tasks| && g'.world.tasks == g.world.tasks[i := g'.world.tasks[i]]
    ensures NewIdle(g', c, m)
  {
    OneSlot(g, g', c, m, i);
  }

  /** The scripts of a frame are calm. */
  predicate CalmScripts(scripts: seq<Script>) {
    forall i | 0 <= i < |scripts| :: AllCalm(scripts[i].acts)
  }

  /** A stretch of the frame takes no more turns than it passes slots that were there at
      the start. */
  lemma {:induction false} ReachedIdle(g: State, scripts: seq<Script>, i: nat, j: nat, c: nat, m: nat)
    requires Good(g) && TaskBooks.AtRest(g.world) && NewIdle(g, c, m) && CalmScripts(scripts)
    requires m <= |g.world.tasks| && i <= j
    ensures var (there, left) := Reached(g, scripts, i, j);
            && NewIdle(there, c, m) && CalmScripts(left)
            && |scripts| - |left| <= (if i >= m then 0 else if j <= m then j - i else m - i)
    decreases j - i
  {
    hide Good, TaskBooks.AtRest, Swept, NewIdle;
    if i < j {
      var (g', scripts') := Passed(g, scripts, i);
      if HasTurn(g, i) {
        TurnTaken(g, i, First(scripts));
        TurnIdle(g, c, m, i, First(scripts));
      }
      ReachedIdle(g', scripts', i + 1, j, c, m);
    }
  }

  /** New registrations have taken no turn. */
  ghost predicate Untaken(w: World, c: nat) {
    forall k | k in w.lives && k >= c :: w.lives[k].turns == []
  }

  /** What is registered in a turn takes none in it. */
  lemma TurnNew(g: State, i: nat, script: Script)
    requires Good(g) && TaskBooks.AtRest(g.world) && HasTurn(g, i)
    ensures var w' := Turn(g, i, script).world;
            forall k | k in w'.lives && k !in g.world.lives :: w'.lives[k].turns == []
  {
    hide Booked, Sound;
    LiveSlot(g.world, g.reg.held, i);
    if Remaining(g.world.tasks[i]) != Times(0) {
      CalledReturns(g, i, script);
      Returned(g.world, i, script.executable, Back(g, i, script).world, Back(g, i, script).reg.held);
    }
  }

  lemma TurnUntaken(g: State, c: nat, m: nat, i: nat, script: Script)
    requires Good(g) && TaskBooks.AtRest(g.world) && NewIdle(g, c, m) && HasTurn(g, i) && Untaken(g.world, c)
    ensures Untaken(Turn(g, i, script).world, c)
  {
    hide Booked, Sound;
    OldTurn(g, c, m, i);
    TurnTaken(g, i, script);
    TurnNew(g, i, script);
    var w, w' := g.world, Turn(g, i, script).world;
    forall k | k in w'.lives && k >= c ensures w'.lives[k].turns == [] {
      if k in w.lives {
        assert OneTurn(w.lives[k], w'.lives[k], i, i + 1);
        assert LifeLinked(w, k);
      }
    }
  }

  lemma {:induction false} ReachedUntaken(g: State, scripts: seq<Script>, i: nat, j: nat, c: nat, m: nat)
    requires Good(g) && TaskBooks.AtRest(g.world) && NewIdle(g, c, m) && CalmScripts(scripts)
    requires m <= |g.world.tasks| && i <= j && Untaken(g.world, c)
    ensures Untaken(Reached(g, scripts, i, j).0.world, c)
    decreases j - i
  {
    hide Good, TaskBooks.AtRest, Swept, NewIdle, Untaken;
    if i < j {
      var (g', scripts') := Passed(g, scripts, i);
      if HasTurn(g, i) {
        TurnTaken(g, i, First(scripts));
        TurnIdle(g, c, m, i, First(scripts));
        TurnUntaken(g, c, m, i, First(scripts));
      }
      ReachedUntaken(g', scripts', i + 1, j, c, m);
    }
  }

  /** When no callback sets a task that is due by its base, nor a non-positive interval, the
      frame ends after at most as many turns as there were slots at its start, and what is
      registered in it takes no turn in it. */
  lemma FrameEnds(g: State, scripts: seq<Script>, n: nat)
    requires Good(g) && TaskBooks.AtRest(g.world) && CalmScripts(scripts)
    ensures var (there, left) := Reached(g, scripts, 0, n);
            && |scripts| - |left| <= |g.world.tasks|
            && forall i | 0 <= i < |there.world.tasks| && HasTurn(there, i) ::
                 i < |g.world.tasks| && i < |there.world.serials| && there.world.serials[i] in g.world.lives
    ensures var w' := Sweep(g, scripts, 0).world;
            forall k | k in w'.lives && k !in g.world.lives :: w'.lives[k].turns == []
  {
    hide Good, NewIdle, TaskBooks.AtRest;
    var c, m := g.world.count, |g.world.tasks|;
    StartIdle(g);
    ReachedIdle(g, scripts, 0, n, c, m);
    ReachedKeeps(g, scripts, 0, n);
    var there := Reached(g, scripts, 0, n).0;
    forall i | 0 <= i < |there.world.tasks| && HasTurn(there, i)
      ensures i < m && i < |there.world.serials| && there.world.serials[i] in g.world.lives
    {
      OldTurn(there, c, m, i);
      KnownSlot(there, i);
    }
    var e := SweepReaches(g, scripts, 0, 0);
    ReachedUntaken(g, scripts, 0, e, c, m);
    ReachedKeeps(g, scripts, 0, e);
  }

  lemma KnownSlot(g: State, i: nat)
    requires Good(g) && HasTurn(g, i)
    ensures i < |g.world.serials| && g.world.serials[i] in g.world.lives
  {
    LiveSlot(g.world, g.reg.held, i);
  }

  lemma StartIdle(g: State)
    requires Good(g)
    ensures NewIdle(g, g.world.count, |g.world.tasks|)
    ensures forall k | k in g.world.lives :: k < g.world.count
  {
    Numbers(g.world, g.reg.held);
    forall k | k in g.world.lives ensures k < g.world.count {
      assert LifeLinked(g.world, k);
    }
    forall i | 0 <= i < |g.world.tasks| ensures SlotIdle(g, g.world.count, |g.world.tasks|, i) {
    }
  }

  // ------------------------------------------------- a frame that does not end

  /** A task that is to repeat forever, and is due by its base. */
  const AGAIN: Act := SetTask(Some(0), 0.1, 0, 0, 6, 0)

  /** A row of such tasks, at time zero. */
  ghost predicate Row(g: State, n: nat) {
    && Good(g) && TaskBooks.AtRest(g.world) && g.now == 0.0 && |g.world.tasks| == n
    && forall i | 0 <= i < n :: Always(g.world.tasks[i])
  }

  predicate Always(t: Task) {
    !t.free && t.afterStart && t.base == 0.1 && t.isLoop && t.repeat == -1
  }

  lemma NoneFree(ts: seq<Task>)
    requires forall i | 0 <= i < |ts| :: !ts[i].free
    ensures FirstFree(ts) == |ts|
  {
    var i := FirstFree(ts);
  }

  lemma AddsTask(b: State)
    requires |b.world.tasks| == |b.world.serials| && b.now == 0.0
    requires forall i | 0 <= i < |b.world.tasks| :: !b.world.tasks[i].free
    ensures var ts := Performed(b, [AGAIN]).world.tasks;
            |ts| == |b.world.tasks| + 1 && ts[..|b.world.tasks|] == b.world.tasks
            && Always(ts[|b.world.tasks|]) && !ts[|b.world.tasks|].inExecute
  {
    assert [AGAIN][..0] == [];
    assert Performed(b, [AGAIN]) == Do(Performed(b, []), AGAIN);
    NoneFree(b.world.tasks);
  }

  /** The last task of the row sets one more. */
  lemma SetsOneMore(g: State, n: nat)
    requires Row(g, n) && n > 0
    ensures HasTurn(g, n - 1) && Row(Turn(g, n - 1, Script(true, [AGAIN])), n + 1)
  {
    hide Good, Performed, Executed;
    var i, script := n - 1, Script(true, [AGAIN]);
    assert Always(g.world.tasks[i]);
    TurnTaken(g, i, script);
    BackTasks(g, i);
    CallsBack(g, i, script);
    var ts, back := g.world.tasks, Back(g, i, script).world.tasks;
    assert forall j | 0 <= j < n :: back[j] == back[..n][j];
    assert back[i] == ts[i].(inExecute := true);
    assert Turn(g, i, script) == Ended(Stopped(Back(g, i, script), i), i);
    assert forall j | 0 <= j < i :: back[j] == ts[j];
  }

  lemma CallsBack(g: State, i: nat, script: Script)
    requires Good(g) && TaskBooks.AtRest(g.world) && HasTurn(g, i) && Remaining(g.world.tasks[i]) != Times(0)
    ensures Called(g, i, script) == Stopped(Back(g, i, script), i)
  {
    CallReturns(g, i, script);
  }

  lemma BackTasks(g: State, i: nat)
    requires Row(g, i + 1)
    ensures var ts, back := g.world.tasks, Back(g, i, Script(true, [AGAIN])).world.tasks;
            |back| == i + 2 && back[..i + 1] == ts[i := ts[i].(inExecute := true)]
            && Always(back[i + 1]) && !back[i + 1].inExecute
  {
    hide Booked, Sound, Performed;
    assert Always(g.world.tasks[i]);
    LiveSlot(g.world, g.reg.held, i);
    Numbers(g.world, g.reg.held);
    HolderRuns(g.reg, g.world.tasks[i].func, true);
    var begun := g.(world := Start(g.world, i, true, true));
    AddsTask(begun.(reg := Begun(begun.reg, g.world.tasks[i].func)));
  }

  /** With `n` callbacks that each do so the frame takes `n` turns more: there is no end to
      it while they go on. */
  lemma {:induction false} GoesOn(g: State, n: nat, k: nat)
    requires Row(g, n) && n > 0
    ensures |Sweep(g, seq(k, _ => Script(true, [AGAIN])), n - 1).world.tasks| == n + k
    decreases k
  {
    hide Row, Turn, Always;
    var scripts := seq(k, _ => Script(true, [AGAIN]));
    RowHas(g, n);
    if k == 0 {
      assert Sweep(g, [], n - 1) == Sweep(Turn(g, n - 1, Script(true, [])), [], n);
    } else {
      SetsOneMore(g, n);
      assert scripts[0] == Script(true, [AGAIN]);
      assert scripts[1..] == seq(k - 1, _ => Script(true, [AGAIN]));
      GoesOn(Turn(g, n - 1, Script(true, [AGAIN])), n + 1, k - 1);
    }
  }

  lemma RowHas(g: State, n: nat)
    requires Row(g, n) && n > 0
    ensures HasTurn(g, n - 1) && |g.world.tasks| == n
  {
    assert Always(g.world.tasks[n - 1]);
  }

  /** Such a frame can come about. */
  lemma RowOfOne()
    ensures Row(After([Outside([AGAIN])]), 1)
  {
    hide Good;
    AlwaysGood([Outside([AGAIN])]);
    assert [Outside([AGAIN])][..0] == [] && [AGAIN][..0] == [];
    assert Performed(Fresh(), [AGAIN]) == Do(Performed(Fresh(), []), AGAIN);
  }
}
