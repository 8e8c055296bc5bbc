/** Who takes a turn in a frame, and how often a task has run when it is done. */
module TaskFrames {
  import opened Wrappers
  import opened Forwards
  import opened TaskBooks
  import opened TaskRules

  // ------------------------------------------------------------------ one turn

  /** A registration has taken a turn: done when its plan is used up, else still there
      unless a callback removed it meanwhile. */
  predicate TookTurn(l: Life, executable: bool, l': Life) {
    && l' == Turned(l, executable, executable).(fate := l'.fate)
    && (l'.fate == Removed || l'.fate == if l.plan == Times(|l.turns| + 1) then Done else l.fate)
  }

  /** What a stretch of a frame does that passes the slots from `i` to `j`: only the tasks
      in them take a turn, one at most, and nobody else's slot changes more than callbacks
      can change it. */
  ghost predicate Swept(w: World, w': World, i: nat, j: nat) {
    && Numbered(w) && Numbered(w') && |w.tasks| <= |w'.tasks| && w.count <= w'.count
    && TaskBooks.AtRest(w) && TaskBooks.AtRest(w')
    && (forall q {:trigger SlotKept(w, w', q)} | 0 <= q < |w.tasks| && !(i <= q < j) :: SlotKept(w, w', q))
    && (forall k {:trigger w'.lives[k]} {:trigger w.lives[k]} | k in w.lives ::
          k in w'.lives && OneTurn(w.lives[k], w'.lives[k], i, j))
    && (forall k {:trigger w'.lives[k]} | k in w'.lives && k !in w.lives ::
          k >= w.count && NewTurn(w'.lives[k], j))
  }

  /** What happens to a registration of before. */
  predicate OneTurn(l: Life, l': Life, i: nat, j: nat) {
    if l.fate.Live? && i <= l.fate.slot < j then
      && l'.plan == l.plan && (l'.fate == l.fate || !l'.fate.Live?)
      && (l'.turns == l.turns || exists x :: l'.turns == l.turns + [x])
    else Aged(l, l')
  }

  /** What happens to a registration that is made meanwhile. */
  predicate NewTurn(l: Life, j: nat) {
    |l.turns| <= 1 && (l.fate.Live? && l.fate.slot >= j ==> l.turns == [])
  }

  lemma SweptSame(w: World, held: set<int>, i: nat, j: nat)
    requires Linked(w, held) && TaskBooks.AtRest(w)
    ensures Swept(w, w, i, j)
  {
    Numbers(w, held);
  }

  lemma SweptTrans(w: World, w': World, w'': World, i: nat, j: nat)
    requires i < j && Swept(w, w', i, i + 1) && Swept(w', w'', i + 1, j)
    ensures Swept(w, w'', i, j)
  {
    forall q | 0 <= q < |w.tasks| && !(i <= q < j) ensures SlotKept(w, w'', q) {
      assert SlotKept(w, w', q) && SlotKept(w', w'', q);
    }
    forall k | k in w.lives ensures k in w''.lives && OneTurn(w.lives[k], w''.lives[k], i, j) {
      assert OneTurn(w.lives[k], w'.lives[k], i, i + 1) && OneTurn(w'.lives[k], w''.lives[k], i + 1, j);
    }
    forall k | k in w''.lives && k !in w.lives ensures k >= w.count && NewTurn(w''.lives[k], j) {
      if k in w'.lives {
        assert NewTurn(w'.lives[k], i + 1) && OneTurn(w'.lives[k], w''.lives[k], i + 1, j);
      }
    }
  }

  /** A called function has returned: the world `w'`, in which its task is still marked as
      running, has come out of the one in which its turn began. */
  ghost predicate Returns(w: World, i: nat, x: bool, w': World, held: set<int>) {
    && TaskBooks.AtRest(w) && Linked(w, w.clients + w.ids.Keys) && Booked(w)
    && i < |w.tasks| && !w.tasks[i].free && Remaining(w.tasks[i]) != Times(0)
    && Linked(w', held) && Booked(w') && Later(Start(w, i, x, x), w')
  }

  /** The end of a turn, in the world. */
  function EndedWorld(w: World, i: nat): World
    requires i < |w.tasks|
  {
    var t := w.tasks[i].(inExecute := false);
    if t.free then Touch(w, i, t)
    else if LastTurn(t) then Clear(Touch(w, i, t), i, Done)
    else Touch(w, i, Waiting(t))
  }

  /** What is known of the registration in slot `i` when its function has returned. */
  lemma Returned(w: World, i: nat, x: bool, w': World, held: set<int>)
    requires Returns(w, i, x, w', held)
    ensures |w.tasks| == |w.serials| && |w'.tasks| == |w'.serials| && i < |w'.tasks| && w.serials[i] in w.lives
    ensures var s := w.serials[i];
            && s in w'.lives && w'.serials[i] == s && w.lives[s].fate == Live(i)
            && w'.lives[s] == Turned(w.lives[s], x, x).(fate := w'.lives[s].fate)
            && w'.tasks[i].inExecute && Settled(w'.lives[s])
            && (w'.tasks[i].free ==> w'.lives[s].fate == Removed)
            && (!w'.tasks[i].free ==> w'.lives[s].fate == Live(i) && Books(w'.tasks[i], w'.lives[s]))
    ensures forall j | 0 <= j < |w'.tasks| && j != i :: !w'.tasks[j].inExecute
  {
    hide Settled, Books;
    var begun := Start(w, i, x, x);
    assert SlotLinked(w, i);
    var s := w.serials[i];
    assert SlotKept(begun, w', i);
    assert Aged(begun.lives[s], w'.lives[s]);
    assert SlotLinked(w', i) && SlotBooked(w', i) && LifeLinked(w', s);
  }

  /** The end of a turn keeps what holds at rest. */
  lemma EndLinks(w: World, i: nat, x: bool, w': World, held: set<int>)
    requires Returns(w, i, x, w', held) && i < |w'.tasks|
    ensures var e := EndedWorld(w', i);
            && Booked(e) && TaskBooks.AtRest(e)
            && Linked(e, if !w'.tasks[i].free && LastTurn(w'.tasks[i]) then held - {w'.tasks[i].func} else held)
  {
    hide Linked, Booked, Later;
    Returned(w, i, x, w', held);
    var t := w'.tasks[i].(inExecute := false);
    if !t.free && !LastTurn(t) {
      TouchLinks(w', held, i, Waiting(t));
      TouchBooks(w', i, Waiting(t));
    } else {
      TouchLinks(w', held, i, t);
      if t.free {
        TouchBooks(w', i, t);
      } else {
        var stopped := Touch(w', i, t);
        ClearLinks(stopped, held, i, Done);
        OthersBooked(w', i);
        forall j | 0 <= j < |stopped.tasks| && j != i ensures SlotBooked(stopped, j) {
          assert SlotBooked(w', j);
        }
        ClearBooks(stopped, held, i, Done);
      }
    }
  }

  lemma OthersBooked(w: World, i: nat)
    requires Booked(w)
    ensures forall j | 0 <= j < |w.tasks| && j != i :: SlotBooked(w, j)
    ensures forall k | k in w.lives :: Settled(w.lives[k])
  {
  }

  /** The registration in the slot has taken its turn. */
  lemma EndTurns(w: World, i: nat, x: bool, w': World, held: set<int>)
    requires Returns(w, i, x, w', held) && i < |w'.tasks|
    ensures |w.tasks| == |w.serials| && w.serials[i] in w.lives
    ensures w.serials[i] in EndedWorld(w', i).lives
    ensures TookTurn(w.lives[w.serials[i]], x, EndedWorld(w', i).lives[w.serials[i]])
  {
    hide Linked, Booked, Later;
    Returned(w, i, x, w', held);
  }

  /** And nobody else has. */
  lemma EndSweeps(w: World, i: nat, x: bool, w': World, held: set<int>)
    requires Returns(w, i, x, w', held) && i < |w'.tasks|
    ensures Swept(w, EndedWorld(w', i), i, i + 1)
  {
    hide Booked, Books, Settled, EndedWorld, TookTurn;
    Returned(w, i, x, w', held);
    EndLinks(w, i, x, w', held);
    EndTurns(w, i, x, w', held);
    EndedIs(w', i);
    TookIs(w.lives[w.serials[i]], x, EndedWorld(w', i).lives[w.serials[i]]);
    var begun, e, s := Start(w, i, x, x), EndedWorld(w', i), w.serials[i];
    Numbers(w, w.clients + w.ids.Keys);
    forall q | 0 <= q < |w.tasks| && q != i ensures SlotKept(w, e, q) {
      assert SlotKept(begun, w', q);
    }
    forall k | k in w.lives ensures k in e.lives && OneTurn(w.lives[k], e.lives[k], i, i + 1) {
      assert LifeLinked(w, k);
      if k == s {
        assert e.lives[k].turns == w.lives[k].turns + [x];
      } else {
        assert Aged(begun.lives[k], w'.lives[k]);
      }
    }
  }

  lemma EndedIs(w: World, i: nat)
    requires i < |w.tasks| == |w.serials| && w.serials[i] in w.lives
    ensures var e := EndedWorld(w, i);
            && |e.tasks| == |w.tasks| && e.serials == w.serials && e.count == w.count && e.lives.Keys == w.lives.Keys
            && (forall j | 0 <= j < |w.tasks| && j != i :: e.tasks[j] == w.tasks[j])
            && forall k | k in w.lives && k != w.serials[i] :: e.lives[k] == w.lives[k]
  {
  }

  lemma TookIs(l: Life, x: bool, l': Life)
    requires TookTurn(l, x, l')
    ensures l'.plan == l.plan && l'.turns == l.turns + [x] && (l'.fate == l.fate || !l'.fate.Live?)
  {
  }

  /** The state in which the function of the task in slot `i` has returned. */
  function Back(g: State, i: nat, script: Script): State
    requires i < |g.world.tasks|
  {
    Executed(g.(world := Start(g.world, i, script.executable, script.executable)),
             g.world.tasks[i].func, script.executable, script.acts)
  }

  lemma CallReturns(g: State, i: nat, script: Script)
    requires Good(g) && TaskBooks.AtRest(g.world) && HasTurn(g, i) && Remaining(g.world.tasks[i]) != Times(0)
    ensures var r := Back(g, i, script);
            && Returns(g.world, i, script.executable, r.world, r.reg.held)
            && Sound(r.reg) && r.now == g.now && r.reg.chain == g.reg.chain
            && Called(g, i, script) == Stopped(r, i)
  {
    hide Booked, Sound, Later;
    var w, x, func := g.world, script.executable, g.world.tasks[i].func;
    OwnHeld(w, g.reg.held);
    LiveSlot(w, g.reg.held, i);
    HolderRuns(g.reg, func, x);
    StartKeeps(w, g.reg.held, i, x);
    ExecutedLeads(g.(world := Start(w, i, x, x)), func, x, script.acts);
  }

  /** What `Turn` makes of the state. */
  lemma CalledReturns(g: State, i: nat, script: Script)
    requires Good(g) && TaskBooks.AtRest(g.world) && HasTurn(g, i) && Remaining(g.world.tasks[i]) != Times(0)
    ensures var w', held := Back(g, i, script).world, Back(g, i, script).reg.held;
            && Returns(g.world, i, script.executable, w', held) && i < |w'.tasks|
            && Turn(g, i, script).world == EndedWorld(w', i)
    ensures Good(Turn(g, i, script)) && TaskBooks.AtRest(Turn(g, i, script).world)
    ensures Turn(g, i, script).now == g.now && Turn(g, i, script).reg.chain == g.reg.chain
  {
    hide Linked, Booked, Sound, Later, Called, Back, Returns;
    CallReturns(g, i, script);
    var r := Back(g, i, script);
    Returned(g.world, i, script.executable, r.world, r.reg.held);
    EndLinks(g.world, i, script.executable, r.world, r.reg.held);
    ReturnsLinked(g.world, i, script.executable, r.world, r.reg.held);
    if !r.world.tasks[i].free && LastTurn(r.world.tasks[i]) {
      var stopped := Stopped(r, i);
      TouchLinks(r.world, r.reg.held, i, r.world.tasks[i].(inExecute := false));
      LiveSlot(stopped.world, r.reg.held, i);
      GiveBack(r.reg, r.world.tasks[i].func);
    }
  }

  lemma ReturnsLinked(w: World, i: nat, x: bool, w': World, held: set<int>)
    requires Returns(w, i, x, w', held)
    ensures Linked(w', held)
  {
  }

  lemma OwnHeld(w: World, held: set<int>)
    requires Linked(w, held)
    ensures held == w.clients + w.ids.Keys
  {
  }

  /** A turn of slot `i` keeps the state good. Its task takes the turn, or goes if its plan
      was no turns; no other task takes one. */
  lemma TurnTaken(g: State, i: nat, script: Script)
    requires Good(g) && TaskBooks.AtRest(g.world) && HasTurn(g, i)
    ensures var g' := Turn(g, i, script);
            && Good(g') && TaskBooks.AtRest(g'.world) && g'.now == g.now && g'.reg.chain == g.reg.chain
            && Swept(g.world, g'.world, i, i + 1)
            && i < |g.world.serials| && g.world.serials[i] in g.world.lives && g.world.serials[i] in g'.world.lives
            && var l, l' := g.world.lives[g.world.serials[i]], g'.world.lives[g.world.serials[i]];
               l.fate == Live(i)
               && if l.plan == Times(0) then l' == l.(fate := Done) else TookTurn(l, script.executable, l')
  {
    hide Linked, Booked, Sound, Later, Swept, TookTurn;
    LiveSlot(g.world, g.reg.held, i);
    NoTurns(g.world, g.reg.held, i);
    if Remaining(g.world.tasks[i]) == Times(0) {
      NoneLeft(g.world, g.reg.held, i);
      ClearKeeps(g, i, Done);
      ClearSweeps(g.world, g.reg.held, i);
    } else {
      CalledReturns(g, i, script);
      var w', held := Back(g, i, script).world, Back(g, i, script).reg.held;
      EndTurns(g.world, i, script.executable, w', held);
      EndSweeps(g.world, i, script.executable, w', held);
    }
  }

  /** A task has no turns left to begin with exactly when its plan is none. */
  lemma NoTurns(w: World, held: set<int>, i: nat)
    requires Linked(w, held) && Booked(w) && TaskBooks.AtRest(w) && i < |w.tasks| && !w.tasks[i].free
    ensures i < |w.serials| && w.serials[i] in w.lives
    ensures var t, l := w.tasks[i], w.lives[w.serials[i]];
            && (Remaining(t) == Times(0) <==> l.plan == Times(0))
            && (LastTurn(t) <==> l.plan == Times(0) || l.plan == Times(|l.turns| + 1))
  {
    assert SlotLinked(w, i) && SlotBooked(w, i);
  }

  lemma ClearSweeps(w: World, held: set<int>, i: nat)
    requires Linked(w, held) && TaskBooks.AtRest(w) && i < |w.tasks| && !w.tasks[i].free
    ensures Swept(w, Clear(w, i, Done), i, i + 1)
  {
    Numbers(w, held);
    LiveSlot(w, held, i);
  }

  // ------------------------------------------------------------------- a frame

  /** What a frame that stands before slot `i` has reached when it stands before `j`. */
  function Reached(g: State, scripts: seq<Script>, i: nat, j: nat): (State, seq<Script>)
    decreases j - i
  {
    if i >= j then (g, scripts)
    else var (g', scripts') := Passed(g, scripts, i); Reached(g', scripts', i + 1, j)
  }

  lemma {:induction false} ReachedOn(g: State, scripts: seq<Script>, i: nat, j: nat, n: nat)
    requires i <= j <= n
    ensures var (g', scripts') := Reached(g, scripts, i, j);
            Reached(g, scripts, i, n) == Reached(g', scripts', j, n)
    decreases j - i
  {
    hide Passed;
    if i < j {
      var (g', scripts') := Passed(g, scripts, i);
      ReachedOn(g', scripts', i + 1, j, n);
    }
  }

  lemma {:induction false} SweepReaches(g: State, scripts: seq<Script>, i: nat, n: nat) returns (m: nat)
    ensures m >= i && m >= n && Reached(g, scripts, i, m).0 == Sweep(g, scripts, i)
    ensures m >= |Sweep(g, scripts, i).world.tasks|
    decreases |scripts|, if i < |g.world.tasks| then |g.world.tasks| - i else 0, n - i
  {
    if i >= |g.world.tasks| {
      if i >= n {
        m := i;
      } else {
        m := SweepReaches(g, scripts, i + 1, n);
      }
    } else {
      var (g', scripts') := Passed(g, scripts, i);
      m := SweepReaches(g', scripts', i + 1, n);
    }
  }

  /** Any stretch of a frame keeps the state good, and only the tasks in the slots it
      passes take turns, one each at most. */
  lemma {:induction false} ReachedKeeps(g: State, scripts: seq<Script>, i: nat, j: nat)
    requires Good(g) && TaskBooks.AtRest(g.world) && i <= j
    ensures var g' := Reached(g, scripts, i, j).0;
            && Good(g') && TaskBooks.AtRest(g'.world) && g'.now == g.now && g'.reg.chain == g.reg.chain
            && Swept(g.world, g'.world, i, j)
    decreases j - i
  {
    hide Linked, Booked, Sound, Swept;
    SweptSame(g.world, g.reg.held, i, j);
    if i < j {
      var (g', scripts') := Passed(g, scripts, i);
      if HasTurn(g, i) {
        TurnTaken(g, i, First(scripts));
      } else {
        SweptSame(g.world, g.reg.held, i, i + 1);
      }
      ReachedKeeps(g', scripts', i + 1, j);
      SweptTrans(g.world, g'.world, Reached(g, scripts, i, j).0.world, i, j);
    }
  }

  /** What the frame finds in slot `j` when it gets there. */
  lemma Waits(w: World, held: set<int>, w1: World, held1: set<int>, j: nat, k: nat)
    requires Linked(w, held) && k in w.lives && w.lives[k].fate == Live(j)
    requires Linked(w1, held1) && Swept(w, w1, 0, j)
    ensures j < |w.tasks| <= |w1.tasks| == |w1.serials| && k in w1.lives && Aged(w.lives[k], w1.lives[k])
    ensures w1.lives[k].fate == Live(j) ==>
              && w1.serials[j] == k && !w1.tasks[j].free
              && w1.tasks[j] == w.tasks[j].(base := w1.tasks[j].base, next := w1.tasks[j].next)
  {
    assert LifeLinked(w, k) && SlotLinked(w, j);
    assert OneTurn(w.lives[k], w1.lives[k], 0, j);
    assert SlotKept(w, w1, j);
    assert LifeLinked(w1, k);
  }

  /** The passing of slot `j`, for the registration in it or one that has been removed. */
  lemma PassesSlot(g: State, scripts: seq<Script>, j: nat, k: nat)
    requires Good(g) && TaskBooks.AtRest(g.world) && k in g.world.lives
    requires g.world.lives[k].fate == Live(j) || g.world.lives[k].fate == Removed
    ensures var (g', scripts') := Passed(g, scripts, j);
            && Good(g') && TaskBooks.AtRest(g'.world) && k in g'.world.lives
            && var l, l' := g.world.lives[k], g'.world.lives[k];
               if l.fate == Removed || !HasTurn(g, j) then l' == l
               else if l.plan == Times(0) then l' == l.(fate := Done)
               else TookTurn(l, First(scripts).executable, l')
  {
    hide Booked, Sound, TookTurn;
    if HasTurn(g, j) {
      assert LifeLinked(g.world, k);
      TurnTaken(g, j, First(scripts));
      assert OneTurn(g.world.lives[k], Turn(g, j, First(scripts)).world.lives[k], j, j + 1);
    }
  }

  /** The rest of the frame gives no turn to what is behind it. */
  lemma PassedAlready(g: State, scripts: seq<Script>, j: nat, n: nat, k: nat)
    requires Good(g) && TaskBooks.AtRest(g.world) && j <= n && k in g.world.lives
    requires g.world.lives[k].fate.Live? ==> g.world.lives[k].fate.slot < j
    ensures var w' := Reached(g, scripts, j, n).0.world; k in w'.lives && Aged(g.world.lives[k], w'.lives[k])
  {
    hide Linked, Booked, Sound;
    ReachedKeeps(g, scripts, j, n);
    var w' := Reached(g, scripts, j, n).0.world;
    assert k in w'.lives && OneTurn(g.world.lives[k], w'.lives[k], j, n);
  }

  /** How the frame `scripts` serves the registration `k` in slot `j`. When it gets to the
      slot, a callback may have removed `k`, or given it another time. If it is there and
      due, it takes exactly one turn, a run if and only if its plugin can be called; else
      it takes none. */
  ghost predicate Served(g: State, scripts: seq<Script>, j: nat, k: nat) {
    var (there, left) := Reached(g, scripts, 0, j);
    var end := Sweep(g, scripts, 0);
    && k in g.world.lives && k in there.world.lives && k in end.world.lives
    && j < |g.world.tasks| && j < |there.world.tasks|
    && var l, l1, l2 := g.world.lives[k], there.world.lives[k], end.world.lives[k];
       var t := there.world.tasks[j];
       if l1 == l then
         && t == g.world.tasks[j].(base := t.base, next := t.next)
         && if !Due(t, g.now) then Aged(l, l2)
            else if l.plan == Times(0) then l2 == l.(fate := Done)
            else TookTurn(l, First(left).executable, l2)
       else l1 == l2 == l.(fate := Removed)
  }

  lemma FrameTurn(g: State, scripts: seq<Script>, j: nat, k: nat)
    requires Good(g) && TaskBooks.AtRest(g.world) && k in g.world.lives && g.world.lives[k].fate == Live(j)
    ensures Served(g, scripts, j, k)
  {
    hide Good, Swept, TaskBooks.AtRest, Passed, Reached, Sweep, Due;
    var (there, left) := Reached(g, scripts, 0, j);
    ReachedKeeps(g, scripts, 0, j);
    WaitsIn(g, there, j, k);
    var n := SweepReaches(g, scripts, 0, j + 1);
    ReachedOn(g, scripts, 0, j, n);
    PassesSlot(there, left, j, k);
    var (next, left') := Passed(there, left, j);
    ReachedStep(there, left, j, n);
    PassedAlready(next, left', j + 1, n, k);
  }

  lemma WaitsIn(g: State, there: State, j: nat, k: nat)
    requires Good(g) && k in g.world.lives && g.world.lives[k].fate == Live(j)
    requires Good(there) && Swept(g.world, there.world, 0, j)
    ensures j < |g.world.tasks| <= |there.world.tasks| && k in there.world.lives
    ensures Aged(g.world.lives[k], there.world.lives[k])
    ensures there.world.lives[k].fate == Live(j) ==>
              && !there.world.tasks[j].free && there.world.tasks[j] ==
                 g.world.tasks[j].(base := there.world.tasks[j].base, next := there.world.tasks[j].next)
  {
    Waits(g.world, g.reg.held, there.world, there.reg.held, j, k);
  }

  lemma ReachedStep(g: State, scripts: seq<Script>, j: nat, n: nat)
    requires j < n
    ensures var (g', scripts') := Passed(g, scripts, j); Reached(g, scripts, j, n) == Reached(g', scripts', j + 1, n)
  {
  }

  /** In a frame nothing takes two turns, be it registered before or meanwhile, and nothing
      takes a turn that had gone before. */
  lemma FrameOnce(g: State, scripts: seq<Script>)
    requires Good(g) && TaskBooks.AtRest(g.world)
    ensures var end := Sweep(g, scripts, 0);
            && Good(end) && TaskBooks.AtRest(end.world) && end.now == g.now && end.reg.chain == g.reg.chain
            && (forall k | k in g.world.lives :: k in end.world.lives && OneTurnAtMost(g.world.lives[k], end.world.lives[k]))
            && (forall k | k in end.world.lives && k !in g.world.lives :: |end.world.lives[k].turns| <= 1)
  {
    hide Linked, Booked, Sound, OneTurnAtMost;
    var n := SweepReaches(g, scripts, 0, 0);
    ReachedKeeps(g, scripts, 0, n);
    var w, w' := g.world, Sweep(g, scripts, 0).world;
    forall k | k in w.lives ensures k in w'.lives && OneTurnAtMost(w.lives[k], w'.lives[k]) {
      assert OneTurn(w.lives[k], w'.lives[k], 0, n);
      OneTurnIs(w.lives[k], w'.lives[k], n);
    }
    forall k | k in w'.lives && k !in w.lives ensures |w'.lives[k].turns| <= 1 {
      assert NewTurn(w'.lives[k], n);
    }
  }

  predicate OneTurnAtMost(l: Life, l': Life) {
    && l'.plan == l.plan && (l'.fate == l.fate || (l.fate.Live? && !l'.fate.Live?))
    && |l.turns| <= |l'.turns| <= |l.turns| + 1 && l'.turns[..|l.turns|] == l.turns
    && (!l.fate.Live? ==> l' == l)
  }

  lemma OneTurnIs(l: Life, l': Life, n: nat)
    requires OneTurn(l, l', 0, n)
    ensures OneTurnAtMost(l, l')
  {
  }

  // --------------------------------------------------- a frame without callbacks

  /** The functions that are called do nothing. */
  predicate Quiet(scripts: seq<Script>) {
    forall i | 0 <= i < |scripts| :: scripts[i].acts == []
  }

  /** How many slots before `j` have a turn now. */
  function TurnsBefore(g: State, j: nat): nat {
    if j == 0 then 0 else TurnsBefore(g, j - 1) + if HasTurn(g, j - 1) then 1 else 0
  }

  function Dropped(scripts: seq<Script>, n: nat): seq<Script> {
    if n >= |scripts| then [] else scripts[n..]
  }

  /** Whether the plugin can be called at the turn of slot `j`. */
  predicate Callable(g: State, scripts: seq<Script>, j: nat) {
    First(Dropped(scripts, TurnsBefore(g, j))).executable
  }

  function TaskAfter(t: Task): Task {
    if LastTurn(t) then Cleared(t) else Waiting(t)
  }

  function LifeAfter(l: Life, executable: bool): Life {
    if l.plan == Times(0) then l.(fate := Done)
    else Turned(l, executable, executable).(fate := if l.plan == Times(|l.turns| + 1) then Done else l.fate)
  }

  lemma QuietTurn(g: State, i: nat, script: Script)
    requires Good(g) && TaskBooks.AtRest(g.world) && HasTurn(g, i) && script.acts == []
    ensures i < |g.world.serials| && g.world.serials[i] in g.world.lives
    ensures g.world.lives[g.world.serials[i]].fate == Live(i)
    ensures var w, w', s := g.world, Turn(g, i, script).world, g.world.serials[i];
            && w'.tasks == w.tasks[i := TaskAfter(w.tasks[i])] && w'.serials == w.serials
            && w'.lives == w.lives[s := LifeAfter(w.lives[s], script.executable)]
  {
    hide Linked, Booked, Sound, Later;
    LiveSlot(g.world, g.reg.held, i);
    NoTurns(g.world, g.reg.held, i);
    if Remaining(g.world.tasks[i]) != Times(0) {
      CalledReturns(g, i, script);
    }
  }

  /** What a quiet frame has done when it stands before slot `j`. */
  ghost predicate QuietTo(g: State, scripts: seq<Script>, j: nat, g': State) {
    var w, w' := g.world, g'.world;
    && |w'.tasks| == |w.tasks| && w'.serials == w.serials && w'.lives.Keys == w.lives.Keys
    && (forall q | 0 <= q < |w.tasks| ::
          w'.tasks[q] == if q < j && HasTurn(g, q) then TaskAfter(w.tasks[q]) else w.tasks[q])
    && forall k | k in w.lives :: w'.lives[k] == QuietLife(g, scripts, j, w.lives[k])
  }

  function QuietLife(g: State, scripts: seq<Script>, j: nat, l: Life): Life {
    if l.fate.Live? && l.fate.slot < j && HasTurn(g, l.fate.slot) then LifeAfter(l, Callable(g, scripts, l.fate.slot)) else l
  }

  lemma QuietStep(g: State, scripts: seq<Script>, j: nat, there: State, left: seq<Script>)
    requires Good(g) && QuietTo(g, scripts, j, there) && left == Dropped(scripts, TurnsBefore(g, j))
    requires Good(there) && TaskBooks.AtRest(there.world) && there.now == g.now && Quiet(scripts)
    ensures QuietTo(g, scripts, j + 1, Passed(there, left, j).0)
  {
    hide Good, Quiet, HasTurn, LifeAfter, TaskAfter, TurnsBefore, Dropped;
    QuietHas(g, scripts, j, there);
    OwnSerial(g, j);
    if HasTurn(there, j) {
      TurnIsIn(there, j);
      FirstIsQuiet(scripts, TurnsBefore(g, j));
      QuietTurn(there, j, First(left));
      forall k | k in g.world.lives && g.world.lives[k].fate != Live(j)
        ensures QuietLife(g, scripts, j, g.world.lives[k]).fate != Live(j)
      {
        FateAfter(g.world.lives[k]);
      }
    }
  }

  lemma OwnSerial(g: State, j: nat)
    requires Good(g)
    ensures forall k | k in g.world.lives && g.world.lives[k].fate == Live(j) ::
              j < |g.world.serials| && g.world.serials[j] == k
  {
    forall k | k in g.world.lives && g.world.lives[k].fate == Live(j)
      ensures j < |g.world.serials| && g.world.serials[j] == k
    {
      assert LifeLinked(g.world, k);
    }
  }

  lemma FirstIsQuiet(scripts: seq<Script>, n: nat)
    requires Quiet(scripts)
    ensures First(Dropped(scripts, n)).acts == []
  {
  }

  lemma FateAfter(l: Life)
    ensures forall x :: LifeAfter(l, x).fate == l.fate || LifeAfter(l, x).fate == Done
  {
  }

  lemma {:induction false} QuietReached(g: State, scripts: seq<Script>, j: nat)
    requires Good(g) && TaskBooks.AtRest(g.world) && Quiet(scripts)
    ensures var (there, left) := Reached(g, scripts, 0, j);
            QuietTo(g, scripts, j, there) && left == Dropped(scripts, TurnsBefore(g, j))
  {
    hide Good, TaskBooks.AtRest, Swept, Passed, Quiet;
    if j > 0 {
      QuietReached(g, scripts, j - 1);
      ReachedKeeps(g, scripts, 0, j - 1);
      ReachedOn(g, scripts, 0, j - 1, j);
      var (there, left) := Reached(g, scripts, 0, j - 1);
      QuietStep(g, scripts, j - 1, there, left);
      ReachedStep(there, left, j - 1, j);
      QuietHas(g, scripts, j - 1, there);
      PassedDrops(there, left, j - 1);
    }
  }

  lemma PassedDrops(g: State, scripts: seq<Script>, i: nat)
    ensures Passed(g, scripts, i).1 == if HasTurn(g, i) then Rest(scripts) else scripts
  {
  }

  lemma QuietHas(g: State, scripts: seq<Script>, j: nat, there: State)
    requires QuietTo(g, scripts, j, there) && there.now == g.now
    ensures HasTurn(there, j) <==> HasTurn(g, j)
  {
  }

  /** When the called functions do nothing, the tasks that are due at the start of the frame
      are exactly those that take a turn in it, each one turn, a run if and only if its
      plugin can be called; the others stay as they are. */
  lemma QuietFrame(g: State, scripts: seq<Script>)
    requires Good(g) && TaskBooks.AtRest(g.world) && Quiet(scripts)
    ensures var w, w' := g.world, Sweep(g, scripts, 0).world;
            && |w'.tasks| == |w.tasks| && w'.serials == w.serials && w'.lives.Keys == w.lives.Keys
            && (forall q | 0 <= q < |w.tasks| :: w'.tasks[q] == if HasTurn(g, q) then TaskAfter(w.tasks[q]) else w.tasks[q])
            && forall k | k in w.lives ::
                 w'.lives[k] == var l := w.lives[k];
                                if l.fate.Live? && HasTurn(g, l.fate.slot) then LifeAfter(l, Callable(g, scripts, l.fate.slot)) else l
  {
    hide Good, TaskBooks.AtRest, Quiet, HasTurn;
    var n := SweepReaches(g, scripts, 0, |g.world.tasks|);
    QuietReached(g, scripts, n);
    forall k | k in g.world.lives && g.world.lives[k].fate.Live? && HasTurn(g, g.world.lives[k].fate.slot)
      ensures g.world.lives[k].fate.slot < n
    {
      TurnIsIn(g, g.world.lives[k].fate.slot);
    }
  }

  lemma TurnIsIn(g: State, i: nat)
    requires HasTurn(g, i)
    ensures i < |g.world.tasks|
  {
  }

  // --------------------------------------------------------------- whole histories

  lemma FreshIsGood()
    ensures Good(Fresh()) && TaskBooks.AtRest(Fresh().world)
  {
  }

  /** After any history the state is good and nothing is running. */
  lemma {:induction false} AlwaysGood(events: seq<Event>)
    ensures Good(After(events)) && TaskBooks.AtRest(After(events).world) && After(events).reg.chain == []
  {
    hide Linked, Booked, Sound, Later;
    FreshIsGood();
    if events != [] {
      var g := After(events[..|events| - 1]);
      AlwaysGood(events[..|events| - 1]);
      match events[|events| - 1]
      case Frame(time, scripts) => FrameOnce(g.(now := time), scripts);
      case Outside(acts) =>
        PerformedLeads(g, acts);
        LaterRests(g.world, Performed(g, acts).world);
    }
  }

  lemma LaterRests(w: World, w': World)
    requires Later(w, w') && TaskBooks.AtRest(w)
    ensures TaskBooks.AtRest(w')
  {
  }

  /** After any history every registration is on its plan: one that is done has taken as
      many turns as planned, and has run as often exactly when its plugin could be called
      at every one of them. No forward id is lost. */
  lemma AlwaysOnPlan(events: seq<Event>)
    ensures var g := After(events);
            && (forall k | k in g.world.lives ::
                  var l := g.world.lives[k];
                  && OnPlan(l) && l.runs + l.missed == |l.turns|
                  && (l.fate == Done ==>
                        && l.plan == Times(|l.turns|)
                        && (l.runs == |l.turns| <==> forall i | 0 <= i < |l.turns| :: l.turns[i])))
            && forall j | 0 <= j < |g.reg.slots| ::
                 Id(j) in g.world.clients || Id(j) in g.world.ids || Id(j) in g.reg.freeIds
  {
    hide Linked, Booked, Sound;
    AlwaysGood(events);
    var g := After(events);
    BooksOnPlan(g.world, g.reg.held);
    AllSettled(g.world);
    forall k | k in g.world.lives && g.world.lives[k].fate == Done
      ensures g.world.lives[k].runs == |g.world.lives[k].turns| <==>
              forall i | 0 <= i < |g.world.lives[k].turns| :: g.world.lives[k].turns[i]
    {
      DoneExactly(g.world.lives[k]);
    }
    Forwards.AtRest(g.reg);
    OwnHeld(g.world, g.reg.held);
  }

  lemma AllSettled(w: World)
    requires Booked(w)
    ensures forall k | k in w.lives :: Settled(w.lives[k])
  {
  }

  /** A task that is to run once, and is due while its plugin is paused: it is done, and has
      never run. */
  lemma PausedOnce()
    ensures var once := Outside([SetTask(Some(0), 0.1, 0, 0, 0, 0)]);
            var w := After([once, Frame(1.0, [Script(false, [])])]).world;
            w.lives == map[0 := Life(Times(1), 0, 1, [false], Done)]
  {
    hide Good, TaskBooks.AtRest, Sweep;
    var act, scripts := SetTask(Some(0), 0.1, 0, 0, 0, 0), [Script(false, [])];
    var once, frame, l := Outside([act]), Frame(1.0, scripts), Life(Times(1), 0, 0, [], Live(0));
    AlwaysGood([once]);
    assert [once, frame][..1] == [once] && [once][..0] == [] && [act][..0] == [];
    assert Performed(Fresh(), [act]) == Do(Performed(Fresh(), []), act);
    var g := After([once]);
    assert g == Do(Fresh(), act) && g.world.lives == map[0 := l];
    var g' := g.(now := 1.0);
    SameGood(g, g');
    QuietFrame(g', scripts);
    assert HasTurn(g', 0) && !Callable(g', scripts, 0);
    var w' := Sweep(g', scripts, 0).world;
    assert After([once, frame]).world == w';
    assert l.turns + [false] == [false];
    assert LifeAfter(l, false) == Life(Times(1), 0, 1, [false], Done);
    assert w'.lives.Keys == {0} && w'.lives[0] == LifeAfter(l, false);
    assert w'.lives == map[0 := Life(Times(1), 0, 1, [false], Done)];
  }

  lemma SameGood(g: State, g': State)
    requires Good(g) && g'.reg == g.reg && g'.world == g.world
    ensures Good(g')
  {
  }
}
