/** The scheduler's tasks, and the books that say how often each has run. */
module TaskBooks {

  /** A task slot; `func` is the id of its forward, -1 when there is none. */
  datatype Task = Task(free: bool, inExecute: bool, func: int, id: int, amx: nat, base: real, next: real,
                       isLoop: bool, repeat: int, afterStart: bool, beforeEnd: bool)

  /** How often a task is to take a turn. */
  datatype Plan = Times(n: nat) | Forever

  /** Whether a registered task still has its slot, has used its turns up, or was removed. */
  datatype Fate = Live(slot: nat) | Done | Removed

  /** A registration: its plan; how often its function has run, and how often a turn was
      missed because its plugin was paused; and for every turn whether the plugin could be
      called. */
  datatype Life = Life(plan: Plan, runs: nat, missed: nat, turns: seq<bool>, fate: Fate)

  /** The slots; the registration each slot holds and the life of every registration so
      far; and who has the forward ids: a task, by slot, or another client. */
  datatype World = World(tasks: seq<Task>, serials: seq<nat>, lives: map<nat, Life>, count: nat,
                         ids: map<int, nat>, clients: set<int>)

  /** The turns that a task still has to take, or has just begun. */
  function Remaining(t: Task): Plan {
    if !t.isLoop then Times(1)
    else if t.repeat == -1 then Forever
    else if t.repeat < 0 then Times(1)
    else Times(t.repeat)
  }

  /** The plan of a task that is set with flags and a repeat count: `b` repeats forever,
      `a` as often as asked, and neither means once. */
  function PlanOf(flags: nat, repeat: int): Plan {
    if flags / 2 % 2 == 1 || (flags % 2 == 1 && repeat == -1) then Forever
    else if flags % 2 == 1 then Times(if repeat < 0 then 1 else repeat)
    else Times(1)
  }

  /** A task that has just been set. */
  function NewTask(func: int, flags: nat, id: int, amx: nat, base: real, repeat: int, now: real): Task {
    Task(false, false, func, id, amx, base, now + base,
         flags / 2 % 2 == 1 || flags % 2 == 1,
         if flags / 2 % 2 == 1 then -1 else if flags % 2 == 1 then repeat else 0,
         flags / 4 % 2 == 1, flags / 8 % 2 == 1)
  }

  /** A task that is cleared, whether or not it is running. */
  function Cleared(t: Task): Task {
    Task(true, t.inExecute, -1, 0, 0, 0.0, 0.0, false, 0, false, false)
  }

  /** The first slot that is free and not running, else one past the end. */
  function FirstFree(ts: seq<Task>): (i: nat)
    ensures i <= |ts| && (i < |ts| ==> ts[i].free && !ts[i].inExecute)
    ensures forall j | 0 <= j < i :: !ts[j].free || ts[j].inExecute
  {
    if ts == [] || (ts[0].free && !ts[0].inExecute) then 0
    else
      assert forall j | 1 <= j < |ts| :: ts[j] == ts[1..][j - 1];
      1 + FirstFree(ts[1..])
  }

  // ---------------------------------------------------------------- ownership

  predicate SlotLinked(w: World, i: nat)
    requires i < |w.tasks| == |w.serials|
  {
    var t := w.tasks[i];
    && w.serials[i] < w.count
    && if t.free then t.func == -1
       else && t.func in w.ids && w.ids[t.func] == i
            && w.serials[i] in w.lives && w.lives[w.serials[i]].fate == Live(i)
  }

  predicate IdLinked(w: World, id: int)
    requires id in w.ids
  {
    var i := w.ids[id];
    i < |w.tasks| && !w.tasks[i].free && w.tasks[i].func == id && id !in w.clients && id >= 0
  }

  predicate LifeLinked(w: World, k: nat)
    requires k in w.lives && |w.tasks| == |w.serials|
  {
    match w.lives[k].fate
    case Live(i) => k < w.count && i < |w.tasks| && !w.tasks[i].free && w.serials[i] == k
    case _ => k < w.count
  }

  /** Live tasks have ids and registrations of their own, and the ids that are held are
      exactly theirs and the other clients'. */
  ghost predicate Linked(w: World, held: set<int>) {
    && |w.tasks| == |w.serials|
    && (forall i {:trigger SlotLinked(w, i)} | 0 <= i < |w.tasks| :: SlotLinked(w, i))
    && (forall id {:trigger IdLinked(w, id)} | id in w.ids :: IdLinked(w, id))
    && (forall k {:trigger LifeLinked(w, k)} | k in w.lives :: LifeLinked(w, k))
    && held == w.clients + w.ids.Keys
  }

  /** No two live tasks share a forward id. */
  lemma NoSharedIds(w: World, held: set<int>, i: nat, j: nat)
    requires Linked(w, held) && i < j < |w.tasks| && !w.tasks[i].free && !w.tasks[j].free
    ensures w.tasks[i].func != w.tasks[j].func && w.tasks[i].func in held - w.clients
    ensures w.serials[i] != w.serials[j]
  {
    assert SlotLinked(w, i) && SlotLinked(w, j);
    assert IdLinked(w, w.tasks[i].func);
  }

  /** What linkage says of a live slot. */
  lemma LiveSlot(w: World, held: set<int>, i: nat)
    requires Linked(w, held) && i < |w.tasks| && !w.tasks[i].free
    ensures i < |w.serials| && w.serials[i] in w.lives && w.lives[w.serials[i]].fate == Live(i)
    ensures w.tasks[i].func in held && w.tasks[i].func >= 0
  {
    assert SlotLinked(w, i);
    assert IdLinked(w, w.tasks[i].func);
  }

  // -------------------------------------------------------------------- books

  function Trues(turns: seq<bool>): nat {
    if turns == [] then 0 else Trues(turns[..|turns| - 1]) + if turns[|turns| - 1] then 1 else 0
  }

  /** All turns were runs exactly when the plugin could be called at every one. */
  lemma {:induction false} AllTrue(turns: seq<bool>)
    ensures Trues(turns) <= |turns|
    ensures Trues(turns) == |turns| <==> forall i | 0 <= i < |turns| :: turns[i]
  {
    if turns != [] {
      var rest := turns[..|turns| - 1];
      AllTrue(rest);
      assert forall i | 0 <= i < |rest| :: rest[i] == turns[i];
    }
  }

  /** The turns taken and the turns left make the plan; a turn that has begun counts. */
  predicate Books(t: Task, l: Life) {
    match Remaining(t)
    case Forever => l.plan == Forever
    case Times(m) =>
      && l.plan.Times? && l.plan.n + (if t.inExecute then 1 else 0) == m + l.runs + l.missed
      && (m == 0 ==> !t.inExecute && l.runs + l.missed == 0)
  }

  /** Runs and missed turns are told apart by whether the plugin could be called. */
  predicate Settled(l: Life) {
    && l.runs == Trues(l.turns) && l.runs + l.missed == |l.turns|
    && match l.fate
       case Live(_) => true
       case Done => l.plan == Times(l.runs + l.missed)
       case Removed => l.plan.Times? ==> l.runs + l.missed <= l.plan.n
  }

  predicate SlotBooked(w: World, i: nat)
    requires i < |w.tasks| == |w.serials|
  {
    !w.tasks[i].free ==> w.serials[i] in w.lives && Books(w.tasks[i], w.lives[w.serials[i]])
  }

  /** Every live task's books are right, and so were those of every task that has gone. */
  ghost predicate Booked(w: World) {
    && |w.tasks| == |w.serials|
    && (forall i {:trigger SlotBooked(w, i)} | 0 <= i < |w.tasks| :: SlotBooked(w, i))
    && (forall k {:trigger w.lives[k]} | k in w.lives :: Settled(w.lives[k]))
  }

  /** A registration that has not gone has turns left, unless its plan is none; a done one
      has taken as many as planned, a removed one no more. */
  predicate OnPlan(l: Life) {
    match l.plan
    case Forever => l.fate != Done
    case Times(n) =>
      match l.fate
      case Live(_) => l.runs + l.missed < n || n == 0 == l.runs + l.missed
      case Done => l.runs + l.missed == n
      case Removed => l.runs + l.missed <= n
  }

  lemma BooksOnPlan(w: World, held: set<int>)
    requires Linked(w, held) && Booked(w) && AtRest(w)
    ensures forall k | k in w.lives :: OnPlan(w.lives[k])
  {
    forall k | k in w.lives ensures OnPlan(w.lives[k]) {
      assert LifeLinked(w, k) && Settled(w.lives[k]);
      if w.lives[k].fate.Live? {
        assert SlotBooked(w, w.lives[k].fate.slot);
      }
    }
  }

  /** A task that is done has run as often as planned exactly when its plugin could be
      called at every one of its turns. */
  lemma DoneExactly(l: Life)
    requires Settled(l) && l.fate == Done
    ensures |l.turns| == l.plan.n
    ensures l.runs == l.plan.n <==> forall i | 0 <= i < |l.turns| :: l.turns[i]
  {
    AllTrue(l.turns);
  }

  /** No task is running. */
  predicate AtRest(w: World) {
    forall i | 0 <= i < |w.tasks| :: !w.tasks[i].inExecute
  }

  // -------------------------------------------------------------- what happens

  function Clear(w: World, i: nat, fate: Fate): (r: World)
    ensures |r.tasks| == |w.tasks|
  {
    if i < |w.tasks| && i < |w.serials| && w.serials[i] in w.lives then
      var s := w.serials[i];
      w.(tasks := w.tasks[i := Cleared(w.tasks[i])],
         lives := w.lives[s := w.lives[s].(fate := fate)],
         ids := w.ids - {w.tasks[i].func})
    else w
  }

  lemma ClearLinks(w: World, held: set<int>, i: nat, fate: Fate)
    requires Linked(w, held) && i < |w.tasks| && !w.tasks[i].free && !fate.Live?
    ensures Linked(Clear(w, i, fate), held - {w.tasks[i].func})
  {
    assert SlotLinked(w, i);
    var f := w.tasks[i].func;
    assert IdLinked(w, f);
    var w' := Clear(w, i, fate);
    forall j | 0 <= j < |w'.tasks| ensures SlotLinked(w', j) {
      assert SlotLinked(w, j);
    }
    forall id | id in w'.ids ensures IdLinked(w', id) {
      assert IdLinked(w, id);
    }
    forall k | k in w'.lives ensures LifeLinked(w', k) {
      assert LifeLinked(w, k);
    }
    assert w'.ids.Keys == w.ids.Keys - {f};
  }

  lemma ClearBooks(w: World, held: set<int>, i: nat, fate: Fate)
    requires Linked(w, held) && i < |w.tasks| && !w.tasks[i].free && w.serials[i] in w.lives
    requires forall j | 0 <= j < |w.tasks| && j != i :: SlotBooked(w, j)
    requires forall k | k in w.lives && k != w.serials[i] :: Settled(w.lives[k])
    requires Settled(w.lives[w.serials[i]].(fate := fate))
    ensures Booked(Clear(w, i, fate))
  {
    var w' := Clear(w, i, fate);
    forall j | 0 <= j < |w'.tasks| ensures SlotBooked(w', j) {
      if j != i && !w.tasks[j].free {
        assert SlotLinked(w, i) && SlotLinked(w, j) && SlotBooked(w, j);
      }
    }
  }

  /** A task that is removed has taken no more turns than planned. */
  lemma RemovalSettles(w: World, held: set<int>, i: nat)
    requires Linked(w, held) && Booked(w) && i < |w.tasks| && !w.tasks[i].free
    ensures w.serials[i] in w.lives && Booked(Clear(w, i, Removed))
  {
    assert SlotLinked(w, i) && SlotBooked(w, i);
    ClearBooks(w, held, i, Removed);
  }

  /** A plan of no turns is used up. */
  lemma NoneLeft(w: World, held: set<int>, i: nat)
    requires Linked(w, held) && Booked(w) && i < |w.tasks| && !w.tasks[i].free && !w.tasks[i].inExecute
    requires Remaining(w.tasks[i]) == Times(0)
    ensures w.serials[i] in w.lives && w.lives[w.serials[i]].plan == Times(0)
    ensures Booked(Clear(w, i, Done))
  {
    assert SlotLinked(w, i) && SlotBooked(w, i);
    ClearBooks(w, held, i, Done);
  }

  /** A registration takes slot `i`, or a new one, and a forward id of its own. */
  function Put(w: World, i: nat, t: Task): World {
    if i < |w.tasks| && i < |w.serials| then
      w.(tasks := w.tasks[i := t], serials := w.serials[i := w.count],
         lives := w.lives[w.count := Life(Remaining(t), 0, 0, [], Live(i))], count := w.count + 1, ids := w.ids[t.func := i])
    else
      w.(tasks := w.tasks + [t], serials := w.serials + [w.count],
         lives := w.lives[w.count := Life(Remaining(t), 0, 0, [], Live(i))], count := w.count + 1, ids := w.ids[t.func := i])
  }

  lemma PutLinks(w: World, held: set<int>, i: nat, t: Task)
    requires Linked(w, held) && i <= |w.tasks| && (i < |w.tasks| ==> w.tasks[i].free)
    requires !t.free && t.func !in held && t.func >= 0
    ensures Linked(Put(w, i, t), held + {t.func}) && w.count !in w.lives
  {
    var w' := Put(w, i, t);
    forall k | k in w.lives ensures k < w.count {
      assert LifeLinked(w, k);
    }
    forall j | 0 <= j < |w'.tasks| ensures SlotLinked(w', j) {
      if j != i {
        assert SlotLinked(w, j);
        if !w.tasks[j].free {
          assert IdLinked(w, w.tasks[j].func);
        }
      }
    }
    forall id | id in w'.ids ensures IdLinked(w', id) {
      if id != t.func {
        assert IdLinked(w, id);
      }
    }
    forall k | k in w'.lives ensures LifeLinked(w', k) {
      if k != w.count {
        assert LifeLinked(w, k);
      }
    }
    assert w'.ids.Keys == w.ids.Keys + {t.func};
  }

  lemma PutBooks(w: World, held: set<int>, i: nat, t: Task)
    requires Linked(w, held) && Booked(w) && i <= |w.tasks|
    requires !t.free && !t.inExecute
    ensures Booked(Put(w, i, t))
  {
    var w' := Put(w, i, t);
    forall j | 0 <= j < |w'.tasks| ensures SlotBooked(w', j) {
      if j != i && !w.tasks[j].free {
        assert SlotBooked(w, j) && SlotLinked(w, j) && LifeLinked(w, w.serials[j]);
      }
    }
  }

  /** A slot is rewritten. */
  function Touch(w: World, i: nat, t: Task): (r: World)
    ensures |r.tasks| == |w.tasks|
  {
    if i < |w.tasks| then w.(tasks := w.tasks[i := t]) else w
  }

  lemma TouchLinks(w: World, held: set<int>, i: nat, t: Task)
    requires Linked(w, held) && i < |w.tasks| && t.free == w.tasks[i].free && t.func == w.tasks[i].func
    ensures Linked(Touch(w, i, t), held)
  {
    var w' := Touch(w, i, t);
    forall j | 0 <= j < |w'.tasks| ensures SlotLinked(w', j) {
      assert SlotLinked(w, j);
    }
    forall id | id in w'.ids ensures IdLinked(w', id) {
      assert IdLinked(w, id);
    }
    forall k | k in w'.lives ensures LifeLinked(w', k) {
      assert LifeLinked(w, k);
    }
  }

  lemma TouchBooks(w: World, i: nat, t: Task)
    requires Booked(w) && i < |w.tasks| && SlotBooked(Touch(w, i, t), i)
    ensures Booked(Touch(w, i, t))
  {
    var w' := Touch(w, i, t);
    forall j | 0 <= j < |w'.tasks| ensures SlotBooked(w', j) {
      assert SlotBooked(w, j);
    }
  }

  /** A turn of slot `i` begins: it counts at once, as a run or as missed, and the slot is
      marked as running. */
  function Start(w: World, i: nat, executable: bool, ran: bool): (r: World)
    ensures |r.tasks| == |w.tasks|
  {
    if i < |w.tasks| && i < |w.serials| && w.serials[i] in w.lives then
      var s := w.serials[i];
      w.(tasks := w.tasks[i := w.tasks[i].(inExecute := true)], lives := w.lives[s := Turned(w.lives[s], executable, ran)])
    else w
  }

  function Turned(l: Life, executable: bool, ran: bool): Life {
    l.(runs := l.runs + (if ran then 1 else 0), missed := l.missed + (if ran then 0 else 1), turns := l.turns + [executable])
  }

  lemma TurnedSettled(l: Life, executable: bool)
    requires Settled(l) && l.fate.Live?
    ensures Settled(Turned(l, executable, executable))
  {
    assert (l.turns + [executable])[..|l.turns|] == l.turns;
  }

  /** The function of a task that holds its forward runs exactly when its plugin can be
      called, so the books stay right. */
  lemma StartKeeps(w: World, held: set<int>, i: nat, executable: bool)
    requires Linked(w, held) && Booked(w) && i < |w.tasks| && !w.tasks[i].free && !w.tasks[i].inExecute
    requires Remaining(w.tasks[i]) != Times(0)
    ensures Linked(Start(w, i, executable, executable), held) && Booked(Start(w, i, executable, executable))
  {
    hide Settled;
    assert SlotLinked(w, i) && SlotBooked(w, i);
    var w' := Start(w, i, executable, executable);
    TurnedSettled(w.lives[w.serials[i]], executable);
    forall j | 0 <= j < |w'.tasks| ensures SlotLinked(w', j) && SlotBooked(w', j) {
      assert SlotLinked(w, j) && SlotBooked(w, j);
    }
    forall id | id in w'.ids ensures IdLinked(w', id) {
      assert IdLinked(w, id);
    }
    forall k | k in w'.lives ensures LifeLinked(w', k) && Settled(w'.lives[k]) {
      assert LifeLinked(w, k) && Settled(w.lives[k]);
    }
  }

  // ------------------------------------------------------------- one world later

  /** Registrations are numbered, and the numbers of the slots have been given out. */
  predicate Numbered(w: World) {
    && |w.tasks| == |w.serials|
    && forall i | 0 <= i < |w.serials| :: w.serials[i] < w.count
  }

  lemma Numbers(w: World, held: set<int>)
    requires Linked(w, held)
    ensures Numbered(w)
  {
    forall i | 0 <= i < |w.serials| ensures w.serials[i] < w.count {
      assert SlotLinked(w, i);
    }
  }

  /** What callbacks and other clients cannot do: give a task a turn, change a plan, revive
      what has gone, or touch the slot of a running task other than by removing it. What
      they can do to a task that stays is to give it another time. */
  ghost predicate Later(w: World, w': World) {
    && Numbered(w) && Numbered(w') && |w.tasks| <= |w'.tasks| && w.count <= w'.count
    && (forall i | 0 <= i < |w'.tasks| ::
          w'.tasks[i].inExecute <==> i < |w.tasks| && w.tasks[i].inExecute)
    && (forall i {:trigger SlotKept(w, w', i)} | 0 <= i < |w.tasks| :: SlotKept(w, w', i))
    && (forall k {:trigger w'.lives[k]} {:trigger w.lives[k]} | k in w.lives :: k in w'.lives && Aged(w.lives[k], w'.lives[k]))
    && (forall k {:trigger w'.lives[k]} | k in w'.lives && k !in w.lives ::
          k >= w.count && w'.lives[k].turns == [])
  }

  predicate SlotKept(w: World, w': World, i: nat)
    requires i < |w.tasks| == |w.serials| && i < |w'.tasks| == |w'.serials|
  {
    var t, t' := w.tasks[i], w'.tasks[i];
    && (t.inExecute ==> w'.serials[i] == w.serials[i])
    && (w'.serials[i] == w.serials[i] ==> t'.free || t' == t.(base := t'.base, next := t'.next))
    && (w'.serials[i] != w.serials[i] ==> w.count <= w'.serials[i])
  }

  predicate Aged(l: Life, l': Life) {
    && (l'.plan, l'.runs, l'.missed, l'.turns) == (l.plan, l.runs, l.missed, l.turns)
    && (l'.fate == l.fate || (l.fate.Live? && l'.fate == Removed))
  }

  lemma LaterSame(w: World, held: set<int>)
    requires Linked(w, held)
    ensures Later(w, w)
  {
    Numbers(w, held);
  }

  lemma LaterTrans(w: World, w': World, w'': World)
    requires Later(w, w') && Later(w', w'')
    ensures Later(w, w'')
  {
    forall i | 0 <= i < |w.tasks| ensures SlotKept(w, w'', i) {
      assert SlotKept(w, w', i) && SlotKept(w', w'', i);
    }
    forall k | k in w.lives ensures k in w''.lives && Aged(w.lives[k], w''.lives[k]) {
      assert Aged(w.lives[k], w'.lives[k]) && Aged(w'.lives[k], w''.lives[k]);
    }
    forall k | k in w''.lives && k !in w.lives ensures k >= w.count && w''.lives[k].turns == [] {
      assert k in w'.lives ==> Aged(w'.lives[k], w''.lives[k]);
    }
  }

  lemma LaterClear(w: World, held: set<int>, i: nat)
    requires Linked(w, held) && i < |w.tasks| && !w.tasks[i].free
    ensures Later(w, Clear(w, i, Removed))
  {
    Numbers(w, held);
    assert SlotLinked(w, i);
  }

  lemma LaterPut(w: World, held: set<int>, i: nat, t: Task)
    requires Linked(w, held) && i <= |w.tasks| && (i < |w.tasks| ==> !w.tasks[i].inExecute) && !t.inExecute
    ensures Later(w, Put(w, i, t))
  {
    Numbers(w, held);
    forall k | k in w.lives ensures k < w.count {
      assert LifeLinked(w, k);
    }
  }

  lemma LaterTouch(w: World, held: set<int>, i: nat, t: Task)
    requires Linked(w, held) && i < |w.tasks| && t == w.tasks[i].(base := t.base, next := t.next)
    ensures Later(w, Touch(w, i, t))
  {
    Numbers(w, held);
  }

  // ------------------------------------------------------------- other clients

  /** Another client takes an id. */
  lemma ClientTakes(w: World, held: set<int>, func: int)
    requires Linked(w, held) && Booked(w) && func !in held
    ensures var w' := w.(clients := w.clients + {func});
            Linked(w', held + {func}) && Booked(w') && Later(w, w')
  {
    Numbers(w, held);
    var w' := w.(clients := w.clients + {func});
    forall i | 0 <= i < |w.tasks| ensures SlotLinked(w', i) && SlotBooked(w', i) {
      assert SlotLinked(w, i) && SlotBooked(w, i);
    }
    forall id | id in w.ids ensures IdLinked(w', id) {
      assert IdLinked(w, id);
    }
    forall k | k in w.lives ensures LifeLinked(w', k) {
      assert LifeLinked(w, k);
    }
  }

  /** Another client gives an id of its own up. */
  lemma ClientLeaves(w: World, held: set<int>, func: int)
    requires Linked(w, held) && Booked(w) && func in w.clients
    ensures var w' := w.(clients := w.clients - {func});
            func in held && Linked(w', held - {func}) && Booked(w') && Later(w, w')
  {
    Numbers(w, held);
    var w' := w.(clients := w.clients - {func});
    forall id | id in w.ids ensures IdLinked(w', id) && id != func {
      assert IdLinked(w, id);
    }
    forall i | 0 <= i < |w.tasks| ensures SlotLinked(w', i) && SlotBooked(w', i) {
      assert SlotLinked(w, i) && SlotBooked(w, i);
    }
    forall k | k in w.lives ensures LifeLinked(w', k) {
      assert LifeLinked(w, k);
    }
    assert held - {func} == w'.clients + w'.ids.Keys;
  }
}
