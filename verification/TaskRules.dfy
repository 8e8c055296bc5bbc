/** What the scheduler and the natives around it do, as functions of its state, and what
    callbacks can do to it. */
module TaskRules {
  import opened Wrappers
  import opened Forwards
  import opened TaskBooks

  /** What a plugin may do, in a callback or outside: the natives of the scheduler and of
      single-plugin forwards. Running a forward runs the body of its function, unless its
      plugin is paused. */
  datatype Act =
    | SetTask(target: Option<nat>, base: real, id: int, amx: nat, flags: nat, repeat: int)
    | RemoveTask(id: int, from: Option<nat>)
    | ChangeTask(id: int, from: Option<nat>, base: real)
    | CreateForward(target: Option<nat>)
    | DestroyForward(forward: int)
    | ExecuteForward(forward: int, executable: bool, body: seq<Act>)

  /** What happens when the scheduler calls a task's function. */
  datatype Script = Script(executable: bool, acts: seq<Act>)

  /** What can happen to a scheduler: a frame, with what happens at the turns in it, or
      calls of the natives outside a frame. */
  datatype Event = Frame(time: real, scripts: seq<Script>) | Outside(acts: seq<Act>)

  /** The forwards, the tasks with their books, and the time of the current frame. */
  datatype State = State(reg: Registry, world: World, now: real)

  /** A descriptor matches a live task by id and, if asked, by plugin. */
  predicate Described(t: Task, id: int, from: Option<nat>) {
    !t.free && (from.None? || t.amx == from.value) && t.id == id
  }

  /** A task is due by its time, or else by its base. */
  predicate Due(t: Task, now: real) {
    if t.afterStart then now + 1.0 >= t.base
    else if t.beforeEnd then now - 1.0 <= t.base
    else t.next <= now
  }

  // ---------------------------------------------------------------- the natives

  /** A live task is cleared and gives its forward back. */
  function ClearAt(g: State, i: nat, fate: Fate): (r: State)
    ensures |r.world.tasks| == |g.world.tasks| && r.now == g.now
  {
    if i < |g.world.tasks|
    then State(Unregistered(g.reg, g.world.tasks[i].func), Clear(g.world, i, fate), g.now)
    else g
  }

  /** A task is set, unless its name is no public function. */
  function Scheduled(g: State, target: Option<nat>, base: real, id: int, amx: nat, flags: nat, repeat: int): State {
    var reg := Registered(g.reg, target);
    if target.None? then g.(reg := reg)
    else
      var t := NewTask(NextId(g.reg), flags, id, amx, if base < 0.1 then 0.1 else base, repeat, g.now);
      g.(reg := reg, world := Put(g.world, FirstFree(g.world.tasks), t))
  }

  /** Every task from slot `i` on that is described is removed. */
  function RemovedFrom(g: State, id: int, from: Option<nat>, i: nat): State
    decreases |g.world.tasks| - i
  {
    if i >= |g.world.tasks| then g
    else RemovedFrom(if Described(g.world.tasks[i], id, from) then ClearAt(g, i, Removed) else g, id, from, i + 1)
  }

  /** The same for a new interval, counted from now. */
  function RebasedFrom(g: State, id: int, from: Option<nat>, base: real, i: nat): State
    decreases |g.world.tasks| - i
  {
    if i >= |g.world.tasks| then g
    else RebasedFrom(if Described(g.world.tasks[i], id, from) then RebaseAt(g, i, base) else g, id, from, base, i + 1)
  }

  function RebaseAt(g: State, i: nat, base: real): (r: State)
    ensures |r.world.tasks| == |g.world.tasks| && r.now == g.now
  {
    if i < |g.world.tasks|
    then g.(world := Touch(g.world, i, g.world.tasks[i].(base := base, next := g.now + base)))
    else g
  }

  function Do(g: State, act: Act): State
    decreases act, 0
  {
    match act
    case SetTask(target, base, id, amx, flags, repeat) => Scheduled(g, target, base, id, amx, flags, repeat)
    case RemoveTask(id, from) => RemovedFrom(g, id, from, 0)
    case ChangeTask(id, from, base) => RebasedFrom(g, id, from, base, 0)
    case CreateForward(target) =>
      g.(reg := Registered(g.reg, target),
         world := if target.Some? then g.world.(clients := g.world.clients + {NextId(g.reg)}) else g.world)
    case DestroyForward(id) =>
      if id in g.world.clients
      then g.(reg := Unregistered(g.reg, id), world := g.world.(clients := g.world.clients - {id}))
      else g
    case ExecuteForward(id, executable, body) =>
      if IsId(id, |g.reg.slots|) then Executed(g, id, executable, body) else g
  }

  /** A forward is executed: its function may do anything, and a deletion asked for
      meanwhile happens on return. */
  function Executed(g: State, id: int, executable: bool, body: seq<Act>): (r: State)
    ensures body == [] ==> r.world == g.world
    decreases body, 1
  {
    if Runs(g.reg, id, executable) then
      var r := Performed(g.(reg := Begun(g.reg, id)), body);
      r.(reg := Left(r.reg, id))
    else g
  }

  function Performed(g: State, acts: seq<Act>): (r: State)
    ensures acts == [] ==> r == g
    decreases acts, 0
  {
    if acts == [] then g else Do(Performed(g, acts[..|acts| - 1]), acts[|acts| - 1])
  }

  // ------------------------------------------------------------------ one turn

  function Stopped(g: State, i: nat): (r: State)
    ensures |r.world.tasks| == |g.world.tasks|
  {
    if i < |g.world.tasks| then g.(world := Touch(g.world, i, g.world.tasks[i].(inExecute := false))) else g
  }

  /** The function of the task in slot `i` is called; the turn counts as a run only if the
      function is really called. */
  function Called(g: State, i: nat, script: Script): (r: State)
    requires i < |g.world.tasks|
    ensures script.acts == [] ==> |r.world.tasks| == |g.world.tasks|
  {
    var func := g.world.tasks[i].func;
    var ran := Runs(g.reg, func, script.executable);
    Stopped(Executed(g.(world := Start(g.world, i, script.executable, ran)), func, script.executable, script.acts), i)
  }

  /** Whether no more turns are left when one has been taken. */
  predicate LastTurn(t: Task) {
    !t.isLoop || (t.repeat != -1 && t.repeat <= 1)
  }

  /** A task that waits for its next turn. */
  function Waiting(t: Task): Task {
    t.(repeat := if t.repeat != -1 then t.repeat - 1 else t.repeat, next := t.next + t.base)
  }

  /** After a call the task may be gone, it may be done, or it waits again. */
  function Ended(g: State, i: nat): (r: State)
    ensures |r.world.tasks| == |g.world.tasks|
  {
    if i >= |g.world.tasks| || g.world.tasks[i].free then g
    else if LastTurn(g.world.tasks[i]) then ClearAt(g, i, Done)
    else g.(world := Touch(g.world, i, Waiting(g.world.tasks[i])))
  }

  /** Whether slot `i` has a turn now. */
  predicate HasTurn(g: State, i: nat) {
    i < |g.world.tasks| && !g.world.tasks[i].free && Due(g.world.tasks[i], g.now)
  }

  /** The turn of slot `i`; a task whose plan is no turns just goes. */
  function Turn(g: State, i: nat, script: Script): (r: State)
    requires HasTurn(g, i)
    ensures script.acts == [] ==> |r.world.tasks| == |g.world.tasks|
  {
    if Remaining(g.world.tasks[i]) == Times(0) then ClearAt(g, i, Done)
    else Ended(Called(g, i, script), i)
  }

  // ------------------------------------------------------------------- a frame

  function First(scripts: seq<Script>): Script {
    if scripts == [] then Script(true, []) else scripts[0]
  }

  function Rest(scripts: seq<Script>): seq<Script> {
    if scripts == [] then [] else scripts[1..]
  }

  /** The frame passes slot `i`; a turn uses one script up. */
  function Passed(g: State, scripts: seq<Script>, i: nat): (r: (State, seq<Script>))
    ensures |r.1| <= |scripts| && (|r.1| == |scripts| ==> |r.0.world.tasks| == |g.world.tasks|)
  {
    if HasTurn(g, i) then (Turn(g, i, First(scripts)), Rest(scripts)) else (g, scripts)
  }

  /** The rest of a frame, from slot `i` on, with the slots that callbacks append. */
  function Sweep(g: State, scripts: seq<Script>, i: nat): State
    decreases |scripts|, |g.world.tasks| - i
  {
    if i >= |g.world.tasks| then g
    else var (g', scripts') := Passed(g, scripts, i); Sweep(g', scripts', i + 1)
  }

  // --------------------------------------------------------------- whole histories

  function Fresh(): State {
    State(Registry([], [], {}, []), World([], [], map[], 0, map[], {}), 0.0)
  }

  function Happened(g: State, event: Event): State {
    match event
    case Frame(time, scripts) => Sweep(g.(now := time), scripts, 0)
    case Outside(acts) => Performed(g, acts)
  }

  function After(events: seq<Event>): State {
    if events == [] then Fresh() else Happened(After(events[..|events| - 1]), events[|events| - 1])
  }

  // ------------------------------------------------------------- what acts keep

  /** The forwards are accounted for, each live task has one of its own, and the books are
      right. */
  ghost predicate Good(g: State) {
    Sound(g.reg) && Linked(g.world, g.reg.held) && Booked(g.world)
  }

  /** A callback leads from one state to another. */
  ghost predicate Leads(g: State, g': State) {
    Good(g') && Later(g.world, g'.world) && g'.now == g.now && g'.reg.chain == g.reg.chain
  }

  lemma ClearKeeps(g: State, i: nat, fate: Fate)
    requires Good(g) && i < |g.world.tasks| && !g.world.tasks[i].free && !fate.Live?
    requires Booked(Clear(g.world, i, fate))
    ensures Good(ClearAt(g, i, fate)) && ClearAt(g, i, fate).reg.chain == g.reg.chain
    ensures g.world.tasks[i].func in g.reg.held && g.world.tasks[i].func >= 0
  {
    hide Linked, Booked, Sound;
    LiveSlot(g.world, g.reg.held, i);
    ClearLinks(g.world, g.reg.held, i, fate);
    GiveBack(g.reg, g.world.tasks[i].func);
  }

  lemma RemoveLeads(g: State, i: nat)
    requires Good(g) && i < |g.world.tasks| && !g.world.tasks[i].free
    ensures Leads(g, ClearAt(g, i, Removed))
  {
    hide Linked, Booked, Sound, Later;
    RemovalSettles(g.world, g.reg.held, i);
    ClearKeeps(g, i, Removed);
    LaterClear(g.world, g.reg.held, i);
  }

  lemma RebaseLeads(g: State, i: nat, base: real)
    requires Good(g) && i < |g.world.tasks|
    ensures Leads(g, RebaseAt(g, i, base))
  {
    hide Linked, Sound, Later;
    var t := g.world.tasks[i].(base := base, next := g.now + base);
    TouchLinks(g.world, g.reg.held, i, t);
    assert SlotBooked(g.world, i);
    TouchBooks(g.world, i, t);
    LaterTouch(g.world, g.reg.held, i, t);
  }

  lemma StaysSame(g: State)
    requires Good(g)
    ensures Leads(g, g)
  {
    LaterSame(g.world, g.reg.held);
  }

  lemma Onwards(g: State, g': State, g'': State)
    requires Leads(g, g') && Leads(g', g'')
    ensures Leads(g, g'')
  {
    hide Linked, Booked, Sound, Later;
    LaterTrans(g.world, g'.world, g''.world);
  }

  lemma ScheduleLeads(g: State, target: Option<nat>, base: real, id: int, amx: nat, flags: nat, repeat: int)
    requires Good(g)
    ensures Leads(g, Scheduled(g, target, base, id, amx, flags, repeat))
  {
    hide Linked, Booked, Sound, Later;
    Register(g.reg, target);
    if target.Some? {
      var t := NewTask(NextId(g.reg), flags, id, amx, if base < 0.1 then 0.1 else base, repeat, g.now);
      var i := FirstFree(g.world.tasks);
      PutLinks(g.world, g.reg.held, i, t);
      PutBooks(g.world, g.reg.held, i, t);
      LaterPut(g.world, g.reg.held, i, t);
    } else {
      StaysSame(g);
    }
  }

  lemma {:induction false} RemoveFromLeads(g: State, id: int, from: Option<nat>, i: nat)
    requires Good(g)
    ensures Leads(g, RemovedFrom(g, id, from, i))
    decreases |g.world.tasks| - i
  {
    hide Leads, Good;
    StaysSame(g);
    if i < |g.world.tasks| {
      var g' := if Described(g.world.tasks[i], id, from) then ClearAt(g, i, Removed) else g;
      if Described(g.world.tasks[i], id, from) {
        RemoveLeads(g, i);
      }
      LeadsGood(g, g');
      RemoveFromLeads(g', id, from, i + 1);
      Onwards(g, g', RemovedFrom(g, id, from, i));
    }
  }

  lemma LeadsGood(g: State, g': State)
    requires Leads(g, g')
    ensures Good(g')
  {
  }

  lemma {:induction false} RebaseFromLeads(g: State, id: int, from: Option<nat>, base: real, i: nat)
    requires Good(g)
    ensures Leads(g, RebasedFrom(g, id, from, base, i))
    decreases |g.world.tasks| - i
  {
    hide Leads, Good;
    StaysSame(g);
    if i < |g.world.tasks| {
      var g' := if Described(g.world.tasks[i], id, from) then RebaseAt(g, i, base) else g;
      if Described(g.world.tasks[i], id, from) {
        RebaseLeads(g, i, base);
      }
      LeadsGood(g, g');
      RebaseFromLeads(g', id, from, base, i + 1);
      Onwards(g, g', RebasedFrom(g, id, from, base, i));
    }
  }

  lemma CreateLeads(g: State, target: Option<nat>)
    requires Good(g)
    ensures Leads(g, Do(g, CreateForward(target)))
  {
    hide Linked, Booked, Sound, Later;
    Register(g.reg, target);
    StaysSame(g);
    if target.Some? {
      ClientTakes(g.world, g.reg.held, NextId(g.reg));
    }
  }

  lemma DestroyLeads(g: State, id: int)
    requires Good(g)
    ensures Leads(g, Do(g, DestroyForward(id)))
  {
    hide Linked, Booked, Sound, Later;
    StaysSame(g);
    if id in g.world.clients {
      ClientLeaves(g.world, g.reg.held, id);
      GiveBack(g.reg, id);
    }
  }

  /** Whatever a plugin does, the state stays good, and no task takes a turn by it. */
  lemma {:induction false} DoLeads(g: State, act: Act)
    requires Good(g)
    ensures Leads(g, Do(g, act))
    decreases act, 0
  {
    hide Leads, Good;
    match act
    case SetTask(target, base, id, amx, flags, repeat) => ScheduleLeads(g, target, base, id, amx, flags, repeat);
    case RemoveTask(id, from) => RemoveFromLeads(g, id, from, 0);
    case ChangeTask(id, from, base) => RebaseFromLeads(g, id, from, base, 0);
    case CreateForward(target) => CreateLeads(g, target);
    case DestroyForward(id) => DestroyLeads(g, id);
    case ExecuteForward(id, executable, body) =>
      StaysSame(g);
      if IsId(id, |g.reg.slots|) {
        ExecutedLeads(g, id, executable, body);
      }
  }

  lemma {:induction false} ExecutedLeads(g: State, id: int, executable: bool, body: seq<Act>)
    requires Good(g) && IsId(id, |g.reg.slots|)
    ensures Leads(g, Executed(g, id, executable, body))
    decreases body, 1
  {
    hide Linked, Booked, Sound, Later;
    StaysSame(g);
    if Runs(g.reg, id, executable) {
      Enter(g.reg, id, executable);
      var b := g.(reg := Begun(g.reg, id));
      PerformedLeads(b, body);
      Leave(Performed(b, body).reg, id);
    }
  }

  lemma {:induction false} PerformedLeads(g: State, acts: seq<Act>)
    requires Good(g)
    ensures Leads(g, Performed(g, acts))
    decreases acts, 0
  {
    hide Leads, Good;
    StaysSame(g);
    if acts != [] {
      var mid := Performed(g, acts[..|acts| - 1]);
      PerformedLeads(g, acts[..|acts| - 1]);
      LeadsGood(g, mid);
      DoLeads(mid, acts[|acts| - 1]);
      Onwards(g, mid, Performed(g, acts));
    }
  }

  // ------------------------------------------------------------ what natives do

  /** Whether a registration has a task that a removal from slot `i` on describes. */
  predicate Hit(w: World, l: Life, id: int, from: Option<nat>, i: nat) {
    l.fate.Live? && i <= l.fate.slot < |w.tasks| && Described(w.tasks[l.fate.slot], id, from)
  }

  /** One more slot is removed from. */
  lemma HitOne(g: State, id: int, from: Option<nat>, i: nat, k: nat)
    requires Good(g) && i < |g.world.tasks| && Described(g.world.tasks[i], id, from) && k in g.world.lives
    ensures var w, w' := g.world, ClearAt(g, i, Removed).world;
            k in w'.lives && w'.lives.Keys == w.lives.Keys
            && (Hit(w, w.lives[k], id, from, i) <==> Hit(w', w'.lives[k], id, from, i + 1) || w'.lives[k] != w.lives[k])
            && (w'.lives[k] == w.lives[k] || w'.lives[k] == w.lives[k].(fate := Removed))
  {
    hide Booked, Sound;
    LiveSlot(g.world, g.reg.held, i);
    assert LifeLinked(g.world, k);
  }

  /** `remove_task` removes exactly the tasks it describes, and nothing else changes. */
  lemma {:induction false} RemovesDescribed(g: State, id: int, from: Option<nat>, i: nat)
    requires Good(g)
    ensures var r := RemovedFrom(g, id, from, i).world;
            && |r.tasks| == |g.world.tasks| && r.serials == g.world.serials
            && r.clients == g.world.clients && r.lives.Keys == g.world.lives.Keys
            && (forall j | 0 <= j < |r.tasks| ::
                  r.tasks[j] == if j >= i && Described(g.world.tasks[j], id, from) then Cleared(g.world.tasks[j]) else g.world.tasks[j])
            && forall k | k in g.world.lives ::
                 r.lives[k] == if Hit(g.world, g.world.lives[k], id, from, i)
                               then g.world.lives[k].(fate := Removed) else g.world.lives[k]
    decreases |g.world.tasks| - i
  {
    hide Good;
    if i < |g.world.tasks| {
      if Described(g.world.tasks[i], id, from) {
        RemoveLeads(g, i);
        LeadsGood(g, ClearAt(g, i, Removed));
        ClearedSlot(g, i);
        RemovesDescribed(ClearAt(g, i, Removed), id, from, i + 1);
        forall k | k in g.world.lives
          ensures k in ClearAt(g, i, Removed).world.lives
          ensures RemovedFrom(g, id, from, i).world.lives[k] ==
                  if Hit(g.world, g.world.lives[k], id, from, i) then g.world.lives[k].(fate := Removed) else g.world.lives[k]
        {
          HitOne(g, id, from, i, k);
        }
      } else {
        RemovesDescribed(g, id, from, i + 1);
      }
    }
  }

  lemma ClearedSlot(g: State, i: nat)
    requires Good(g) && i < |g.world.tasks| && !g.world.tasks[i].free
    ensures var w' := ClearAt(g, i, Removed).world;
            w'.tasks == g.world.tasks[i := Cleared(g.world.tasks[i])] && w'.serials == g.world.serials
            && w'.clients == g.world.clients && w'.lives.Keys == g.world.lives.Keys
  {
    hide Booked, Sound;
    LiveSlot(g.world, g.reg.held, i);
  }

  /** `change_task` gives exactly the tasks it describes a new interval from now on. */
  lemma {:induction false} RebasesDescribed(g: State, id: int, from: Option<nat>, base: real, i: nat)
    ensures var r := RebasedFrom(g, id, from, base, i);
            && r == g.(world := g.world.(tasks := r.world.tasks)) && |r.world.tasks| == |g.world.tasks|
            && forall j | 0 <= j < |r.world.tasks| ::
                 r.world.tasks[j] == if j >= i && Described(g.world.tasks[j], id, from)
                                     then g.world.tasks[j].(base := base, next := g.now + base)
                                     else g.world.tasks[j]
    decreases |g.world.tasks| - i
  {
    if i < |g.world.tasks| {
      RebasesDescribed(if Described(g.world.tasks[i], id, from) then RebaseAt(g, i, base) else g, id, from, base, i + 1);
    }
  }

  /** `set_task` makes one registration, of the plan asked for, and leaves every other task
      as it is. */
  lemma SchedulesOne(g: State, target: Option<nat>, base: real, id: int, amx: nat, flags: nat, repeat: int)
    requires Good(g)
    ensures var r := Scheduled(g, target, base, id, amx, flags, repeat).world;
            if target.None? then r == g.world
            else
              var i := FirstFree(g.world.tasks);
              && g.world.count !in g.world.lives
              && r.lives == g.world.lives[g.world.count := Life(PlanOf(flags, repeat), 0, 0, [], Live(i))]
              && i < |r.tasks| && r.tasks[i].next == g.now + r.tasks[i].base && r.tasks[i].base >= 0.1
              && |r.tasks| == (if i == |g.world.tasks| then i + 1 else |g.world.tasks|)
              && forall j | 0 <= j < |g.world.tasks| && j != i :: r.tasks[j] == g.world.tasks[j]
  {
    hide Booked, Sound;
    Numbers(g.world, g.reg.held);
    forall k | k in g.world.lives ensures k < g.world.count {
      assert LifeLinked(g.world, k);
    }
  }
}
