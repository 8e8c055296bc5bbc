/** The command lists: sorted insertion, and the cursor that remembers where the last
    query by number ended. */
module Commands {
  import opened Wrappers
  import opened TrieOrder

  /** A registered command; `executable` is its plugin's status for its function. */
  datatype Command = Command(name: seq<byte>, argument: seq<byte>, flags: bv32, executable: bool, listable: bool, id: int)

  /** A command without flags is everybody's. */
  predicate GotAccess(c: Command, access: bv32) {
    c.flags == 0 || c.flags & access != 0
  }

  /** The commands a query by number counts. */
  predicate Shown(c: Command, access: bv32) {
    GotAccess(c, access) && c.executable && c.listable
  }

  /** The commands of a list that a query counts, in order. */
  function Visible(list: seq<Command>, access: bv32): seq<Command> {
    if list == [] then []
    else (if Shown(list[0], access) then [list[0]] else []) + Visible(list[1..], access)
  }

  /** How many of them lie before position `n`. */
  function Before(list: seq<Command>, access: bv32, n: nat): nat
    requires n <= |list|
  {
    |Visible(list[..n], access)|
  }

  lemma {:induction false} VisibleConcat(a: seq<Command>, b: seq<Command>, access: bv32)
    ensures Visible(a + b, access) == Visible(a, access) + Visible(b, access)
  {
    hide Shown;
    if a == [] {
      assert a + b == b;
    } else {
      assert (a + b)[1..] == a[1..] + b && (a + b)[0] == a[0];
      VisibleConcat(a[1..], b, access);
      var head := if Shown(a[0], access) then [a[0]] else [];
      Associative(head, Visible(a[1..], access), Visible(b, access));
    }
  }

  lemma Associative(a: seq<Command>, b: seq<Command>, c: seq<Command>)
    ensures a + (b + c) == (a + b) + c
  {
  }

  lemma BeforeStep(list: seq<Command>, access: bv32, n: nat)
    requires n < |list|
    ensures Before(list, access, n + 1) == Before(list, access, n) + if Shown(list[n], access) then 1 else 0
    ensures Before(list, access, |list|) == |Visible(list, access)|
    ensures Shown(list[n], access) ==>
              Before(list, access, n) < |Visible(list, access)| && Visible(list, access)[Before(list, access, n)] == list[n]
  {
    hide Shown;
    var a, b := list[..n], list[n..];
    VisibleConcat(a, b, access);
    assert list == a + b;
    assert list[..n + 1] == a + [list[n]];
    VisibleConcat(a, [list[n]], access);
    assert Visible([list[n]], access) == (if Shown(list[n], access) then [list[n]] else []) + Visible([], access);
    assert list[..|list|] == list;
    assert b[0] == list[n];
  }

  lemma BeforeEnds(list: seq<Command>, access: bv32)
    ensures Before(list, access, 0) == 0 && Before(list, access, |list|) == |Visible(list, access)|
  {
    assert list[..|list|] == list;
  }

  /** Shown command number `left` from position `from` on. */
  function Answer(list: seq<Command>, access: bv32, from: nat, left: nat): Option<Command> {
    var shown := Visible(if from <= |list| then list[from..] else [], access);
    if left < |shown| then Some(shown[left]) else None
  }

  lemma AnswerStep(list: seq<Command>, access: bv32, from: nat, left: nat)
    requires from < |list|
    ensures Answer(list, access, from, left) ==
            if !Shown(list[from], access) then Answer(list, access, from + 1, left)
            else if left == 0 then Some(list[from])
            else Answer(list, access, from + 1, left - 1)
  {
    hide Shown;
    assert list[from..][1..] == list[from + 1..] && list[from..][0] == list[from];
  }

  lemma NoAnswer(list: seq<Command>, access: bv32, from: nat, left: nat)
    requires from >= |list|
    ensures Answer(list, access, from, left) == None
  {
  }

  /** Counting on from where a query ended is counting from the start. */
  lemma AnswerResumes(list: seq<Command>, access: bv32, ptr: nat, from: int, id: int)
    requires CursorAt(list, access, ptr, from) && from <= id
    ensures Answer(list, access, ptr, id - from) == Answer(list, access, 0, id)
  {
    hide Shown;
    assert list == list[..ptr] + list[ptr..] && list[0..] == list;
    VisibleConcat(list[..ptr], list[ptr..], access);
    if ptr == |list| {
      assert Visible(list[ptr..], access) == [];
    }
  }

  /** `left` shown commands from position `ptr` on, counting from zero, is number `id`. */
  predicate Counts(list: seq<Command>, access: bv32, ptr: nat, left: nat, id: int) {
    && ptr <= |list|
    && (ptr < |list| ==> Before(list, access, ptr) + left == id)
    && (ptr == |list| ==> |Visible(list, access)| <= id)
  }

  lemma CountsFromStart(list: seq<Command>, access: bv32, id: nat)
    ensures Counts(list, access, 0, id, id)
  {
    BeforeEnds(list, access);
  }

  lemma CountsOn(list: seq<Command>, access: bv32, ptr: nat, from: int, id: int)
    requires CursorAt(list, access, ptr, from) && from <= id
    ensures Counts(list, access, ptr, id - from, id)
  {
    hide Visible, Shown;
    BeforeEnds(list, access);
  }

  // ------------------------------------------------------------------ the order

  /** By name, then by argument. */
  predicate Precedes(a: Command, b: Command) {
    Less(a.name, b.name) || (a.name == b.name && Less(a.argument, b.argument))
  }

  ghost predicate Sorted(list: seq<Command>) {
    forall i, j | 0 <= i < j < |list| :: !Precedes(list[j], list[i])
  }

  lemma {:induction false} LessTrans(a: seq<byte>, b: seq<byte>, c: seq<byte>)
    requires Less(a, b) && Less(b, c)
    ensures Less(a, c)
  {
    if a != [] && a[0] == b[0] == c[0] {
      LessTrans(a[1..], b[1..], c[1..]);
    }
  }

  lemma PrecedesTrans(a: Command, b: Command, c: Command)
    requires !Precedes(b, a) && !Precedes(c, b)
    ensures !Precedes(c, a)
  {
    LessTotal(a.name, b.name);
    LessTotal(b.name, c.name);
    LessTotal(a.name, c.name);
    LessTotal(a.argument, b.argument);
    LessTotal(b.argument, c.argument);
    LessTotal(a.argument, c.argument);
    if Less(a.name, b.name) && Less(b.name, c.name) {
      LessTrans(a.name, b.name, c.name);
    }
    if Less(a.argument, b.argument) && Less(b.argument, c.argument) {
      LessTrans(a.argument, b.argument, c.argument);
    }
  }

  /** Inserting before the first command that the new one precedes keeps a list sorted. */
  lemma InsertSorted(list: seq<Command>, c: Command, k: nat)
    requires Sorted(list) && k <= |list|
    requires forall i | 0 <= i < k :: !Precedes(c, list[i])
    requires k < |list| ==> Precedes(c, list[k])
    ensures Sorted(list[..k] + [c] + list[k..])
  {
    hide Precedes, Less;
    var now := list[..k] + [c] + list[k..];
    forall i, j | 0 <= i < j < |now| ensures !Precedes(now[j], now[i]) {
      if i == k && j > k {
        Asymmetric(c, list[k]);
        if j - 1 > k {
          PrecedesTrans(c, list[k], list[j - 1]);
        }
      }
    }
  }

  lemma Asymmetric(a: Command, b: Command)
    requires Precedes(a, b)
    ensures !Precedes(b, a)
  {
    LessTotal(a.name, b.name);
    LessTotal(a.argument, b.argument);
  }

  // ------------------------------------------------------------------ the manager

  class CmdMngr {
    /** All commands, client commands and server commands, each sorted. */
    var sortedlists: seq<seq<Command>>
    /** The last query: its number, list and access, and the node it stopped at (the
        length of the list when it ran off the end). */
    var bufCmdid: int
    var bufCmdtype: int
    var bufCmdaccess: bv32
    var bufCmdptr: nat

    ghost predicate Valid()
      reads this
    {
      |sortedlists| == 3 && forall t | 0 <= t < 3 :: Sorted(sortedlists[t])
    }

    /** The cursor is where its query ends. */
    ghost predicate Fresh()
      reads this
    {
      0 <= bufCmdtype < |sortedlists| ==> CursorAt(sortedlists[bufCmdtype], bufCmdaccess, bufCmdptr, bufCmdid)
    }

    constructor ()
      ensures Valid() && Fresh() && sortedlists == [[], [], []] && bufCmdtype == -1
    {
      sortedlists := [[], [], []];
      bufCmdid, bufCmdtype, bufCmdaccess, bufCmdptr := -1, -1, 0, 0;
    }

    /** Whether the cursor can be resumed for a query. */
    predicate Resumes(id: int, t: nat, access: bv32)
      reads this
    {
      id >= bufCmdid && access == bufCmdaccess && t == bufCmdtype
    }

    /** The command with a negative, unique id; or a shown command by number, counted on
        from the cursor when it can be resumed and from the start when it cannot. From a
        fresh cursor, or from the start, that is the command with that number. */
    method GetCmd(id: int, t: nat, access: bv32) returns (r: Option<Command>)
      requires Valid() && t < 3
      modifies this`bufCmdid, this`bufCmdtype, this`bufCmdaccess, this`bufCmdptr
      ensures Valid() && (old(Fresh()) ==> Fresh())
      ensures id >= 0 && !old(Resumes(id, t, access)) ==> r == Answer(sortedlists[t], access, 0, id) && Fresh()
      ensures id >= 0 ==> bufCmdid == id && bufCmdtype == t && bufCmdaccess == access
      ensures id >= 0 && old(Fresh()) ==> r == Answer(sortedlists[t], access, 0, id)
      ensures id >= 0 && old(Resumes(id, t, access)) ==>
                r == Answer(sortedlists[t], access, old(bufCmdptr), id - old(bufCmdid))
      ensures id < 0 ==>
                && (r.Some? ==> r.value in sortedlists[t] && r.value.id == id)
                && (r.None? ==> forall c | c in sortedlists[t] :: c.id != id)
    {
      hide Visible, Shown, Sorted, Answer, Before, CursorAt, Counts;
      var list := sortedlists[t];
      if id < 0 {
        r := FindId(list, id);
        return;
      }
      var left := id;
      if id < bufCmdid || access != bufCmdaccess || t != bufCmdtype {
        bufCmdptr := 0;
        bufCmdaccess, bufCmdtype, bufCmdid := access, t, id;
        CountsFromStart(list, access, id);
      } else {
        left := id - bufCmdid;
        if Fresh() {
          AnswerResumes(list, access, bufCmdptr, bufCmdid, id);
          CountsOn(list, access, bufCmdptr, bufCmdid, id);
        }
        bufCmdid := id;
      }
      r := Scan(list, access, left, id);
    }

    /** Steps the cursor on, over `left` shown commands more. */
    method Scan(list: seq<Command>, access: bv32, left: nat, ghost id: nat) returns (r: Option<Command>)
      modifies this`bufCmdptr
      ensures r == Answer(list, access, old(bufCmdptr), left)
      ensures old(Counts(list, access, bufCmdptr, left, id)) ==> CursorAt(list, access, bufCmdptr, id)
    {
      hide Visible, Shown, Answer, Before;
      var more := left;
      ghost var counts := Counts(list, access, bufCmdptr, left, id);
      while bufCmdptr < |list|
        invariant Answer(list, access, bufCmdptr, more) == old(Answer(list, access, bufCmdptr, left))
        invariant counts ==> Counts(list, access, bufCmdptr, more, id)
        decreases |list| - bufCmdptr
        modifies this`bufCmdptr
      {
        BeforeStep(list, access, bufCmdptr);
        AnswerStep(list, access, bufCmdptr, more);
        if Shown(list[bufCmdptr], access) {
          if more == 0 {
            return Some(list[bufCmdptr]);
          }
          more := more - 1;
        }
        bufCmdptr := bufCmdptr + 1;
      }
      NoAnswer(list, access, bufCmdptr, more);
      r := None;
    }

    method FindId(list: seq<Command>, id: int) returns (r: Option<Command>)
      ensures r.Some? ==> r.value in list && r.value.id == id
      ensures r.None? ==> forall c | c in list :: c.id != id
    {
      for i := 0 to |list|
        invariant forall j | 0 <= j < i :: list[j].id != id
      {
        if list[i].id == id {
          return Some(list[i]);
        }
      }
      r := None;
    }

    /** A plain scan. */
    method GetCmdNum(t: nat, access: bv32) returns (n: nat)
      requires Valid() && t < 3
      ensures n == |Visible(sortedlists[t], access)|
    {
      hide Visible, Shown;
      var list := sortedlists[t];
      n := 0;
      BeforeEnds(list, access);
      for i := 0 to |list|
        invariant n == Before(list, access, i)
      {
        BeforeStep(list, access, i);
        if Shown(list[i], access) {
          n := n + 1;
        }
      }
    }

    /** A command is linked into one sorted list, behind the ones it does not precede. The
        cursor stays at its node. */
    method SetCmdLink(t: nat, c: Command) returns (k: nat)
      requires Valid() && t < 3
      modifies this`sortedlists, this`bufCmdptr
      ensures Valid()
      ensures k <= |old(sortedlists)[t]|
      ensures sortedlists == old(sortedlists)[t := old(sortedlists)[t][..k] + [c] + old(sortedlists)[t][k..]]
      ensures forall i | 0 <= i < k :: !Precedes(c, old(sortedlists)[t][i])
      ensures bufCmdptr == if bufCmdtype == t && k <= old(bufCmdptr) then old(bufCmdptr) + 1 else old(bufCmdptr)
      ensures old(Fresh()) ==>
                (Fresh() <==>
                 bufCmdtype != t || Unseen(old(sortedlists)[t], bufCmdaccess, old(bufCmdptr), bufCmdid, c, k))
    {
      hide Sorted, Precedes, CursorAt, Unseen;
      var list := sortedlists[t];
      k := 0;
      while k < |list| && !Precedes(c, list[k])
        invariant k <= |list| && forall i | 0 <= i < k :: !Precedes(c, list[i])
        modifies {}
      {
        k := k + 1;
      }
      InsertSorted(list, c, k);
      if bufCmdtype == t && Fresh() {
        CursorAfter(list, bufCmdaccess, bufCmdptr, bufCmdid, c, k);
      }
      sortedlists := sortedlists[t := list[..k] + [c] + list[k..]];
      if bufCmdtype == t && k <= bufCmdptr {
        bufCmdptr := bufCmdptr + 1;
      }
    }

    /** `clearBufforedInfo` forgets the last query. */
    method ClearBufferedInfo()
      requires Valid()
      modifies this`bufCmdid, this`bufCmdtype, this`bufCmdaccess
      ensures Valid() && Fresh()
    {
      bufCmdid, bufCmdtype, bufCmdaccess := -1, -1, 0;
    }
  }

  /** Where a query for shown command number `id` ends. */
  ghost predicate CursorAt(list: seq<Command>, access: bv32, ptr: nat, id: int) {
    && id >= 0 && ptr <= |list|
    && (ptr < |list| ==> Shown(list[ptr], access) && Before(list, access, ptr) == id)
    && (ptr == |list| ==> |Visible(list, access)| <= id)
  }

  /** A command inserted at `k` that a cursor for number `id` does not miss: it lies behind
      the cursor, it is not shown, or the cursor ran off the end in search of a number
      beyond it. */
  predicate Unseen(list: seq<Command>, access: bv32, ptr: nat, id: int, c: Command, k: nat) {
    k > ptr || !Shown(c, access) || (ptr == |list| && |Visible(list, access)| < id)
  }

  /** A registration leaves the cursor where its query ends exactly then. */
  lemma CursorAfter(list: seq<Command>, access: bv32, ptr: nat, id: int, c: Command, k: nat)
    requires CursorAt(list, access, ptr, id) && k <= |list|
    ensures CursorAt(list[..k] + [c] + list[k..], access, if k <= ptr then ptr + 1 else ptr, id) <==>
            Unseen(list, access, ptr, id, c, k)
  {
    hide Shown, Visible;
    var now := list[..k] + [c] + list[k..];
    OneMore(list[..k], c, list[k..], access);
    assert list == list[..k] + list[k..];
    if k <= ptr {
      OneMore(list[..k], c, list[k..ptr], access);
      assert now[..ptr + 1] == list[..k] + [c] + list[k..ptr];
      assert list[..ptr] == list[..k] + list[k..ptr];
    } else {
      assert now[..ptr] == list[..ptr];
    }
  }

  lemma OneMore(a: seq<Command>, c: Command, b: seq<Command>, access: bv32)
    ensures |Visible(a + [c] + b, access)| == |Visible(a + b, access)| + if Shown(c, access) then 1 else 0
  {
    hide Shown;
    assert Visible([c], access) == (if Shown(c, access) then [c] else []) + Visible([c][1..], access);
    VisibleConcat(a + [c], b, access);
    VisibleConcat(a, [c], access);
    VisibleConcat(a, b, access);
  }

  /** The cursor is not told of a registration: asked again for number 0, it still gives
      the command that was first before. */
  method StaleAfterRegistration() returns (m: CmdMngr, r: Option<Command>)
    ensures m.Valid()
    ensures |Visible(m.sortedlists[0], 0)| == 2 && r == Some(Visible(m.sortedlists[0], 0)[1])
    ensures r != Answer(m.sortedlists[0], 0, 0, 0)
  {
    hide Sorted, Less, Shown, Visible, Precedes;
    m := new CmdMngr();
    var a := Command([97], [], 0, true, true, -2);
    var b := Command([98], [], 0, true, true, -1);
    var k := m.SetCmdLink(0, b);
    BothVisible(a, b);
    assert m.sortedlists[0] == [b];
    r := m.GetCmd(0, 0, 0);
    assert r == Some(b);
    BothVisible(a, b);
    assert m.bufCmdptr == 0;
    ghost var was := m.sortedlists[0];
    EarlierName(a, was[0]);
    k := m.SetCmdLink(0, a);
    assert k == 0;
    assert m.sortedlists[0] == [a, b];
    r := m.GetCmd(0, 0, 0);
  }

  lemma EarlierName(a: Command, b: Command)
    requires a.name == [97] && b.name == [98]
    ensures Precedes(a, b)
  {
  }

  lemma BothVisible(a: Command, b: Command)
    requires a.flags == 0 && a.executable && a.listable && b.flags == 0 && b.executable && b.listable
    ensures Shown(a, 0) && Shown(b, 0) && Before([b], 0, 0) == 0
    ensures Visible([a, b], 0) == [a, b] && Visible([b], 0) == [b]
    ensures Answer([a, b], 0, 1, 0) == Some(b)
  {
    assert [a, b][1..] == [b] && [b][1..] == [] && [a, b][0..] == [a, b];
    assert Visible([b], 0) == [b];
  }
}
