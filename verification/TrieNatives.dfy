/** The trie natives: values with cell buffers, allocated and freed as keys are set,
    changed and deleted. */
module TrieNatives {
  import opened Wrappers
  import opened TrieArray
  import opened TrieTree
  import opened KTrieModule

  datatype Kind = Unset | Cell | String | Array

  /** A value: a buffer of cells, by its address, or a cell. */
  datatype TrieData = TrieData(data: Option<nat>, cell: int, cellcount: nat, kind: Kind)

  const DUMMY: TrieData := TrieData(None, 0, 0, Unset)

  /** The allocated buffers. */
  type Buffers = map<nat, seq<int>>

  predicate HoldsBuffer(d: TrieData) {
    d.kind == String || d.kind == Array
  }

  /** A value of a string or an array has a buffer of its size, any other has none. */
  predicate DataOk(d: TrieData, cells: Buffers) {
    && (d.data.Some? <==> HoldsBuffer(d))
    && (d.data.Some? ==> d.data.value in cells && |cells[d.data.value]| == d.cellcount)
    && (d.data.None? ==> d.cellcount == 0)
  }

  /** Every buffer is owned by one key, and every key owns the buffer it names. */
  ghost predicate Owns(m: map<Path, TrieData>, cells: Buffers, owner: map<nat, Path>) {
    && owner.Keys == cells.Keys
    && (forall k | k in m :: DataOk(m[k], cells))
    && (forall k | k in m && m[k].data.Some? :: m[k].data.value in owner && owner[m[k].data.value] == k)
    && (forall b | b in owner :: owner[b] in m && m[owner[b]].data == Some(b))
  }

  /** The keys that hold a string or an array. */
  ghost function Holders(m: map<Path, TrieData>): set<Path> {
    set k | k in m && HoldsBuffer(m[k])
  }

  // ------------------------------------------------------------ what plugins see

  /** A value as plugins see it, with the cells in its buffer. */
  datatype Payload = Payload(kind: Kind, cell: int, cells: seq<int>)

  const BLANK: Payload := Payload(Unset, 0, [])

  function Shown(d: TrieData, cells: Buffers): Payload {
    Payload(d.kind, d.cell, if d.data.Some? && d.data.value in cells then cells[d.data.value] else [])
  }

  ghost function Reading(m: map<Path, TrieData>, cells: Buffers): map<Path, Payload> {
    map k | k in m :: Shown(m[k], cells)
  }

  /** A value's buffer starts with the new cells; a larger buffer keeps what it held behind
      them. */
  function Filled(p: Payload, v: seq<int>, kind: Kind): Payload {
    Payload(kind, p.cell, if |p.cells| < |v| then v else v + p.cells[|v|..])
  }

  /** The cells before the first zero. */
  function Text(v: seq<int>): seq<int> {
    if v == [] || v[0] == 0 then [] else [v[0]] + Text(v[1..])
  }

  function At(m: map<Path, Payload>, key: Path): Payload {
    if key in m then m[key] else BLANK
  }

  function OnlyEmpty(m: map<Path, Payload>): map<Path, Payload> {
    if [] in m then map[[] := m[[]]] else map[]
  }

  /** The keys that plugins see hold a string or an array. */
  function Texts(m: map<Path, Payload>): set<Path> {
    set k | k in m && (m[k].kind == String || m[k].kind == Array)
  }

  /** There are as many buffers as keys that hold a string or an array. */
  lemma {:induction false} BuffersAreHolders(m: map<Path, TrieData>, cells: Buffers, owner: map<nat, Path>)
    requires Owns(m, cells, owner)
    ensures |cells| == |Holders(m)|
    decreases |cells|
  {
    hide Owns;
    if cells == map[] {
      NoHolders(m, owner);
    } else {
      var b :| b in cells;
      var k := OwnerOf(m, cells, owner, b);
      FreeKey(m, cells, owner, k, DUMMY);
      assert Holders(m) == Holders(m[k := DUMMY]) + {k} && k !in Holders(m[k := DUMMY]);
      OneLess(cells, b);
      BuffersAreHolders(m[k := DUMMY], cells - {b}, owner - {b});
    }
  }

  lemma OwnerOf(m: map<Path, TrieData>, cells: Buffers, owner: map<nat, Path>, b: nat) returns (k: Path)
    requires Owns(m, cells, owner) && b in cells
    ensures k in m && m[k].data == Some(b) && HoldsBuffer(m[k])
  {
    assert b in owner;
    k := owner[b];
  }

  lemma NoHolders(m: map<Path, TrieData>, owner: map<nat, Path>)
    requires Owns(m, map[], owner)
    ensures Holders(m) == {}
  {
  }

  // ------------------------------------------------------- what keeps ownership

  function Without(cells: Buffers, d: TrieData): Buffers {
    if d.data.Some? then cells - {d.data.value} else cells
  }

  function Disowned(owner: map<nat, Path>, d: TrieData): map<nat, Path> {
    if d.data.Some? then owner - {d.data.value} else owner
  }

  /** A new key, with a value that has no buffer. */
  lemma AddKey(m: map<Path, TrieData>, cells: Buffers, owner: map<nat, Path>, k: Path)
    requires Owns(m, cells, owner) && k !in m
    ensures Owns(m[k := DUMMY], cells, owner)
    ensures Reading(m[k := DUMMY], cells) == Reading(m, cells)[k := BLANK]
  {
  }

  /** A key's buffer is freed and its value becomes one without. */
  lemma FreeKey(m: map<Path, TrieData>, cells: Buffers, owner: map<nat, Path>, k: Path, d: TrieData)
    requires Owns(m, cells, owner) && k in m && d.data.None? && d.cellcount == 0 && !HoldsBuffer(d)
    ensures Owns(m[k := d], Without(cells, m[k]), Disowned(owner, m[k]))
    ensures Reading(m[k := d], Without(cells, m[k])) == Reading(m, cells)[k := Payload(d.kind, d.cell, [])]
  {
  }

  /** A key is deleted along with its buffer. */
  lemma DropKey(m: map<Path, TrieData>, cells: Buffers, owner: map<nat, Path>, k: Path)
    requires Owns(m, cells, owner) && k in m
    ensures Owns(m - {k}, Without(cells, m[k]), Disowned(owner, m[k]))
    ensures Reading(m - {k}, Without(cells, m[k])) == Reading(m, cells) - {k}
  {
  }

  /** A key's buffer is filled, after another one has been allocated if it was too small. */
  lemma FillKey(m: map<Path, TrieData>, cells: Buffers, owner: map<nat, Path>, k: Path, b: nat, v: seq<int>, d: TrieData)
    requires Owns(m, cells, owner) && k in m
    requires b !in cells || m[k].data == Some(b)
    requires d.data == Some(b) && HoldsBuffer(d) && d.cellcount == |v|
    ensures Owns(m[k := d], Without(cells, m[k])[b := v], Disowned(owner, m[k])[b := k])
    ensures Reading(m[k := d], Without(cells, m[k])[b := v]) == Reading(m, cells)[k := Payload(d.kind, d.cell, v)]
  {
  }

  // ------------------------------------------------------------------ the natives

  class CellTrie {
    const trie: KTrie<TrieData>
    var cells: Buffers
    var mallocCount: nat
    var freeCount: nat
    ghost var owner: map<nat, Path>

    ghost predicate Valid()
      reads this, trie, trie.base, trie.stringtab
    {
      trie.Valid() && Conserved(trie.Contents())
    }

    /** What plugins see. */
    ghost function View(): map<Path, Payload>
      reads this, trie, trie.base, trie.stringtab
      requires trie.Valid()
    {
      Reading(trie.Contents(), cells)
    }

    /** No buffer is lost and none has two owners; the counters tell how many there are. */
    ghost predicate Conserved(m: map<Path, TrieData>)
      reads this
    {
      Owns(m, cells, owner) && mallocCount == freeCount + |cells| && forall b | b in cells :: b < mallocCount
    }

    constructor ()
      ensures Valid() && fresh(trie) && fresh(trie.base) && fresh(trie.stringtab)
      ensures View() == map[] && mallocCount == 0
    {
      trie := new KTrie<TrieData>();
      cells, mallocCount, freeCount, owner := map[], 0, 0, map[];
    }

    /** `TrieMallocCount() - TrieFreeCount()`. */
    lemma Balance()
      requires Valid()
      ensures mallocCount - freeCount == |Texts(View())|
    {
      BuffersAreHolders(trie.Contents(), cells, owner);
      assert Texts(View()) == Holders(trie.Contents());
    }

    // ---------------------------------------------------------- one value

    /** `freeCells`. */
    method FreeCells(d: TrieData) returns (r: TrieData)
      requires d.data.Some? ==> d.data.value in cells
      modifies this`cells, this`freeCount
      ensures r == d.(data := None, cellcount := 0)
      ensures cells == Without(old(cells), d)
      ensures freeCount + |cells| == old(freeCount + |cells|)
    {
      if d.data.Some? {
        OneLess(cells, d.data.value);
        cells := cells - {d.data.value};
        freeCount := freeCount + 1;
      }
      r := d.(data := None, cellcount := 0);
    }

    /** `needCells` and the copy: the buffer starts with the new cells; a larger buffer
        keeps what it held behind them. */
    method FillCells(d: TrieData, v: seq<int>, kind: Kind) returns (r: TrieData)
      requires DataOk(d, cells) && v != []
      requires mallocCount == freeCount + |cells| && forall b | b in cells :: b < mallocCount
      modifies this`cells, this`freeCount, this`mallocCount
      ensures r.data.Some? && r.kind == kind && r.cell == d.cell
      ensures var b, w := r.data.value, Filled(Shown(d, old(cells)), v, kind).cells;
              && (b !in old(cells) || d.data == Some(b))
              && r.cellcount == |w| && cells == Without(old(cells), d)[b := w]
      ensures mallocCount == freeCount + |cells| && forall b | b in cells :: b < mallocCount
    {
      r := d.(kind := kind);
      if d.cellcount < |v| {
        if d.data.Some? {
          OneLess(cells, d.data.value);
          cells := cells - {d.data.value};
          freeCount := freeCount + 1;
        }
        ghost var b := mallocCount;
        OneMore(cells, b, v);
        r := r.(data := Some(mallocCount), cellcount := |v|);
        cells := cells[mallocCount := v];
        mallocCount := mallocCount + 1;
      } else {
        var b := d.data.value;
        OneSame(cells, b, v + cells[b][|v|..]);
        cells := cells[b := v + cells[b][|v|..]];
      }
    }

    /** The value of key `k` loses its buffer; `m` is the map so far. */
    method Free(d: TrieData, cell: int, ghost m: map<Path, TrieData>, ghost k: Path) returns (r: TrieData)
      requires Conserved(m) && k in m && d == m[k]
      modifies this
      ensures r == TrieData(None, cell, 0, Cell) && Conserved(m[k := r])
      ensures Reading(m[k := r], cells) == Reading(m, old(cells))[k := Payload(Cell, cell, [])]
    {
      hide Owns, Reading, Disowned;
      OwnBuffer(m, cells, owner, k);
      FreeKey(m, cells, owner, k, TrieData(None, cell, 0, Cell));
      var freed := FreeCells(d);
      r := freed.(cell := cell, kind := Cell);
      owner := Disowned(owner, d);
    }

    /** Key `k` goes, with its buffer. */
    method Drop(d: TrieData, ghost m: map<Path, TrieData>, ghost k: Path) returns (r: TrieData)
      requires Conserved(m) && k in m && d == m[k]
      modifies this
      ensures r == d.(data := None, cellcount := 0) && Conserved(m - {k})
      ensures Reading(m - {k}, cells) == Reading(m, old(cells)) - {k}
    {
      hide Owns, Reading, Disowned;
      OwnBuffer(m, cells, owner, k);
      DropKey(m, cells, owner, k);
      r := FreeCells(d);
      owner := Disowned(owner, d);
    }

    /** The value of key `k` gets a buffer that starts with `v`. */
    method Fill(d: TrieData, v: seq<int>, kind: Kind, ghost m: map<Path, TrieData>, ghost k: Path) returns (r: TrieData)
      requires Conserved(m) && k in m && d == m[k] && v != [] && (kind == String || kind == Array)
      modifies this
      ensures Conserved(m[k := r])
      ensures Reading(m[k := r], cells) == Reading(m, old(cells))[k := Filled(Shown(d, old(cells)), v, kind)]
    {
      hide Owns, Reading, Disowned;
      OwnBuffer(m, cells, owner, k);
      ghost var before := cells;
      r := FillCells(d, v, kind);
      FillKey(m, before, owner, k, r.data.value, Filled(Shown(d, before), v, kind).cells, r);
      owner := Disowned(owner, d)[r.data.value := k];
    }

    // ------------------------------------------------------------ the natives

    /** The value of a key, which is inserted without one when it is not set. */
    method Ensure(key: Path) returns (d: TrieData)
      requires Valid() && 0 !in key && !trie.Fouls(key)
      modifies this, trie, trie.base, trie.stringtab
      ensures Valid() && cells == old(cells)
      ensures trie.base == old(trie.base) || fresh(trie.base)
      ensures trie.stringtab == old(trie.stringtab) || fresh(trie.stringtab)
      ensures key in trie.Contents() && d == trie.Contents()[key]
      ensures Shown(d, cells) == At(old(View()), key) && View() == old(View())[key := Shown(d, cells)]
    {
      hide Owns, Sound;
      var found := trie.Retrieve(key);
      if found.Some? {
        assert View() == View()[key := Shown(found.value, cells)];
        return found.value;
      }
      AddKey(trie.Contents(), cells, owner, key);
      var _ := trie.Insert(key, DUMMY);
      d := DUMMY;
    }

    /** `TrieSetCell`. */
    method SetCell(key: Path, value: int)
      requires Valid() && 0 !in key && !trie.Fouls(key)
      modifies this, trie, trie.base, trie.stringtab
      ensures Valid()
      ensures trie.base == old(trie.base) || fresh(trie.base)
      ensures trie.stringtab == old(trie.stringtab) || fresh(trie.stringtab)
      ensures View() == old(View())[key := Payload(Cell, value, [])]
    {
      hide Owns, Sound;
      var d := Ensure(key);
      d := Free(d, value, trie.Contents(), key);
      trie.Store(key, d);
    }

    /** A string or an array of cells is copied into the key's buffer. */
    method SetBuffer(key: Path, v: seq<int>, kind: Kind)
      requires Valid() && 0 !in key && !trie.Fouls(key) && v != [] && (kind == String || kind == Array)
      modifies this, trie, trie.base, trie.stringtab
      ensures Valid()
      ensures trie.base == old(trie.base) || fresh(trie.base)
      ensures trie.stringtab == old(trie.stringtab) || fresh(trie.stringtab)
      ensures View() == old(View())[key := Filled(At(old(View()), key), v, kind)]
    {
      hide Owns, Sound;
      var d := Ensure(key);
      d := Fill(d, v, kind, trie.Contents(), key);
      trie.Store(key, d);
    }

    /** `TrieSetString`: the cells before the first zero, and a terminator. */
    method SetString(key: Path, value: seq<int>)
      requires Valid() && 0 !in key && !trie.Fouls(key)
      modifies this, trie, trie.base, trie.stringtab
      ensures Valid()
      ensures trie.base == old(trie.base) || fresh(trie.base)
      ensures trie.stringtab == old(trie.stringtab) || fresh(trie.stringtab)
      ensures View() == old(View())[key := Filled(At(old(View()), key), Text(value) + [0], String)]
    {
      hide Owns, Sound;
      var len := 0;
      while len < |value| && value[len] != 0
        invariant len <= |value| && Text(value) == value[..len] + Text(value[len..])
        modifies {}
      {
        assert value[..len + 1] == value[..len] + [value[len]];
        len := len + 1;
      }
      assert Text(value) == value[..len];
      SetBuffer(key, value[..len] + [0], String);
    }

    /** `TrieSetArray`: an empty one sets nothing, but the key is there. */
    method SetArray(key: Path, v: seq<int>)
      requires Valid() && 0 !in key && !trie.Fouls(key)
      modifies this, trie, trie.base, trie.stringtab
      ensures Valid()
      ensures trie.base == old(trie.base) || fresh(trie.base)
      ensures trie.stringtab == old(trie.stringtab) || fresh(trie.stringtab)
      ensures View() == old(View())[key := if v == [] then At(old(View()), key) else Filled(At(old(View()), key), v, Array)]
    {
      hide Owns, Sound;
      if v == [] {
        var _ := Ensure(key);
      } else {
        SetBuffer(key, v, Array);
      }
    }

    /** `TrieGetCell`. */
    method GetCell(key: Path) returns (r: Option<int>)
      requires Valid() && 0 !in key
      ensures r == if key in View() && View()[key].kind == Cell then Some(View()[key].cell) else None
    {
      hide Owns, Sound;
      var found := trie.Retrieve(key);
      r := if found.Some? && found.value.kind == Cell then Some(found.value.cell) else None;
    }

    /** What `TrieGetString` and `TrieGetArray` copy out. */
    method GetBuffer(key: Path, kind: Kind, max: int) returns (r: Option<seq<int>>)
      requires Valid() && 0 !in key && (kind == String || kind == Array)
      ensures r == Copied(View(), key, kind, max)
    {
      hide Owns, Sound;
      var found := trie.Retrieve(key);
      if found.None? || found.value.kind != kind || max < 0 {
        return None;
      }
      OwnBuffer(trie.Contents(), cells, owner, key);
      var d := found.value;
      r := Some(cells[d.data.value][..if max > d.cellcount then d.cellcount else max]);
    }

    /** `TrieKeyExists`. */
    method KeyExists(key: Path) returns (found: bool)
      requires Valid() && 0 !in key
      ensures found <==> key in View()
    {
      hide Owns, Sound;
      var value := trie.Retrieve(key);
      found := value.Some?;
    }

    /** `TrieDeleteKey`: the key goes, and its buffer with it. */
    method DeleteKey(key: Path) returns (ok: bool)
      requires Valid() && 0 !in key
      modifies this, trie, trie.base
      ensures Valid() && trie.base == old(trie.base) && trie.stringtab == old(trie.stringtab)
      ensures ok <==> key in old(View())
      ensures View() == old(View()) - {key}
    {
      hide Owns, Sound, Reading;
      ghost var m := trie.Contents();
      KeysRead(m, cells, key);
      var found := trie.Retrieve(key);
      if found.Some? {
        var d := Drop(found.value, m, key);
        trie.Store(key, d);
        assert m[key := d] - {key} == m - {key};
      }
      ok := trie.Remove(key);
    }

    /** `TrieClear`: every key but the empty one is cleared, with its buffer; the empty key
        keeps its value. */
    method TrieClear()
      requires Valid()
      modifies this, trie, trie.base, trie.stringtab
      ensures Valid() && trie.base == old(trie.base) && trie.stringtab == old(trie.stringtab)
      ensures View() == OnlyEmpty(old(View()))
    {
      hide Owns, Sound;
      FreeAll();
      ghost var m := trie.Contents();
      trie.Clear();
      assert trie.Contents() == m;
    }

    /** `run_destructor`: the buffers of all keys with a node in the array. */
    method FreeAll()
      requires Valid()
      modifies this, trie, trie.base
      ensures Valid() && trie.base == old(trie.base) && trie.stringtab == old(trie.stringtab)
      ensures View() == OnlyEmpty(old(View()))
      ensures trie.Contents().Keys == if [] in old(View()) then {[]} else {}
    {
      hide Owns, Sound;
      ghost var m := trie.Contents();
      trie.NotEmptyWord();
      var values, keys := trie.RunDestructor();
      FreeValues(values, keys, m);
      assert trie.Contents() == Less(m, keys);
    }

    /** Every value handed over loses its buffer. */
    method FreeValues(values: seq<TrieData>, ghost keys: seq<Path>, ghost m: map<Path, TrieData>)
      requires Conserved(m) && |values| == |keys| && forall i, j | 0 <= i < j < |keys| :: keys[i] != keys[j]
      requires forall i | 0 <= i < |keys| :: keys[i] in m && m[keys[i]] == values[i]
      modifies this
      ensures Conserved(Less(m, keys)) && Reading(Less(m, keys), cells) == Less(Reading(m, old(cells)), keys)
    {
      hide Owns, Reading, Less;
      ghost var rest := m;
      LessNone(m);
      LessNone(Reading(m, cells));
      for i := 0 to |values|
        invariant Conserved(rest) && rest == Less(m, keys[..i])
        invariant Reading(rest, cells) == Less(Reading(m, old(cells)), keys[..i])
        modifies this
      {
        LessOne(m, keys, i);
        LessOne(Reading(m, old(cells)), keys, i);
        var d := Drop(values[i], rest, keys[i]);
        rest := rest - {keys[i]};
      }
      assert keys[..|keys|] == keys;
    }

    /** `TrieDestroy`: what is still allocated afterwards is the empty key's buffer. */
    method TrieDestroy()
      requires Valid()
      modifies this, trie, trie.base
      ensures mallocCount - freeCount == if [] in Texts(old(View())) then 1 else 0
    {
      hide Owns, Sound;
      FreeAll();
      Balance();
      assert Texts(View()) == if [] in Texts(old(View())) then {[]} else {};
    }
  }

  /** What is copied out of a value: at most `max` cells of its buffer. */
  function Copied(m: map<Path, Payload>, key: Path, kind: Kind, max: int): Option<seq<int>> {
    if key !in m || m[key].kind != kind || max < 0 then None
    else Some(m[key].cells[..if max > |m[key].cells| then |m[key].cells| else max])
  }

  // ---------------------------------------------------------------- histories

  datatype Call =
    | SetCell(key: Path, value: int) | SetString(key: Path, text: seq<int>) | SetArray(key: Path, v: seq<int>)
    | GetCell(key: Path) | GetString(key: Path, max: int) | GetArray(key: Path, max: int)
    | KeyExists(key: Path) | DeleteKey(key: Path) | TrieClear

  datatype Reply = Done | Told(yes: bool) | Got(cell: Option<int>) | Gave(cells: Option<seq<int>>)

  /** One native on a finite map of values. */
  function Apply(m: map<Path, Payload>, call: Call): (map<Path, Payload>, Reply) {
    match call
    case SetCell(key, value) => (m[key := Payload(Cell, value, [])], Done)
    case SetString(key, value) => (m[key := Filled(At(m, key), Text(value) + [0], String)], Done)
    case SetArray(key, v) => (m[key := if v == [] then At(m, key) else Filled(At(m, key), v, Array)], Done)
    case GetCell(key) => (m, Got(if key in m && m[key].kind == Cell then Some(m[key].cell) else None))
    case GetString(key, max) => (m, Gave(Copied(m, key, String, max)))
    case GetArray(key, max) => (m, Gave(Copied(m, key, Array, max)))
    case KeyExists(key) => (m, Told(key in m))
    case DeleteKey(key) => (m - {key}, Told(key in m))
    case TrieClear => (OnlyEmpty(m), Done)
  }

  /** The map after a history. */
  function MapAfter(calls: seq<Call>): map<Path, Payload> {
    if calls == [] then map[] else Apply(MapAfter(calls[..|calls| - 1]), calls[|calls| - 1]).0
  }

  function Replies(calls: seq<Call>): seq<Reply> {
    if calls == [] then []
    else
      var before := calls[..|calls| - 1];
      Replies(before) + [Apply(MapAfter(before), calls[|calls| - 1]).1]
  }

  /** Over any history of the natives, with keys of bytes 2 to 255, the trie holds what a
      finite map of values would hold, every reply is the map's, and the buffers allocated
      and not freed are as many as the keys that hold a string or an array. */
  method Run(calls: seq<Call>) returns (t: CellTrie, replies: seq<Reply>)
    requires forall i | 0 <= i < |calls| && !calls[i].TrieClear? :: 0 !in calls[i].key && 1 !in calls[i].key
    ensures t.Valid() && t.View() == MapAfter(calls) && replies == Replies(calls)
    ensures t.mallocCount - t.freeCount == |Texts(MapAfter(calls))|
  {
    hide Owns, Sound, Apply;
    t := new CellTrie();
    replies := [];
    for i := 0 to |calls|
      invariant fresh(t) && fresh(t.trie) && fresh(t.trie.base) && fresh(t.trie.stringtab) && t.Valid()
      invariant t.View() == MapAfter(calls[..i]) && replies == Replies(calls[..i])
    {
      assert calls[..i + 1][..i] == calls[..i];
      var reply := Step(t, calls[i]);
      replies := replies + [reply];
    }
    assert calls[..|calls|] == calls;
    t.Balance();
  }

  /** One native on the trie does what it does on the map. */
  method Step(t: CellTrie, call: Call) returns (reply: Reply)
    requires t.Valid() && (!call.TrieClear? ==> 0 !in call.key && 1 !in call.key)
    modifies t, t.trie, t.trie.base, t.trie.stringtab
    ensures t.Valid()
    ensures t.trie.base == old(t.trie.base) || fresh(t.trie.base)
    ensures t.trie.stringtab == old(t.trie.stringtab) || fresh(t.trie.stringtab)
    ensures (t.View(), reply) == Apply(old(t.View()), call)
  {
    hide Owns, Sound, Filled, Copied, OnlyEmpty, Reading;
    reply := Done;
    match call
    case SetCell(key, value) =>
      t.trie.NoByteOneIsSafe(key);
      t.SetCell(key, value);
    case SetString(key, value) =>
      t.trie.NoByteOneIsSafe(key);
      t.SetString(key, value);
    case SetArray(key, v) =>
      t.trie.NoByteOneIsSafe(key);
      t.SetArray(key, v);
    case GetCell(key) =>
      var cell := t.GetCell(key);
      reply := Got(cell);
    case GetString(key, max) =>
      var cells := t.GetBuffer(key, String, max);
      reply := Gave(cells);
    case GetArray(key, max) =>
      var cells := t.GetBuffer(key, Array, max);
      reply := Gave(cells);
    case KeyExists(key) =>
      var found := t.KeyExists(key);
      reply := Told(found);
    case DeleteKey(key) =>
      var ok := t.DeleteKey(key);
      reply := Told(ok);
    case TrieClear => t.TrieClear();
  }

  lemma KeysRead(m: map<Path, TrieData>, cells: Buffers, key: Path)
    ensures key in Reading(m, cells) <==> key in m
    ensures key !in m ==> Reading(m, cells) - {key} == Reading(m, cells) && m - {key} == m
  {
  }

  /** What ownership says of a key's value. */
  lemma OwnBuffer(m: map<Path, TrieData>, cells: Buffers, owner: map<nat, Path>, k: Path)
    requires Owns(m, cells, owner) && k in m
    ensures DataOk(m[k], cells)
  {
  }

  ghost function Less<T>(m: map<Path, T>, keys: seq<Path>): map<Path, T> {
    map k | k in m && k !in keys :: m[k]
  }

  lemma LessNone<T>(m: map<Path, T>)
    ensures Less(m, []) == m
  {
  }

  lemma LessOne<T>(m: map<Path, T>, keys: seq<Path>, i: nat)
    requires i < |keys| && forall i, j | 0 <= i < j < |keys| :: keys[i] != keys[j]
    ensures Less(m, keys[..i + 1]) == Less(m, keys[..i]) - {keys[i]}
    ensures keys[i] in m ==> keys[i] in Less(m, keys[..i]) && Less(m, keys[..i])[keys[i]] == m[keys[i]]
  {
    assert keys[..i + 1] == keys[..i] + [keys[i]];
  }

  lemma OneLess(cells: Buffers, b: nat)
    requires b in cells
    ensures |cells - {b}| == |cells| - 1
  {
    assert (cells - {b}).Keys == cells.Keys - {b};
    assert |cells.Keys - {b}| == |cells.Keys| - 1;
  }

  lemma OneMore(cells: Buffers, b: nat, v: seq<int>)
    requires b !in cells
    ensures |cells[b := v]| == |cells| + 1
  {
    assert cells[b := v].Keys == cells.Keys + {b};
  }

  lemma OneSame(cells: Buffers, b: nat, v: seq<int>)
    requires b in cells
    ensures |cells[b := v]| == |cells|
  {
    assert cells[b := v].Keys == cells.Keys;
  }
}
