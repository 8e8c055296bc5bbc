/** The double-array trie (`KTrie`): string keys in one flat node array with
    parent back-links and a shared table of suffixes.

    The ghost fields say what the arrays mean: `tree` is the trie, `layout` tells
    where each of its nodes lives, `words` is the map of non-empty keys it
    denotes.  `Contents()` adds the empty key, which the class keeps apart. */
module KTrieModule {
  import opened Wrappers
  import opened TrieTree
  import opened TrieArray
  import opened TrieOrder
  import opened TrieLookup
  import opened TrieFouled

  /** `size_t` on the 32-bit target. */
  const SIZE_MODULUS: nat := 0x1_0000_0000

  /** The result of a lookup: no node, the node of the empty key, or a slot. */
  datatype NodeRef = Null | EmptyNode | Slot(i: nat)

  /** Why the walk of an insertion stopped. */
  datatype Stop = Exhausted | Vacancy | Collision | Terminator

  /** Counting up and down in a `size_t`. */
  function Inc(n: nat): nat {
    (n + 1) % SIZE_MODULUS
  }

  function Dec(n: nat): nat {
    (n + SIZE_MODULUS - 1) % SIZE_MODULUS
  }

  /** All slots that the bytes select from base `q` are unused or lie beyond the array. */
  ghost predicate RoomAt<K>(b: seq<Node<K>>, q: nat, offs: set<byte>) {
    forall c | c in offs :: q + c < |b| ==> b[q + c].mode == Unused
  }

  /** The first base from `q` on with room for the bytes. */
  ghost function FirstRoom<K>(b: seq<Node<K>>, offs: set<byte>, q: nat): (r: nat)
    ensures q <= r
    decreases |b| - q
  {
    if q >= |b| || RoomAt(b, q, offs) then q else FirstRoom(b, offs, q + 1)
  }

  lemma {:induction false} FirstRoomIs<K>(b: seq<Node<K>>, offs: set<byte>, q: nat, r: nat)
    requires q <= r && RoomAt(b, r, offs) && forall i | q <= i < r :: !RoomAt(b, i, offs)
    ensures FirstRoom(b, offs, q) == r
    decreases r - q
  {
    if q < r {
      assert !RoomAt(b, q, offs);
      FirstRoomIs(b, offs, q + 1, r);
    }
  }

  lemma {:induction false} RoomLater<K>(b: seq<Node<K>>, offs: set<byte>, q: nat, q': nat)
    requires q <= q' && forall i | q <= i < q' :: !RoomAt(b, i, offs)
    ensures FirstRoom(b, offs, q) == FirstRoom(b, offs, q')
    decreases q' - q
  {
    if q < q' {
      assert !RoomAt(b, q, offs);
      RoomLater(b, offs, q + 1, q');
    }
  }

  /** A longer array has room where the shorter one had. */
  lemma {:induction false} RoomExtends<K>(b: seq<Node<K>>, b': seq<Node<K>>, offs: set<byte>, q: nat)
    requires |b| <= |b'| && b'[..|b|] == b && forall i | |b| <= i < |b'| :: b'[i] == Zero()
    ensures FirstRoom(b', offs, q) == FirstRoom(b, offs, q)
    decreases |b| - q
  {
    assert forall i | 0 <= i < |b| :: b'[i] == b'[..|b|][i];
    assert RoomAt(b', q, offs) <==> RoomAt(b, q, offs);
    if q < |b| {
      RoomExtends(b, b', offs, q + 1);
    }
  }

  function Bytes(list: seq<byte>): set<byte> {
    set c | c in list
  }

  class KTrie<K> {
    var base: array<Node<K>>
    var empty: Option<Option<K>>  // the node of the empty key, once allocated
    var stringtab: array<byte>
    var tail: nat
    var numElements: nat

    ghost var tree: Tree<K>
    ghost var layout: Layout
    ghost var words: map<Path, K>

    /** The meaning of the arrays. */
    ghost predicate Valid()
      reads this, base, stringtab
    {
      && base as object != stringtab as object
      && 257 <= base.Length && 256 <= stringtab.Length
      && Sound(base[..], stringtab[..], tail, layout, tree, words)
    }

    /** The finite map of keys to values that the trie stands for. */
    ghost function Contents(): (m: map<Path, K>)
      reads this
    {
      if empty.Some? && empty.value.Some? then words[[] := empty.value.value] else words
    }

    /** The element counter is right. */
    ghost predicate Counted()
      reads this
    {
      numElements == |Contents()| % SIZE_MODULUS
    }

    constructor ()
      ensures Valid() && fresh(base) && fresh(stringtab)
      ensures Contents() == map[] && Counted() && tree == map[[] := Inner(None)] && tail == 0
    {
      hide Sound;
      base := new Node<K>[257](i => if i == ROOT then Node(1, ROOT, None, Arc) else Zero());
      stringtab := new byte[256](_ => 0);
      empty := None;
      tail, numElements := 0, 0;
      tree := map[[] := Inner(None)];
      layout := Layout(map[[] := ROOT], map[ROOT := []]);
      words := map[];
      new;
      FreshSound(base[..], stringtab[..], layout, tree, words);
    }

    // ---------------------------------------------------------- node array

    /** The node array is `b`, possibly lengthened by cleared slots. */
    ghost predicate Extends(b: seq<Node<K>>)
      reads this, base
    {
      && |b| <= base.Length && base[..|b|] == b
      && forall i | |b| <= i < base.Length :: base[i] == Zero()
    }

    ghost predicate FreeSlot(i: nat)
      reads this, base
    {
      i < base.Length && base[i].mode == Unused
    }

    /** All slots that the offsets select from base `q` exist and are unused. */
    ghost predicate Free(q: nat, offs: seq<byte>)
      reads this, base
    {
      forall c | c in offs :: FreeSlot(q + c)
    }

    /** Doubles the node array; the new half is cleared. */
    method Grow()
      requires 1 <= base.Length
      modifies this`base
      ensures fresh(base) && base.Length == 2 * old(base.Length) - 1
      ensures Extends(old(base[..]))
    {
      var cur := base.Length - 1;
      var bigger := new Node<K>[2 * cur + 1](_ => Zero());
      for i := 0 to base.Length
        modifies bigger
        invariant bigger[..i] == base[..i]
        invariant forall j | base.Length <= j < bigger.Length :: bigger[j] == Zero()
      {
        bigger[i] := base[i];
      }
      base := bigger;
    }

    /** Growing the node array changes nothing else. */
    lemma GrownValid(b: seq<Node<K>>)
      requires base as object != stringtab as object
      requires 257 <= |b| && 256 <= stringtab.Length
      requires Sound(b, stringtab[..], tail, layout, tree, words)
      requires Extends(b)
      ensures Valid()
    {
      GrowPlaced(b, layout, tree, Still, base[..]);
    }

    /** Finds a base whose slot for `c` is unused, growing the array at most once. */
    method Check(c: byte, start: nat, ghost grown: bool) returns (q: nat)
      requires 257 <= base.Length && c != 0 && 1 <= start
      requires grown ==> FreeSlot(start + c)
      modifies this`base
      ensures Extends(old(base[..])) && (base == old(base) || fresh(base))
      ensures base.Length == old(base.Length) || (!grown && base.Length == 2 * old(base.Length) - 1)
      ensures 1 <= q && FreeSlot(q + c)
      decreases !grown
    {
      var toCheck := base.Length - 1 - c;
      var i := start;
      while i <= toCheck
        modifies {}
        invariant start <= i
        invariant grown ==> i == start
      {
        if base[i + c].mode == Unused {
          return i;
        }
        i := i + 1;
      }
      Grow();
      q := Check(c, toCheck + 1, true);
    }

    /** As `Check`, for two bytes at once. */
    method Check2(c1: byte, c2: byte, start: nat, ghost grown: bool, ghost w: nat) returns (q: nat)
      requires 257 <= base.Length && c1 != 0 && c2 != 0 && 1 <= start
      requires grown ==> start <= w && FreeSlot(w + c1) && FreeSlot(w + c2)
      modifies this`base
      ensures Extends(old(base[..])) && (base == old(base) || fresh(base))
      ensures base.Length == old(base.Length) || (!grown && base.Length == 2 * old(base.Length) - 1)
      ensures 1 <= q && FreeSlot(q + c1) && FreeSlot(q + c2)
      decreases !grown
    {
      var toCheck := base.Length - 1 - (if c1 > c2 then c1 else c2);
      var i := start;
      while i <= toCheck
        modifies {}
        invariant start <= i
        invariant grown ==> i <= w
      {
        if base[i + c1].mode == Unused && base[i + c2].mode == Unused {
          return i;
        }
        i := i + 1;
      }
      ghost var size := base.Length - 1;
      Grow();
      q := Check2(c1, c2, toCheck + 1, true, size);
    }

    /** As `Check`, for a whole set of siblings; what is found is the first base with room
        for them. */
    method CheckMulti(offs: seq<byte>, start: nat, ghost grown: bool, ghost w: nat) returns (q: nat)
      requires 257 <= base.Length && offs != [] && 1 <= start <= base.Length - 255
      requires forall k | 0 <= k < |offs| :: 1 <= offs[k]
      requires grown ==> start <= w && Free(w, offs)
      modifies this`base
      ensures Extends(old(base[..])) && (base == old(base) || fresh(base))
      ensures base.Length == old(base.Length) || (!grown && base.Length == 2 * old(base.Length) - 1)
      ensures 1 <= q && Free(q, offs) && q == FirstRoom(old(base[..]), Bytes(offs), start)
      decreases !grown
    {
      hide FirstRoom, RoomAt;
      var highest := Highest(offs);
      assert offs[0] <= highest && highest in offs;
      assert grown ==> FreeSlot(w + highest);
      var toCheck := base.Length - 1 - highest;
      ghost var b, size := base[..], base.Length - 1;
      var okay, i := SearchMulti(offs, start, toCheck, grown, w);
      if okay {
        FirstRoomIs(b, Bytes(offs), start, i);
        return i;
      }
      RoomLater(b, Bytes(offs), start, i);
      Grow();
      RoomExtends(b, base[..], Bytes(offs), i);
      q := CheckMulti(offs, toCheck + 1, true, size);
    }

    method Highest(offs: seq<byte>) returns (highest: byte)
      requires offs != []
      ensures (highest in offs || highest == 0) && forall k | 0 <= k < |offs| :: offs[k] <= highest
    {
      highest := 0;
      for i := 0 to |offs|
        invariant forall k | 0 <= k < i :: offs[k] <= highest
        invariant highest in offs || highest == 0
      {
        if offs[i] > highest {
          highest := offs[i];
        }
      }
    }

    /** The bases from `start` to `toCheck`, one after the other. */
    method SearchMulti(offs: seq<byte>, start: nat, toCheck: nat, ghost grown: bool, ghost w: nat) returns (okay: bool, i: nat)
      requires start <= toCheck + 1 && forall k | 0 <= k < |offs| :: toCheck + offs[k] < base.Length
      requires grown ==> start <= w && Free(w, offs)
      ensures start <= i && forall j | start <= j < i :: !RoomAt(base[..], j, Bytes(offs))
      ensures if okay then Free(i, offs) && RoomAt(base[..], i, Bytes(offs)) else i == toCheck + 1 && (grown ==> i <= w)
    {
      hide RoomAt;
      i := start;
      while i <= toCheck
        invariant start <= i <= toCheck + 1
        invariant grown ==> i <= w
        invariant forall j | start <= j < i :: !RoomAt(base[..], j, Bytes(offs))
      {
        okay := AllUnused(offs, i);
        RoomIsFree(offs, i);
        if okay {
          return;
        }
        i := i + 1;
      }
      okay := false;
    }

    lemma RoomIsFree(offs: seq<byte>, q: nat)
      requires forall k | 0 <= k < |offs| :: q + offs[k] < base.Length
      ensures Free(q, offs) <==> RoomAt(base[..], q, Bytes(offs))
    {
      if RoomAt(base[..], q, Bytes(offs)) {
        forall c | c in offs ensures FreeSlot(q + c) {
          assert c in Bytes(offs);
        }
      } else {
        var c :| c in Bytes(offs) && q + c < base.Length && base[..][q + c].mode != Unused;
        assert c in offs && !FreeSlot(q + c);
      }
    }

    method AllUnused(offs: seq<byte>, q: nat) returns (okay: bool)
      requires forall k | 0 <= k < |offs| :: q + offs[k] < base.Length
      ensures okay <==> Free(q, offs)
    {
      for j := 0 to |offs|
        invariant forall k | 0 <= k < j :: FreeSlot(q + offs[k])
      {
        if base[q + offs[j]].mode != Unused {
          assert offs[j] in offs;
          return false;
        }
      }
      okay := true;
    }

    // ---------------------------------------------------------- string table

    /** Doubles the string table until it has room for `len` more characters. */
    method Reserve(len: nat)
      requires Valid()
      modifies this`stringtab
      ensures Valid() && tail + len < stringtab.Length
      ensures stringtab == old(stringtab) || fresh(stringtab)
    {
      hide Sound;
      TailInside();
      if tail + len >= stringtab.Length {
        var size := stringtab.Length;
        while tail + len >= size
          modifies {}
          invariant 256 <= size
          invariant stringtab.Length <= size
          decreases tail + len - size
        {
          size := size * 2;
        }
        var bigger := new byte[size];
        for i := 0 to stringtab.Length
          modifies bigger
          invariant bigger[..i] == stringtab[..i]
        {
          bigger[i] := stringtab[i];
        }
        assert bigger[..tail] == bigger[..stringtab.Length][..tail] == stringtab[..tail];
        TableExtended(bigger[..], tail);
        stringtab := bigger;
      }
    }

    /** Appends a C string to the string table. */
    method AddString(s: Path) returns (off: nat)
      requires Valid() && NoNul(s)
      modifies this`stringtab, this`tail, stringtab
      ensures Valid() && (stringtab == old(stringtab) || fresh(stringtab))
      ensures off == old(tail) && tail == off + |s| + 1
      ensures StringAt(stringtab[..], tail, off, s)
      ensures Apart(tree, off, off + |s|)
    {
      hide Sound;
      TailInside();
      Reserve(|s| + 1);
      off := tail;
      ghost var tab := stringtab[..][..off] + s + [0] + stringtab[off + |s| + 1..];
      TableExtended(tab, off + |s| + 1);
      CopyString(off, s);
      assert stringtab[..] == tab;
      tail := off + |s| + 1;
    }

    lemma TailInside()
      requires Valid()
      ensures tail <= stringtab.Length
    {
    }

    /** A longer table that agrees on the used part serves as well. */
    lemma TableExtended(tab: seq<byte>, tail': nat)
      requires Valid() && tail <= stringtab.Length && tail <= tail' <= |tab| && tab[..tail] == stringtab[..][..tail]
      ensures Sound(base[..], tab, tail', layout, tree, words)
      ensures Apart(tree, tail, tail')
    {
      StringsExtend(tree, stringtab[..], tail, tab, tail');
    }

    /** `strcpy(&stringtab[off], s)`. */
    method CopyString(off: nat, s: Path)
      requires off + |s| < stringtab.Length
      modifies stringtab
      ensures stringtab[..off] == old(stringtab[..off])
      ensures stringtab[off..off + |s|] == s && stringtab[off + |s|] == 0
      ensures stringtab[off + |s| + 1..] == old(stringtab[off + |s| + 1..])
    {
      for i := 0 to |s|
        modifies stringtab
        invariant stringtab[..off] == old(stringtab[..off])
        invariant stringtab[off..off + i] == s[..i]
        invariant stringtab[off + i..] == old(stringtab[off + i..])
      {
        stringtab[off + i] := s[i];
      }
      stringtab[off + |s|] := 0;
      assert stringtab[..off] == old(stringtab[..off]);
      assert stringtab[off..off + |s|] == s;
    }

    /** `strcmp(key, &stringtab[off]) == 0`. */
    method SameString(key: Path, off: nat) returns (same: bool)
      requires NoNul(key) && Terminated(stringtab[..], off)
      ensures same <==> SameAt(stringtab[..], off, key)
    {
      ghost var z :| off <= z < stringtab.Length && stringtab[..][z] == 0;
      var i := 0;
      while i < |key| && stringtab[off + i] == key[i]
        invariant i <= |key| && off + i <= z && stringtab[off..off + i] == key[..i]
      {
        assert key[i] in key;
        assert stringtab[off..off + i + 1] == stringtab[off..off + i] + [key[i]];
        i := i + 1;
      }
      if i < |key| && off + |key| < stringtab.Length {
        assert stringtab[..][off..off + |key|][i] == stringtab[off + i];
      }
      assert stringtab[..][off..off + i] == key[..i];
      same := i == |key| && stringtab[off + i] == 0;
    }

    // ------------------------------------------------------------- retrieval

    /** Whether `p` is where a walk for `key` ends. */
    ghost predicate Reaches(p: Path, key: Path)
      reads this
    {
      p in tree && Full(p, tree[p]) == key
    }

    /** `r` is the node for `key`, or there is none. */
    ghost predicate Located(r: NodeRef, key: Path)
      reads this
    {
      match r
      case Null => if key == [] then empty.None? else forall p :: !Reaches(p, key)
      case EmptyNode => key == [] && empty.Some?
      case Slot(i) => key != [] && i in layout.lab && Reaches(layout.lab[i], key)
    }

    /** The node for `key` in the arrays as they are. */
    function NodeFor(key: Path): NodeRef
      requires ROOT < base.Length
      reads this, base, stringtab
    {
      if key == [] then (if empty.Some? then EmptyNode else Null)
      else
        match Find(base[..], stringtab[..], ROOT, key)
        case None => Null
        case Some(i) => Slot(i)
    }

    /** Walks the arcs for `key`. */
    method InternalRetrieve(key: Path) returns (r: NodeRef)
      requires (Valid() || Readable(base[..], stringtab[..])) && NoNul(key)
      ensures ROOT < base.Length && r == NodeFor(key)
      ensures Valid() ==> Located(r, key)
    {
      hide Sound;
      if Valid() {
        SoundReadable(base[..], stringtab[..], tail, layout, tree, words);
        Locates(key);
      }
      if key == [] {
        return if empty.Some? then EmptyNode else Null;
      }
      var lastidx: nat, n := ROOT, 0;
      while n < |key|
        invariant n <= |key| && lastidx < base.Length
        invariant Find(base[..], stringtab[..], ROOT, key) == Find(base[..], stringtab[..], lastidx, key[n..])
      {
        assert key[n..] != [] && key[n..][0] == key[n] && key[n..][1..] == key[n + 1..];
        var curidx := base[lastidx].idx + key[n];
        n := n + 1;
        if curidx > base.Length - 1 || base[curidx].mode == Unused || base[curidx].parent != lastidx {
          return Null;
        }
        if base[curidx].mode == Term {
          assert NoNul(key[n..]) && Terminated(stringtab[..], base[..][curidx].idx);
          var same := SameString(key[n..], base[curidx].idx);
          return if same then Slot(curidx) else Null;
        }
        lastidx := curidx;
      }
      return Slot(lastidx);
    }

    /** In a sound trie that is the right node. */
    lemma Locates(key: Path)
      requires Valid() && NoNul(key)
      ensures ROOT < base.Length && Located(NodeFor(key), key)
    {
      hide Sound;
      AtRoot();
      FindLocates(base[..], stringtab[..], tail, layout, tree, words, [], key);
      assert [] + key == key;
    }

    // ------------------------------------------------------ writing one node

    /** Writes a new node into a free slot below an existing inner node. */
    method Attach(i: nat, n: Node<K>, ghost p: Path, ghost e: Entry<K>)
      requires Valid() && FreeSlot(i)
      requires p != [] && p !in tree && HasParent(tree, p) && EntryOk(e)
      requires n.parent == layout.at[Up(p)] && Says(n, e, base.Length)
      requires i == base[layout.at[Up(p)]].idx + Last(p)
      requires e.Leaf? ==> StringAt(stringtab[..], tail, e.off, e.suffix)
      requires e.Leaf? ==> Apart(tree, e.off, e.off + |e.suffix|)
      modifies base, `tree, `layout, `words
      ensures Valid() && base[..] == old(base[..])[i := n]
      ensures tree == old(tree)[p := e] && layout == Place(old(layout), p, i)
      ensures Full(p, e) !in old(words) && words == Assign(old(words), Full(p, e), e.value)
      ensures Childless(tree, p)
    {
      hide Sound;
      Inside(Up(p));
      AttachSound(base[..], stringtab[..], tail, layout, tree, words, i, n, p, e);
      ghost var b := base[..];
      base[i] := n;
      assert base[..] == b[i := n];
      tree, layout, words := tree[p := e], Place(layout, p, i), Assign(words, Full(p, e), e.value);
    }

    lemma Inside(p: Path)
      requires Valid() && p in tree
      ensures p in layout.at && layout.at[p] < base.Length && layout.at[p] in layout.lab
      ensures layout.lab[layout.at[p]] == p
      ensures Says(base[layout.at[p]], tree[p], base.Length)
      ensures [] in tree && layout.at[[]] == ROOT
    {
    }

    /** What `Valid` says of a terminator. */
    lemma SuffixOf(p: Path)
      requires Valid() && p in tree && tree[p].Leaf?
      ensures p != [] && p in layout.at && layout.at[p] < base.Length
      ensures base[layout.at[p]].idx == tree[p].off && base[layout.at[p]].value == tree[p].value
      ensures StringAt(stringtab[..], tail, tree[p].off, tree[p].suffix)
      ensures NoNul(tree[p].suffix) && tree[p].suffix != []
      ensures tree[p].value.Some? <==> p + tree[p].suffix in words
      ensures tree[p].value.Some? ==> words[p + tree[p].suffix] == tree[p].value.value
    {
      assert EntryOk(tree[p]) && Says(base[layout.at[p]], tree[p], base.Length);
      DenotesLookup(tree, words, p);
    }

    lemma FreeInLayout(i: nat)
      requires Valid() && i < base.Length
      ensures FreeSlot(i) <==> i !in layout.lab
      ensures FreeSlot(i) ==> base[i] == Zero()
    {
      UsedSlot(base[..], layout, tree, Still, i);
    }

    /** Gives the node at slot `i` the value `v`. */
    method SetValue(i: nat, v: Option<K>, ghost p: Path)
      requires Valid() && p in tree && p != [] && layout.at[p] == i
      modifies base, `tree, `words
      ensures Valid() && base[..] == old(base[..])[i := old(base[i]).(value := v)]
      ensures tree == old(tree)[p := WithValue(old(tree)[p], v)]
      ensures words == Assign(old(words), Full(p, old(tree)[p]), v)
      ensures forall q | Childless(old(tree), q) :: Childless(tree, q)
    {
      hide Sound;
      Inside(p);
      SetValueSound(base[..], stringtab[..], tail, layout, tree, words, p, v);
      ghost var b := base[..];
      base[i] := base[i].(value := v);
      assert base[..] == b[i := b[i].(value := v)];
      tree, words := tree[p := WithValue(tree[p], v)], Assign(words, Full(p, tree[p]), v);
    }

    /** Gives a childless inner node the base `q`. */
    method SetBase(i: nat, q: nat, ghost p: Path)
      requires Valid() && p in tree && p != [] && layout.at[p] == i
      requires tree[p].Inner? && Childless(tree, p) && q < base.Length
      modifies base
      ensures Valid() && base[..] == old(base[..])[i := old(base[i]).(idx := q)]
    {
      hide Sound;
      Inside(p);
      SetBaseSound(base[..], stringtab[..], tail, layout, tree, words, p, q);
      ghost var b := base[..];
      base[i] := base[i].(idx := q);
      assert base[..] == b[i := b[i].(idx := q)];
    }

    /** Turns a terminator into a valueless arc; its characters are released. */
    method Disband(i: nat, ghost p: Path)
      requires Valid() && p in tree && p != [] && layout.at[p] == i && tree[p].Leaf?
      modifies base, `tree, `words
      ensures Valid() && Childless(tree, p)
      ensures tree == old(tree)[p := Inner(None)]
      ensures words == old(words) - {Full(p, old(tree)[p])}
      ensures var e := old(tree)[p]; Apart(tree, e.off, e.off + |e.suffix|)
    {
      hide Sound;
      Inside(p);
      DisbandSound(base[..], stringtab[..], tail, layout, tree, words, p);
      ghost var b := base[..];
      base[i] := Node(0, base[i].parent, None, Arc);
      assert base[..] == b[i := Node(0, b[i].parent, None, Arc)];
      tree, words := tree[p := Inner(None)], words - {Full(p, tree[p])};
    }

    /** Creates the node for `p + rest` below `lastidx`: an arc when nothing is
        left of the key, a terminator on the rest otherwise. */
    method PlaceNew(i: nat, lastidx: nat, rest: Path, v: Option<K>, ghost p: Path)
      requires Valid() && FreeSlot(i) && NoNul(rest)
      requires p != [] && p !in tree && HasParent(tree, p) && lastidx == layout.at[Up(p)]
      requires i == base[lastidx].idx + Last(p)
      modifies base, stringtab, `stringtab, `tail, `tree, `layout, `words
      ensures Valid() && (stringtab == old(stringtab) || fresh(stringtab))
      ensures p + rest !in old(words) && words == Assign(old(words), p + rest, v)
      ensures p in tree && tree == old(tree)[p := tree[p]] && layout == Place(old(layout), p, i)
      ensures rest == [] ==> tree[p] == Inner(v) && tail == old(tail) && base[i].idx == 0
    {
      hide Sound;
      FreeInLayout(i);
      if rest == [] {
        Attach(i, Node(base[i].idx, lastidx, v, Arc), p, Inner(v));
      } else {
        var off := AddString(rest);
        Attach(i, Node(off, lastidx, v, Term), p, Leaf(off, rest, v));
      }
      assert p + [] == p;
    }

    /** The character at the start of a stored string is its terminator exactly
        when the string is empty. */
    lemma FirstByte(off: nat, s: Path)
      requires NoNul(s) && StringAt(stringtab[..], tail, off, s)
      ensures off < stringtab.Length && (stringtab[off] == 0 <==> s == [])
      ensures s != [] ==> stringtab[off] == s[0]
      ensures s != [] ==> NoNul(s[1..]) && StringAt(stringtab[..], tail, off + 1, s[1..])
    {
      if s != [] {
        var tab := stringtab[..];
        assert tab[off..off + |s|][0] == s[0] && s[0] in s;
        assert tab[off + 1..off + |s|] == tab[off..off + |s|][1..];
      }
    }

    /** Creates the node for `p + s` below `lastidx` from characters that are
        already in the string table. */
    method PlaceOld(i: nat, lastidx: nat, off: nat, v: Option<K>, ghost s: Path, ghost p: Path)
      requires Valid() && FreeSlot(i) && NoNul(s)
      requires p != [] && p !in tree && HasParent(tree, p) && lastidx == layout.at[Up(p)]
      requires i == base[lastidx].idx + Last(p)
      requires StringAt(stringtab[..], tail, off, s) && Apart(tree, off, off + |s|)
      modifies base, `tree, `layout, `words
      ensures Valid()
      ensures p + s !in old(words) && words == Assign(old(words), p + s, v)
      ensures p in tree && tree == old(tree)[p := tree[p]] && layout == Place(old(layout), p, i)
      ensures base[..] == old(base[..])[i := base[i]]
    {
      hide Sound;
      FreeInLayout(i);
      FirstByte(off, s);
      if stringtab[off] == 0 {
        Attach(i, Node(base[i].idx, lastidx, v, Arc), p, Inner(v));
      } else {
        Attach(i, Node(off, lastidx, v, Term), p, Leaf(off, s, v));
      }
      assert p + [] == p;
    }

    // ------------------------------------------------ splitting a terminator

    /** Gives the childless node at `cur` a base that leaves room for `c`. */
    method FindBase(cur: nat, c: byte, ghost p: Path) returns (q: nat)
      requires Valid() && c != 0
      requires p in tree && p != [] && layout.at[p] == cur && tree[p].Inner? && Childless(tree, p)
      modifies base, `base
      ensures Valid() && (base == old(base) || fresh(base))
      ensures FreeSlot(q + c) && cur < base.Length && base[cur].idx == q
    {
      hide Sound;
      ghost var b := base[..];
      q := Check(c, 1, false);
      GrownValid(b);
      Inside(p);
      SetBase(cur, q, p);
    }

    /** As `FindBase`, with room for two children. */
    method FindBase2(cur: nat, c1: byte, c2: byte, ghost p: Path) returns (q: nat)
      requires Valid() && c1 != 0 && c2 != 0
      requires p in tree && p != [] && layout.at[p] == cur && tree[p].Inner? && Childless(tree, p)
      modifies base, `base
      ensures Valid() && (base == old(base) || fresh(base))
      ensures FreeSlot(q + c1) && FreeSlot(q + c2) && cur < base.Length && base[cur].idx == q
    {
      hide Sound;
      ghost var b := base[..];
      q := Check2(c1, c2, 1, false, 0);
      GrownValid(b);
      Inside(p);
      SetBase(cur, q, p);
    }

    /** Erases one character that no live suffix uses. */
    method Erase(term: nat, ghost s: Path)
      requires Valid() && s != [] && NoNul(s)
      requires StringAt(stringtab[..], tail, term, s) && Apart(tree, term, term + |s|)
      modifies stringtab
      ensures Valid()
      ensures StringAt(stringtab[..], tail, term + 1, s[1..]) && Apart(tree, term + 1, term + 1 + |s[1..]|)
    {
      ghost var tab := stringtab[..];
      FirstByte(term, s);
      StringsWrite(tree, tab, tail, term, 0);
      stringtab[term] := 0;
      assert stringtab[..] == tab[term := 0];
      assert stringtab[term + 1..term + |s|] == tab[term + 1..term + |s|];
    }

    /** Splits the terminator at `cur`, whose path is `p` and whose suffix is `s`,
        so that the key `p + rest` gets a node of its own.  The two suffixes
        differ, so the walk down their common prefix ends before both do. */
    method SplitTerm(cur: nat, rest: Path, v: K, ghost p: Path, ghost s: Path)
      requires Valid() && NoNul(rest) && rest != s
      requires p in tree && layout.at[p] == cur && tree[p].Leaf? && tree[p].suffix == s
      modifies base, stringtab, `base, `stringtab, `tail, `tree, `layout, `words
      ensures Valid()
      ensures (base == old(base) || fresh(base)) && (stringtab == old(stringtab) || fresh(stringtab))
      ensures words == old(words)[p + rest := v]
    {
      hide Sound, Apart, Childless, StringAt;
      SuffixOf(p);
      var curidx, term, keyptr, oldvalue := cur, base[cur].idx, rest, base[cur].value;
      Disband(cur, p);
      FirstByte(term, s);
      ghost var words1, here, left := words, p, s;
      assert Assign(words1, p + s, oldvalue) == old(words);
      while keyptr != [] && stringtab[term] == keyptr[0]
        invariant Valid() && words == words1
        invariant (base == old(base) || fresh(base)) && stringtab == old(stringtab)
        invariant here in tree && here != [] && tree[here] == Inner(None) && Childless(tree, here)
        invariant here in layout.at && layout.at[here] == curidx
        invariant NoNul(left) && NoNul(keyptr) && left != keyptr
        invariant here + left == p + s && here + keyptr == p + rest
        invariant 0 <= term < stringtab.Length && (stringtab[term] == 0 <==> left == [])
        invariant left != [] ==> stringtab[term] == left[0]
        invariant StringAt(stringtab[..], tail, term, left) && Apart(tree, term, term + |left|)
        decreases keyptr
      {
        Advance(here, keyptr);
        Advance(here, left);
        curidx := Deepen(curidx, keyptr[0], term, here, left);
        here, left, term, keyptr := here + [keyptr[0]], left[1..], term + 1, keyptr[1..];
        FirstByte(term, left);
      }
      FinishSplit(curidx, term, oldvalue, keyptr, v, here, left);
    }

    /** Moving one byte from the unread part of a string to the path. */
    lemma Advance(p: Path, s: Path)
      requires s != [] && NoNul(s)
      ensures s[0] != 0 && NoNul(s[1..])
      ensures p + [s[0]] + s[1..] == p + s && s == [s[0]] + s[1..]
    {
      assert s[0] in s;
    }

    /** The end of the splitting loop: the common prefix of the two suffixes is
        used up.  Either one of them is, or they continue with different bytes. */
    method FinishSplit(cur: nat, term: nat, oldvalue: Option<K>, rest: Path, v: K, ghost p: Path, ghost s: Path)
      requires Valid() && NoNul(rest) && NoNul(s) && rest != s
      requires rest != [] && s != [] ==> rest[0] != s[0]
      requires p in tree && p != [] && layout.at[p] == cur && tree[p] == Inner(None) && Childless(tree, p)
      requires StringAt(stringtab[..], tail, term, s) && Apart(tree, term, term + |s|)
      modifies base, stringtab, `base, `stringtab, `tail, `tree, `layout, `words
      ensures Valid()
      ensures (base == old(base) || fresh(base)) && (stringtab == old(stringtab) || fresh(stringtab))
      ensures words == Assign(old(words), p + s, oldvalue)[p + rest := v]
    {
      hide Sound;
      FirstByte(term, s);
      if stringtab[term] == 0 {
        assert p + s == p;
        EndOldKey(cur, oldvalue, rest, v, p);
      } else if rest == [] {
        assert p + rest == p;
        EndNewKey(cur, term, oldvalue, v, p, s);
      } else {
        EndBoth(cur, term, oldvalue, rest, v, p, s);
      }
    }

    /** The old key ends at `p`, the new one goes on. */
    method EndOldKey(cur: nat, oldvalue: Option<K>, rest: Path, v: K, ghost p: Path)
      requires Valid() && NoNul(rest) && rest != []
      requires p in tree && p != [] && layout.at[p] == cur && tree[p] == Inner(None) && Childless(tree, p)
      modifies base, stringtab, `base, `stringtab, `tail, `tree, `layout, `words
      ensures Valid()
      ensures (base == old(base) || fresh(base)) && (stringtab == old(stringtab) || fresh(stringtab))
      ensures words == Assign(old(words), p, oldvalue)[p + rest := v]
    {
      hide Sound;
      SetValue(cur, oldvalue, p);
      assert rest[0] in rest && rest == [rest[0]] + rest[1..];
      assert forall x | x in rest[1..] :: x in rest;
      var q := FindBase(cur, rest[0], p);
      ghost var r := p + [rest[0]];
      assert Up(r) == p && Last(r) == rest[0] && r + rest[1..] == p + rest;
      PlaceNew(q + rest[0], cur, rest[1..], Some(v), r);
    }

    /** The new key ends at `p`, the old one goes on. */
    method EndNewKey(cur: nat, term: nat, oldvalue: Option<K>, v: K, ghost p: Path, ghost s: Path)
      requires Valid() && NoNul(s) && s != []
      requires p in tree && p != [] && layout.at[p] == cur && tree[p] == Inner(None) && Childless(tree, p)
      requires StringAt(stringtab[..], tail, term, s) && Apart(tree, term, term + |s|)
      modifies base, `base, `tree, `layout, `words
      ensures Valid() && (base == old(base) || fresh(base))
      ensures words == Assign(old(words), p + s, oldvalue)[p := v]
    {
      hide Sound;
      FirstByte(term, s);
      SetValue(cur, Some(v), p);
      var q := FindBase(cur, stringtab[term], p);
      ghost var r := p + [s[0]];
      assert Up(r) == p && Last(r) == s[0] && s == [s[0]] + s[1..] && r + s[1..] == p + s;
      AssignCommutes(old(words), p, Some(v), p + s, oldvalue);
      PlaceOld(q + stringtab[term], cur, term + 1, oldvalue, s[1..], r);
    }

    /** Both keys go on, with different bytes. */
    method EndBoth(cur: nat, term: nat, oldvalue: Option<K>, rest: Path, v: K, ghost p: Path, ghost s: Path)
      requires Valid() && NoNul(rest) && NoNul(s) && rest != [] && s != [] && rest[0] != s[0]
      requires p in tree && p != [] && layout.at[p] == cur && tree[p] == Inner(None) && Childless(tree, p)
      requires StringAt(stringtab[..], tail, term, s) && Apart(tree, term, term + |s|)
      modifies base, stringtab, `base, `stringtab, `tail, `tree, `layout, `words
      ensures Valid()
      ensures (base == old(base) || fresh(base)) && (stringtab == old(stringtab) || fresh(stringtab))
      ensures words == Assign(old(words), p + s, oldvalue)[p + rest := v]
    {
      hide Sound;
      FirstByte(term, s);
      assert rest[0] in rest && rest == [rest[0]] + rest[1..];
      assert forall x | x in rest[1..] :: x in rest;
      var c := stringtab[term];
      var q := FindBase2(cur, rest[0], c, p);
      Inside(p);
      ghost var r, r' := p + [s[0]], p + [rest[0]];
      assert Up(r) == p && Last(r) == s[0] && s == [s[0]] + s[1..] && r + s[1..] == p + s;
      assert Up(r') == p && Last(r') == rest[0] && r' + rest[1..] == p + rest;
      PlaceOld(q + c, cur, term + 1, oldvalue, s[1..], r);
      PlaceNew(q + rest[0], cur, rest[1..], Some(v), r');
    }

    /** One round of the splitting loop: the current node gets a base that leaves
        room for `c`, its child on `c` becomes the current node, and the character
        is erased from the string table. */
    method Deepen(cur: nat, c: byte, term: nat, ghost p: Path, ghost s: Path) returns (next: nat)
      requires Valid() && c != 0
      requires p in tree && p != [] && layout.at[p] == cur && tree[p] == Inner(None) && Childless(tree, p)
      requires s != [] && NoNul(s) && s[0] == c
      requires StringAt(stringtab[..], tail, term, s) && Apart(tree, term, term + |s|)
      modifies base, stringtab, `base, `tree, `layout, `words
      ensures Valid() && words == old(words) && (base == old(base) || fresh(base))
      ensures var q := p + [c];
              && q in tree && tree[q] == Inner(None) && Childless(tree, q)
              && q in layout.at && layout.at[q] == next
      ensures StringAt(stringtab[..], tail, term + 1, s[1..]) && Apart(tree, term + 1, term + 1 + |s[1..]|)
      ensures term + 1 < stringtab.Length
    {
      hide Sound;
      FirstByte(term, s);
      ghost var q := p + [c];
      assert Up(q) == p && Last(q) == c;
      var b := FindBase(cur, c, p);
      next := b + c;
      Attach(next, Node(0, cur, None, Arc), q, Inner(None));
      Erase(term, s);
    }

    // ------------------------------------------------------------ relocation

    /** The bytes on which arcs leave the node at `from`. */
    method CollectArcs(from: nat, ghost p: Path) returns (list: seq<byte>)
      requires Valid() && p in tree && tree[p].Inner? && layout.at[p] == from
      ensures forall k | 0 <= k < |list| :: 1 <= list[k]
      ensures forall j, k | 0 <= j < k < |list| :: list[j] < list[k]
      ensures forall c: byte | c != 0 :: c in list <==> p + [c] in tree
      ensures |list| == |Arcs(tree, p)|
    {
      hide Sound;
      Inside(p);
      list := [];
      var start := base[from].idx;
      var limit := 255;
      if start + limit > base.Length - 1 {
        limit := base.Length - 1 - start;
      }
      for i := 1 to limit + 1
        invariant forall k | 0 <= k < |list| :: 1 <= list[k] < i
        invariant forall j, k | 0 <= j < k < |list| :: list[j] < list[k]
        invariant forall c: byte | 1 <= c < i :: c in list <==> p + [c] in tree
      {
        ArcSlot(p, i);
        if base[start + i].mode != Unused && base[start + i].parent == from {
          list := list + [i];
        }
      }
      forall c: byte | c != 0 ensures c in list <==> p + [c] in tree {
        if c > limit {
          ArcSlot(p, c);
          assert forall k | 0 <= k < |list| :: list[k] != c;
        }
      }
      AscendingSize(list, Arcs(tree, p));
    }

    /** The slot that a byte selects below `p` holds that child, if there is one. */
    lemma ArcSlot(p: Path, c: byte)
      requires Valid() && c != 0 && p in tree && tree[p].Inner?
      ensures p in layout.at && layout.at[p] < base.Length
      ensures var from := layout.at[p]; var i := base[from].idx + c;
              && (p + [c] in tree ==> i < base.Length && layout.at[p + [c]] == i)
              && (i < base.Length ==>
                    (p + [c] in tree <==> base[i].mode != Unused && base[i].parent == from))
    {
      var i := base[layout.at[p]].idx + c;
      StepSlot(base[..], layout, tree, p, c);
      if i < base.Length {
        UsedSlot(base[..], layout, tree, Still, i);
      }
    }

    /** Copies a node to a free slot, clears its old slot and re-points its
        children. */
    method MoveNode(oldidx: nat, newidx: nat)
      requires oldidx < base.Length && newidx < base.Length && oldidx != newidx && oldidx != 0
      requires base[newidx] == Zero() && base[oldidx].parent != oldidx
      requires Reach(base[..], oldidx)
      requires base[oldidx].mode == Arc ==> base[oldidx].idx < base.Length
      modifies base
      ensures MovedAll(old(base[..]), oldidx, newidx, base[..])
    {
      ghost var b := base[..];
      base[newidx] := base[oldidx];
      base[oldidx] := Zero();
      if base[newidx].mode == Arc {
        var start := base[newidx].idx;
        var limit := base.Length - 1 - start;
        if limit > 255 {
          limit := 255;
        }
        for j := 1 to limit + 1
          invariant base[newidx] == b[oldidx] && base[oldidx] == Zero()
          invariant forall s | 0 <= s < base.Length && s != newidx && s != oldidx ::
                      base[s] == if start < s < start + j then Moved(b, oldidx, newidx, s) else b[s]
        {
          if base[start + j].parent == oldidx {
            base[start + j] := base[start + j].(parent := newidx);
          }
        }
      }
    }

    /** Moves all children of `p` from base `from` to base `q`.  The tree stays as
        it is; only the children's slots change.  `lastidx` follows its node. */
    method MoveSiblings(parent: nat, from: nat, q: nat, list: seq<byte>, lastidx: nat, ghost p: Path, ghost last: Path)
      returns (lastidx': nat)
      requires Valid() && p in tree && tree[p].Inner? && layout.at[p] == parent && base[parent].idx == from
      requires 1 <= q < base.Length && Free(q, list)
      requires last in tree && layout.at[last] == lastidx
      requires forall k | 0 <= k < |list| :: 1 <= list[k]
      requires forall j, k | 0 <= j < k < |list| :: list[j] < list[k]
      requires forall c: byte | c != 0 :: c in list <==> p + [c] in tree
      modifies base, `layout
      ensures Valid() && lastidx' == layout.at[last]
      ensures base.Length == old(base.Length) && lastidx' < base.Length
      ensures base[lastidx'].idx == if last == p then q else old(base[lastidx].idx)
      ensures layout.at[p] == parent && base[parent].idx == q
      ensures forall r | r in tree && r != [] && Up(r) == p :: layout.at[r] == q + Last(r)
      ensures layout.at.Keys == tree.Keys
      ensures forall r | r in tree && (r == [] || Up(r) != p) :: layout.at[r] == old(layout.at[r])
    {
      hide Sound, Placed, TreeOk, Strings, Denotes, MovedTo;
      Inside(last);
      ghost var at, b, mv, idx := layout.at, base[..], Moving(p, from, {}), base[lastidx].idx;
      BeginMove(parent, q, p, list);
      lastidx' := lastidx;
      base[parent] := base[parent].(idx := q);
      assert base[..] == b[parent := b[parent].(idx := q)];
      assert Prefix(list, 0) == {};
      for i := 0 to |list|
        invariant base == old(base) && tree == old(tree)
        invariant Placed(base[..], layout, tree, mv) && mv == Moving(p, from, Prefix(list, i))
        invariant p in layout.at && layout.at[p] == parent && base[parent].idx == q
        invariant forall k | i <= k < |list| :: FreeSlot(q + list[k])
        invariant last in layout.at && lastidx' == layout.at[last] < base.Length
        invariant base[lastidx'].idx == if last == p then q else idx
        invariant layout.at == MovedTo(at, p, q, Prefix(list, i))
      {
        lastidx' := MoveSibling(from, q, list, i, lastidx', mv, p, last);
        MovedToStep(at, p, q, list, i);
        mv := Moving(p, from, Prefix(list, i + 1));
      }
      FinishMove(at, q, list, mv);
    }

    lemma BeginMove(parent: nat, q: nat, p: Path, list: seq<byte>)
      requires Valid() && p in tree && tree[p].Inner? && layout.at[p] == parent
      requires 1 <= q < base.Length
      requires forall c: byte | c != 0 :: c in list <==> p + [c] in tree
      ensures TreeOk(tree) && p in layout.at && parent < base.Length
      ensures Placed(base[..][parent := base[parent].(idx := q)], layout, tree, Moving(p, base[parent].idx, {}))
      ensures Strings(tree, stringtab[..], tail) && Denotes(tree, words)
      ensures forall k | 0 <= k < |list| && list[k] != 0 :: p + [list[k]] in tree && list[k] in list
      ensures base[parent].mode != Unused && layout.lab[layout.at[p]] == p
      ensures forall r | r in tree && layout.at[r] == parent :: r == p
      ensures layout.at == MovedTo(layout.at, p, q, {}) && layout.at.Keys == tree.Keys
    {
      StartMove(base[..], layout, tree, p, q);
      assert Says(base[parent], tree[p], base.Length);
      assert forall r | r in tree :: layout.lab[layout.at[r]] == r;
    }

    lemma FinishMove(at: map<Path, nat>, q: nat, list: seq<byte>, mv: Move)
      requires base as object != stringtab as object && 257 <= base.Length && 256 <= stringtab.Length
      requires mv.Moving? && Placed(base[..], layout, tree, mv) && mv.done == Prefix(list, |list|)
      requires TreeOk(tree) && Strings(tree, stringtab[..], tail) && Denotes(tree, words)
      requires layout.at == MovedTo(at, mv.p, q, mv.done)
      requires forall c: byte | c != 0 :: c in list <==> mv.p + [c] in tree
      ensures Valid() && layout.at.Keys == tree.Keys
      ensures forall r | r in tree && r != [] && Up(r) == mv.p :: layout.at[r] == q + Last(r)
      ensures forall r | r in tree && (r == [] || Up(r) != mv.p) :: layout.at[r] == at[r]
    {
      ChildrenArrived(list, mv);
      EndMove(base[..], layout, tree, mv);
      hide Placed, Strings, Denotes, TreeOk, MovedTo;
      MovedEnds(at, q, mv);
    }

    lemma ChildrenArrived(list: seq<byte>, mv: Move)
      requires mv.Moving? && mv.done == Prefix(list, |list|) && TreeOk(tree)
      requires forall c: byte | c != 0 :: c in list <==> mv.p + [c] in tree
      ensures forall r | r in tree && r != [] && Up(r) == mv.p :: Last(r) in mv.done
    {
      forall r | r in tree && r != [] && Up(r) == mv.p ensures Last(r) in mv.done {
        assert HasParent(tree, r) && r == Up(r) + [Last(r)];
      }
    }

    lemma MovedEnds(at: map<Path, nat>, q: nat, mv: Move)
      requires mv.Moving? && layout.at == MovedTo(at, mv.p, q, mv.done) && layout.at.Keys == tree.Keys
      requires forall r | r in tree && r != [] && Up(r) == mv.p :: Last(r) in mv.done
      ensures forall r | r in tree && r != [] && Up(r) == mv.p :: layout.at[r] == q + Last(r)
      ensures forall r | r in tree && (r == [] || Up(r) != mv.p) :: r in at && layout.at[r] == at[r]
    {
    }

    /** One round of the relocation loop. */
    method MoveSibling(from: nat, q: nat, list: seq<byte>, i: nat, lastidx: nat, ghost mv: Move, ghost p: Path, ghost last: Path)
      returns (lastidx': nat)
      requires TreeOk(tree) && Placed(base[..], layout, tree, mv)
      requires i < |list| && mv == Moving(p, from, Prefix(list, i))
      requires list[i] !in Prefix(list, i)
      requires 1 <= list[i] && p + [list[i]] in tree && p in tree
      requires p in layout.at && layout.at[p] < base.Length && base[layout.at[p]].idx == q
      requires forall k | i <= k < |list| :: FreeSlot(q + list[k])
      requires forall j, k | 0 <= j < k < |list| :: list[j] < list[k]
      requires last in layout.at && lastidx == layout.at[last] < base.Length
      modifies base, `layout
      ensures Placed(base[..], layout, tree, Moving(p, from, Prefix(list, i) + {list[i]}))
      ensures layout.at == old(layout.at)[p + [list[i]] := q + list[i]] && lastidx' == layout.at[last]
      ensures layout.at[p] == old(layout.at[p]) && base[layout.at[p]].idx == q
      ensures lastidx' < base.Length && base[lastidx'].idx == old(base[lastidx].idx)
      ensures forall k | i < k < |list| :: FreeSlot(q + list[k])
    {
      hide Placed, TreeOk, MovedAll, Reach, MovedLayout, Prefix, Zero;
      var c := list[i];
      var oldidx, newidx := from + c, q + c;
      ghost var b := base[..];
      MoveReady(b, layout, tree, mv, c);
      UsedSlot(b, layout, tree, mv, newidx);
      lastidx' := if oldidx == lastidx then newidx else lastidx;
      ChildrenInReach(b, layout, tree, mv, p + [c]);
      MoveNode(oldidx, newidx);
      MoveDone(b, layout, tree, mv, c, base[..]);
      layout := MovedLayout(layout, oldidx, newidx);
    }

    /** A slot in which no path lives is unused. */
    lemma NobodyAt(i: nat)
      requires Valid() && i < base.Length
      requires forall r | r in tree :: layout.at[r] != i
      ensures FreeSlot(i)
    {
      UsedSlot(base[..], layout, tree, Still, i);
    }

    /** The slot that the next byte of the key selects belongs to another parent.
        One of the two sibling sets is moved out of the way, the smaller one, and
        the new node is created. When the slot is the root's own and the root's children
        are moved, the slot does not become free by that: the root is overwritten. */
    method Collide(lastidx: nat, curidx: nat, c: byte, rest: Path, v: K, ghost last: Path)
      requires Valid() && c != 0 && NoNul(rest)
      requires last in tree && tree[last].Inner? && layout.at[last] == lastidx < base.Length
      requires last + [c] !in tree
      requires curidx == base[lastidx].idx + c && curidx < base.Length
      requires base[curidx].mode != Unused && base[curidx].parent != lastidx
      modifies base, stringtab, `base, `stringtab, `tail, `tree, `layout, `words
      ensures (base == old(base) || fresh(base)) && (stringtab == old(stringtab) || fresh(stringtab))
      ensures var fouls := curidx == ROOT && |Arcs(old(tree), [])| <= |Arcs(old(tree), last)| + 1;
              if fouls then
                c == 1 && words == old(words) &&
                FouledBy(last, rest, old(tail), FirstRoom(old(base[..]), Arcs(old(tree), []), 1), v)
              else
                Valid() && words == old(words)[last + [c] + rest := v] && last + [c] + rest !in old(words)
    {
      hide Sound;
      ghost var p := last + [c];
      assert Up(p) == last && Last(p) == c;
      var outgoing := CollectArcs(lastidx, last);
      var parent := base[curidx].parent;
      ghost var family := Family(curidx);
      var incoming := CollectArcs(parent, family);
      if |incoming| < |outgoing + [c]| + 1 {
        if curidx == ROOT {
          OverwriteRoot(lastidx, incoming, rest, v, last);
        } else {
          ghost var here := Occupant(curidx);
          MoveIncoming(lastidx, curidx, parent, incoming, c, rest, v, last, here);
        }
      } else {
        MoveOutgoing(lastidx, outgoing, c, rest, v, last);
      }
    }

    /** The root has been overwritten by the node of a key: with its old base `q` and no
        value the arrays would be sound for `words`. */
    ghost predicate FouledBy(last: Path, rest: Path, off: nat, q: nat, v: K)
      reads this, base, stringtab
    {
      && base as object != stringtab as object && ROOT < base.Length
      && Overwritten(base[..][ROOT := Node(q, ROOT, None, Arc)], stringtab[..], tail, layout, tree, words,
                     last, rest, off, v, base[..])
    }

    /** Moves the arcs leaving the root, and writes the new node over it. */
    method OverwriteRoot(lastidx: nat, incoming: seq<byte>, rest: Path, v: K, ghost last: Path)
      requires Valid() && NoNul(rest)
      requires last in tree && tree[last].Inner? && last != [] && layout.at[last] == lastidx < base.Length
      requires last + [1] !in tree && base[lastidx].idx == 0
      requires forall k | 0 <= k < |incoming| :: 1 <= incoming[k]
      requires forall j, k | 0 <= j < k < |incoming| :: incoming[j] < incoming[k]
      requires forall b: byte | b != 0 :: b in incoming <==> [] + [b] in tree
      modifies base, stringtab, `base, `stringtab, `tail, `layout
      ensures (base == old(base) || fresh(base)) && (stringtab == old(stringtab) || fresh(stringtab))
      ensures FouledBy(last, rest, old(tail), FirstRoom(old(base[..]), Arcs(tree, []), 1), v)
    {
      hide Sound, FirstRoom;
      ghost var b := base[..];
      AtRoot();
      RootHasChild(last, incoming);
      var q := CheckMulti(incoming, 1, false, 0);
      GrownValid(b);
      AtRoot();
      assert Bytes(incoming) == Arcs(tree, []);
      assert base[lastidx] == b[lastidx];
      assert incoming[0] in incoming && FreeSlot(q + incoming[0]);
      var lastidx' := MoveSiblings(ROOT, base[ROOT].idx, q, incoming, lastidx, [], last);
      WriteRoot(lastidx', q, rest, v, last);
    }

    lemma RootHasChild(last: Path, list: seq<byte>)
      requires Valid() && last in tree && last != []
      requires forall b: byte | b != 0 :: b in list <==> [] + [b] in tree
      ensures list != []
    {
      PrefixInner(tree, last, 1);
      assert last[..1] == [] + [last[0]];
      assert HasParent(tree, last[..1]);
    }

    method WriteRoot(lastidx: nat, q: nat, rest: Path, v: K, ghost last: Path)
      requires Valid() && NoNul(rest)
      requires last in tree && tree[last].Inner? && last != [] && layout.at[last] == lastidx < base.Length
      requires last + [1] !in tree && base[lastidx].idx == 0 && base[ROOT].idx == q
      modifies base, stringtab, `stringtab, `tail
      ensures base == old(base) && (stringtab == old(stringtab) || fresh(stringtab))
      ensures FouledBy(last, rest, old(tail), q, v)
    {
      hide Sound;
      RootNode();
      Inside(last);
      ghost var off := tail;
      var node := Node(q, lastidx, Some(v), Arc);
      if rest != [] {
        var at := AddString(rest);
        node := Node(at, lastidx, Some(v), Term);
      }
      ghost var b := base[..];
      base[ROOT] := node;
      assert b == base[..][ROOT := Node(q, ROOT, None, Arc)];
    }

    lemma RootNode()
      requires Valid()
      ensures ROOT < base.Length && base[ROOT] == Node(base[ROOT].idx, ROOT, None, Arc)
    {
      assert Says(base[layout.at[[]]], tree[[]], base.Length);
    }

    /** The path whose children are the family of the node in a used slot; the root
        counts as its own child. */
    lemma Family(i: nat) returns (p: Path)
      requires Valid() && i < base.Length && base[i].mode != Unused
      ensures p in tree && tree[p].Inner? && layout.at[p] == base[i].parent < base.Length
      ensures i == ROOT ==> p == []
      ensures i != ROOT ==> forall r | r in tree && layout.at[r] == i :: r != [] && Up(r) == p
    {
      if i == ROOT {
        p := [];
      } else {
        var r := Occupant(i);
        p := Up(r);
      }
    }

    /** The path that lives in a used slot other than the root's. */
    lemma Occupant(i: nat) returns (r: Path)
      requires Valid() && i < base.Length && base[i].mode != Unused && i != ROOT
      ensures r in tree && r != [] && layout.at[r] == i && Up(r) in tree && tree[Up(r)].Inner?
      ensures layout.at[Up(r)] == base[i].parent < base.Length
      ensures forall r' | r' in tree && layout.at[r'] == i :: r' == r
    {
      UsedSlot(base[..], layout, tree, Still, i);
      r := layout.lab[i];
      assert r in tree && layout.at[r] == i;
      assert r != [] ==> HasParent(tree, r) && Hangs(base[..], layout, Still, r);
      forall r' | r' in tree && layout.at[r'] == i ensures r' == r {
        assert layout.lab[layout.at[r']] == r';
      }
    }

    /** Moves the arcs entering the contested slot's family; the slot becomes free. */
    method MoveIncoming(lastidx: nat, curidx: nat, parent: nat, incoming: seq<byte>, c: byte, rest: Path, v: K,
                        ghost last: Path, ghost here: Path)
      requires Valid() && c != 0 && NoNul(rest)
      requires last in tree && tree[last].Inner? && layout.at[last] == lastidx < base.Length
      requires last + [c] !in tree && curidx == base[lastidx].idx + c < base.Length
      requires base[curidx].mode != Unused
      requires here in tree && here != [] && layout.at[here] == curidx
      requires forall r | r in tree && layout.at[r] == curidx :: r == here
      requires Up(here) in tree && tree[Up(here)].Inner? && layout.at[Up(here)] == parent != lastidx
      requires forall k | 0 <= k < |incoming| :: 1 <= incoming[k]
      requires forall j, k | 0 <= j < k < |incoming| :: incoming[j] < incoming[k]
      requires forall b: byte | b != 0 :: b in incoming <==> Up(here) + [b] in tree
      modifies base, stringtab, `base, `stringtab, `tail, `tree, `layout, `words
      ensures Valid()
      ensures (base == old(base) || fresh(base)) && (stringtab == old(stringtab) || fresh(stringtab))
      ensures words == old(words)[last + [c] + rest := v] && last + [c] + rest !in old(words)
    {
      hide Sound, FirstRoom, RoomAt;
      ghost var p, b := last + [c], base[..];
      assert Up(p) == last && Last(p) == c;
      Siblings(Up(here), incoming);
      assert here == Up(here) + [Last(here)];
      Inside(Up(here));
      var q := CheckMulti(incoming, 1, false, 0);
      GrownValid(b);
      assert base[curidx] == b[curidx] && base[lastidx] == b[lastidx] && base[parent] == b[parent];
      forall r | r in tree && r != [] && Up(r) == Up(here) ensures q + Last(r) != curidx {
        assert Last(r) in incoming;
      }
      ghost var b1 := base[..];
      var lastidx' := MoveSiblings(parent, base[parent].idx, q, incoming, lastidx, Up(here), last);
      NobodyAt(curidx);
      PlaceNew(curidx, lastidx', rest, Some(v), p);
    }

    /** Every child of `p` is named by the list. */
    lemma Siblings(p: Path, list: seq<byte>)
      requires Valid() && p in tree
      requires forall b: byte | b != 0 :: b in list <==> p + [b] in tree
      ensures forall r | r in tree && r != [] && Up(r) == p :: Last(r) in list && Last(r) != 0
    {
      forall r | r in tree && r != [] && Up(r) == p ensures Last(r) in list && Last(r) != 0 {
        assert HasParent(tree, r) && r == Up(r) + [Last(r)];
      }
    }

    /** Moves the arcs leaving the last node, leaving room for the new one. */
    method MoveOutgoing(lastidx: nat, outgoing: seq<byte>, c: byte, rest: Path, v: K, ghost last: Path)
      requires Valid() && c != 0 && NoNul(rest)
      requires last in tree && tree[last].Inner? && layout.at[last] == lastidx < base.Length
      requires last + [c] !in tree
      requires forall k | 0 <= k < |outgoing| :: 1 <= outgoing[k]
      requires forall j, k | 0 <= j < k < |outgoing| :: outgoing[j] < outgoing[k]
      requires forall b: byte | b != 0 :: b in outgoing <==> last + [b] in tree
      modifies base, stringtab, `base, `stringtab, `tail, `tree, `layout, `words
      ensures Valid()
      ensures (base == old(base) || fresh(base)) && (stringtab == old(stringtab) || fresh(stringtab))
      ensures words == old(words)[last + [c] + rest := v] && last + [c] + rest !in old(words)
    {
      hide Sound, FirstRoom, RoomAt;
      ghost var p, b := last + [c], base[..];
      assert Up(p) == last && Last(p) == c;
      Siblings(last, outgoing);
      var q := CheckMulti(outgoing + [c], 1, false, 0);
      GrownValid(b);
      assert base[lastidx] == b[lastidx];
      assert c in outgoing + [c];
      assert Free(q, outgoing) by {
        forall x | x in outgoing ensures FreeSlot(q + x) {
          assert x in outgoing + [c];
        }
      }
      Vacant(q + c);
      var lastidx' := MoveSiblings(lastidx, base[lastidx].idx, q, outgoing, lastidx, last, last);
      NobodyAt(q + c);
      PlaceNew(q + c, lastidx', rest, Some(v), p);
    }

    lemma Vacant(i: nat)
      requires Valid() && FreeSlot(i)
      ensures forall r | r in tree :: layout.at[r] != i
    {
      UsedSlot(base[..], layout, tree, Still, i);
    }

    // ------------------------------------------------------------- insertion

    /** A walk for `key` can be led onto the root's own slot: an arc that has never
        been given a base still says 0, and byte 1 then selects slot 1.  The
        insertion then fouls the root if it decides to move the root's children,
        that is, if those are no more than the arcs leaving the last node and the
        new one together. */
    ghost predicate Fouls(key: Path)
      requires Valid()
      reads this, base, stringtab
    {
      exists n | 0 <= n < |key| :: FoulsAt(key, n)
    }

    ghost predicate FoulsAt(key: Path, n: nat)
      requires Valid() && n < |key|
      reads this, base, stringtab
    {
      OntoRoot(key, n) && |Arcs(tree, [])| <= |Arcs(tree, key[..n])| + 1
    }

    ghost predicate OntoRoot(key: Path, n: nat)
      requires Valid() && n < |key|
      reads this, base, stringtab
    {
      key[..n] in tree && tree[key[..n]].Inner? && SlotFor(key[..n], key[n]) == ROOT
    }

    /** The slot that byte `c` selects below `p`. */
    ghost function SlotFor(p: Path, c: byte): nat
      requires Valid() && p in tree
      reads this, base, stringtab
    {
      base[layout.at[p]].idx + c
    }

    /** Keys without byte 1 never meet that case. */
    lemma NoByteOneIsSafe(key: Path)
      requires Valid() && NoNul(key) && 1 !in key
      ensures !Fouls(key)
    {
      forall n | 0 <= n < |key| ensures !OntoRoot(key, n) {
        assert key[n] in key;
      }
    }

    /** Follows the arcs for a non-empty key until it runs out or something is in
        the way; `n` bytes have been read by then. */
    method Walk(key: Path) returns (stop: Stop, lastidx: nat, curidx: nat, n: nat)
      requires Valid() && NoNul(key) && key != []
      ensures Stopped(key, stop, lastidx, curidx, n)
    {
      hide Sound;
      lastidx, curidx, n := ROOT, ROOT, 0;
      AtRoot();
      while n < |key|
        invariant n <= |key| && key[..n] in tree && tree[key[..n]].Inner?
        invariant key[..n] in layout.at && lastidx == layout.at[key[..n]] < base.Length
      {
        assert key[..n + 1] == key[..n] + [key[n]] && key[n] in key;
        ArcSlot(key[..n], key[n]);
        curidx := base[lastidx].idx + key[n];
        n := n + 1;
        if curidx > base.Length - 1 || base[curidx].mode == Unused {
          return Vacancy, lastidx, curidx, n;
        } else if base[curidx].parent != lastidx {
          return Collision, lastidx, curidx, n;
        }
        Inside(key[..n]);
        if base[curidx].mode == Term {
          return Terminator, lastidx, curidx, n;
        }
        lastidx := curidx;
      }
      assert key[..n] == key;
      stop := Exhausted;
    }

    /** The walk for `key` finds a free place for its last byte. */
    ghost predicate Lands(key: Path)
      requires Valid()
      reads this, base, stringtab
    {
      && key != [] && Up(key) in tree && tree[Up(key)].Inner? && Last(key) != 0
      && (SlotFor(Up(key), Last(key)) < base.Length ==> base[SlotFor(Up(key), Last(key))].mode == Unused)
    }

    /** Inserts `v` at `key`; fails, changing nothing, when the key is already set. The trie
        stays a trie exactly if the insertion does not foul the root. */
    method Insert(key: Path, v: K) returns (ok: bool)
      requires Valid() && NoNul(key)
      modifies this, base, stringtab
      ensures (base == old(base) || fresh(base)) && (stringtab == old(stringtab) || fresh(stringtab))
      ensures Valid() <==> !old(Fouls(key))
      ensures ok <==> key !in old(Contents())
      ensures numElements == if ok then Inc(old(numElements)) else old(numElements)
      ensures !old(Fouls(key)) ==> Contents() == if ok then old(Contents())[key := v] else old(Contents())
      ensures !Valid() ==> (words, empty) == old((words, empty)) && forall n | 0 <= n < |key| && old(FoulsAt(key, n)) ::
                key[n] == 1 &&
                FouledBy(key[..n], key[n + 1..], old(tail), FirstRoom(old(base[..]), Arcs(old(tree), []), 1), v)
      ensures old(Lands(key)) ==>
                Valid() && tree == old(tree)[key := Inner(Some(v))] && tail == old(tail) && SlotFor(key, 1) == ROOT
    {
      hide Sound, FirstRoom, FoulsAt, Overwritten;
      NotEmptyWord();
      if key == [] {
        if empty.Some? && empty.value.Some? {
          return false;
        }
        empty := Some(Some(v));
        numElements := Inc(numElements);
        return true;
      }
      assert !Lands(key) || key != [];
      ok := InsertWord(key, v);
      if ok {
        numElements := Inc(numElements);
      }
    }

    /** The insertion of a key that is not empty. */
    method InsertWord(key: Path, v: K) returns (ok: bool)
      requires Valid() && NoNul(key) && key != []
      modifies base, stringtab, `base, `stringtab, `tail, `tree, `layout, `words
      ensures (base == old(base) || fresh(base)) && (stringtab == old(stringtab) || fresh(stringtab))
      ensures Valid() <==> !old(Fouls(key))
      ensures ok <==> key !in old(words)
      ensures Valid() ==> words == if ok then old(words)[key := v] else old(words)
      ensures !Valid() ==> words == old(words) && forall n | 0 <= n < |key| && old(FoulsAt(key, n)) ::
                key[n] == 1 &&
                FouledBy(key[..n], key[n + 1..], old(tail), FirstRoom(old(base[..]), Arcs(old(tree), []), 1), v)
      ensures old(Lands(key)) ==>
                Valid() && tree == old(tree)[key := Inner(Some(v))] && tail == old(tail) && SlotFor(key, 1) == ROOT
    {
      hide Sound, FirstRoom, FoulsAt, Overwritten, Lands;
      var stop, lastidx, curidx, n := Walk(key);
      FoulsWhereStopped(key, stop, lastidx, curidx, n);
      LandsInVacancy(key, stop, lastidx, curidx, n);
      match stop {
      case Exhausted =>
        ok := SetIfUnset(lastidx, v, key);
      case Vacancy =>
        InsertVacant(lastidx, curidx, key, n, v);
        ok := true;
      case Collision =>
        CollisionIsNew(key, lastidx, curidx, n);
        forall m | 0 <= m < |key| && old(FoulsAt(key, m)) ensures m == n - 1 {
          assert FoulsAt(key, m);
        }
        InsertColliding(lastidx, curidx, key, n, v);
        ok := true;
      case Terminator =>
        ok := InsertAtTerm(curidx, key, n, v);
      }
    }

    /** The next slot belongs to another parent. */
    method InsertColliding(lastidx: nat, curidx: nat, key: Path, n: nat, v: K)
      requires Valid() && NoNul(key) && Stopped(key, Collision, lastidx, curidx, n)
      modifies base, stringtab, `base, `stringtab, `tail, `tree, `layout, `words
      ensures (base == old(base) || fresh(base)) && (stringtab == old(stringtab) || fresh(stringtab))
      ensures Valid() <==> !old(FoulsAt(key, n - 1))
      ensures Valid() ==> words == old(words)[key := v]
      ensures !Valid() ==>
                && key[n - 1] == 1 && words == old(words)
                && FouledBy(key[..n - 1], key[n..], old(tail), FirstRoom(old(base[..]), Arcs(old(tree), []), 1), v)
    {
      hide Sound, FirstRoom;
      FoulsWhereStopped(key, Collision, lastidx, curidx, n);
      assert key[..n - 1] + [key[n - 1]] + key[n..] == key && key[..n - 1] + [key[n - 1]] == key[..n];
      assert key[n - 1] in key && forall x | x in key[n..] :: x in key;
      ghost var fouls, b, ts := FoulsAt(key, n - 1), base[..], tree;
      Collide(lastidx, curidx, key[n - 1], key[n..], v, key[..n - 1]);
      if fouls {
        NotValid(key[..n - 1], key[n..], old(tail), FirstRoom(b, Arcs(ts, []), 1), v);
      }
    }

    lemma NotValid(last: Path, rest: Path, off: nat, q: nat, v: K)
      requires FouledBy(last, rest, off, q, v)
      ensures !Valid()
    {
      NeverSound(base[..][ROOT := Node(q, ROOT, None, Arc)], stringtab[..], tail, layout, tree, words,
                 last, rest, off, v, base[..], stringtab[..], tail, layout, tree, words);
    }

    /** Where a walk stops, and what it has found there. */
    ghost predicate Stopped(key: Path, stop: Stop, lastidx: nat, curidx: nat, n: nat)
      reads this, base
    {
      && 1 <= n <= |key| && lastidx < base.Length
      && (stop.Exhausted? ==> n == |key| && key in tree && tree[key].Inner? && key in layout.at && layout.at[key] == lastidx)
      && (!stop.Exhausted? ==>
            && key[..n - 1] in tree && tree[key[..n - 1]].Inner?
            && key[..n - 1] in layout.at && layout.at[key[..n - 1]] == lastidx
            && curidx == base[lastidx].idx + key[n - 1])
      && (stop.Vacancy? ==> key[..n] !in tree && (curidx < base.Length ==> base[curidx].mode == Unused))
      && (stop.Collision? ==> key[..n] !in tree && curidx < base.Length &&
                              base[curidx].mode != Unused && base[curidx].parent != lastidx)
      && (stop.Terminator? ==>
            && key[..n] in tree && tree[key[..n]].Leaf?
            && key[..n] in layout.at && layout.at[key[..n]] == curidx < base.Length)
    }

    /** The insertion fouls the root where the walk stops, or nowhere. */
    lemma FoulsWhereStopped(key: Path, stop: Stop, lastidx: nat, curidx: nat, n: nat)
      requires Valid() && NoNul(key) && Stopped(key, stop, lastidx, curidx, n)
      ensures forall m | 0 <= m < |key| && FoulsAt(key, m) :: m == n - 1
      ensures Fouls(key) ==> stop.Collision?
      ensures stop.Collision? ==>
                (Fouls(key) <==> FoulsAt(key, n - 1))
                && (FoulsAt(key, n - 1) <==> curidx == ROOT && |Arcs(tree, [])| <= |Arcs(tree, key[..n - 1])| + 1)
    {
      forall m | 0 <= m < |key| && FoulsAt(key, m) ensures m == n - 1 && stop.Collision? {
        OntoRootLeaves(key, m);
        OnTheWay(key, stop, lastidx, curidx, n, m);
      }
      assert stop.Collision? ==> SlotFor(key[..n - 1], key[n - 1]) == curidx;
    }

    /** The key of a collision is new. */
    lemma CollisionIsNew(key: Path, lastidx: nat, curidx: nat, n: nat)
      requires Valid() && Stopped(key, Collision, lastidx, curidx, n)
      ensures key !in words
    {
      assert key[..n - 1] + key[n - 1..] == key && key[..n - 1] + [key[n - 1..][0]] == key[..n];
      LeftTree(tree, key[..n - 1], key[n - 1..]);
      DenotesMissing(tree, words, key);
    }

    lemma LandsInVacancy(key: Path, stop: Stop, lastidx: nat, curidx: nat, n: nat)
      requires Valid() && Stopped(key, stop, lastidx, curidx, n)
      ensures Lands(key) ==> stop.Vacancy? && n == |key|
    {
      if Lands(key) {
        LandsLeaves(key);
        OnTheWay(key, stop, lastidx, curidx, n, |key| - 1);
      }
    }

    /** The slot of the root is nobody's next. */
    lemma OntoRootLeaves(key: Path, m: nat)
      requires Valid() && NoNul(key) && m < |key| && OntoRoot(key, m)
      ensures key[..m + 1] !in tree && ROOT < base.Length && base[ROOT].mode != Unused && base[ROOT].parent != layout.at[key[..m]]
    {
      assert key[..m + 1] == key[..m] + [key[m]] && key[m] in key;
      ArcSlot(key[..m], key[m]);
      Steps(base[..], stringtab[..], tail, layout, tree, words, key[..m], key[m]);
      RootNode();
      assert base[..][ROOT] == base[ROOT];
      assert layout.lab[layout.at[[]]] == [];
    }

    lemma LandsLeaves(key: Path)
      requires Valid() && Lands(key)
      ensures key[..|key| - 1] in tree && tree[key[..|key| - 1]].Inner? && key !in tree && key[..|key|] == key
    {
      ArcSlot(Up(key), Last(key));
      assert key == Up(key) + [Last(key)];
    }

    /** A walk that can go on to byte `m` and no further stops there. */
    lemma OnTheWay(key: Path, stop: Stop, lastidx: nat, curidx: nat, n: nat, m: nat)
      requires Valid() && Stopped(key, stop, lastidx, curidx, n) && m < |key|
      requires key[..m] in tree && tree[key[..m]].Inner? && key[..m + 1] !in tree
      ensures n == m + 1 && (stop.Vacancy? || stop.Collision?)
    {
      if stop.Exhausted? {
        PrefixInner(tree, key, m + 1);
      } else {
        if n - 1 > m {
          assert key[..n - 1][..m + 1] == key[..m + 1];
          PrefixInner(tree, key[..n - 1], m + 1);
        }
        if n <= m {
          assert key[..m][..n] == key[..n];
          PrefixInner(tree, key[..m], n);
        }
      }
    }

    lemma AtRoot()
      requires Valid()
      ensures [] in tree && tree[[]].Inner? && [] in layout.at && layout.at[[]] == ROOT < base.Length
    {
    }

    lemma NotEmptyWord()
      requires Valid()
      ensures [] !in words
    {
    }

    /** The walk used up the key: the node exists already. */
    method SetIfUnset(i: nat, v: K, ghost p: Path) returns (ok: bool)
      requires Valid() && p in tree && p != [] && layout.at[p] == i < base.Length
      modifies base, `tree, `words
      ensures Valid()
      ensures ok <==> Full(p, old(tree)[p]) !in old(words)
      ensures words == if ok then old(words)[Full(p, old(tree)[p]) := v] else old(words)
    {
      ReadsValue(p);
      hide Sound;
      if base[i].value == None {
        SetValue(i, Some(v), p);
        ok := true;
      } else {
        ok := false;
      }
    }

    lemma ReadsValue(p: Path)
      requires Valid() && p in tree
      ensures p in layout.at && layout.at[p] < base.Length && base[layout.at[p]].value == tree[p].value
      ensures tree[p].value.Some? <==> Full(p, tree[p]) in words
      ensures tree[p].value.Some? ==> words[Full(p, tree[p])] == tree[p].value.value
    {
      assert Says(base[layout.at[p]], tree[p], base.Length);
      DenotesLookup(tree, words, p);
    }

    /** The next slot is free, or lies beyond the array, which then grows once. */
    method InsertVacant(lastidx: nat, curidx: nat, key: Path, n: nat, v: K)
      requires Valid() && NoNul(key) && 1 <= n <= |key|
      requires key[..n - 1] in tree && tree[key[..n - 1]].Inner? && layout.at[key[..n - 1]] == lastidx < base.Length
      requires key[..n] !in tree && curidx == base[lastidx].idx + key[n - 1]
      requires curidx < base.Length ==> base[curidx].mode == Unused
      modifies base, stringtab, `base, `stringtab, `tail, `tree, `layout, `words
      ensures Valid()
      ensures (base == old(base) || fresh(base)) && (stringtab == old(stringtab) || fresh(stringtab))
      ensures words == old(words)[key := v] && key !in old(words)
      ensures n == |key| ==>
                && tree == old(tree)[key := Inner(Some(v))] && tail == old(tail)
                && key in layout.at && layout.at[key] < base.Length && base[layout.at[key]].idx == 0
    {
      hide Sound;
      ghost var p, last := key[..n], key[..n - 1];
      assert Up(p) == last && Last(p) == key[n - 1] && p + key[n..] == key;
      assert key[n - 1] in key && forall x | x in key[n..] :: x in key;
      Inside(last);
      if curidx > base.Length - 1 {
        ghost var b := base[..];
        Grow();
        GrownValid(b);
        assert base[lastidx] == b[lastidx];
      }
      PlaceNew(curidx, lastidx, key[n..], Some(v), p);
      assert n == |key| ==> p == key;
    }

    /** The walk ran into a terminator: the same key, or one to split. */
    method InsertAtTerm(curidx: nat, key: Path, n: nat, v: K) returns (ok: bool)
      requires Valid() && NoNul(key) && 1 <= n <= |key|
      requires key[..n] in tree && tree[key[..n]].Leaf? && layout.at[key[..n]] == curidx < base.Length
      modifies base, stringtab, `base, `stringtab, `tail, `tree, `layout, `words
      ensures Valid()
      ensures (base == old(base) || fresh(base)) && (stringtab == old(stringtab) || fresh(stringtab))
      ensures ok <==> key !in old(words)
      ensures words == if ok then old(words)[key := v] else old(words)
    {
      hide Sound;
      ghost var p := key[..n];
      assert p + key[n..] == key;
      assert forall x | x in key[n..] :: x in key;
      SuffixOf(p);
      SameIs(stringtab[..], tail, tree[p].off, tree[p].suffix, key[n..]);
      var same := SameString(key[n..], base[curidx].idx);
      if same {
        ok := SetIfUnset(curidx, v, p);
      } else {
        Unknown(key, n);
        SplitTerm(curidx, key[n..], v, p, tree[p].suffix);
        ok := true;
      }
    }

    lemma Unknown(key: Path, n: nat)
      requires Valid() && 1 <= n <= |key|
      requires key[..n] in tree && tree[key[..n]].Leaf? && tree[key[..n]].suffix != key[n..]
      ensures key !in words
    {
      assert key[..n] + key[n..] == key;
      LeafOther(tree, key[..n], key[n..]);
      DenotesMissing(tree, words, key);
    }

    // ------------------------------------------------------ the other methods

    /** What a lookup result says about the map. */
    lemma Meaning(node: NodeRef, key: Path)
      requires Valid() && Located(node, key)
      ensures node.Null? ==> key !in Contents()
      ensures node.EmptyNode? ==> (empty.value.Some? <==> key in Contents())
      ensures node.Slot? ==>
                && node.i < base.Length && layout.lab[node.i] != []
                && layout.lab[node.i] in layout.at && layout.at[layout.lab[node.i]] == node.i
                && (base[node.i].value.Some? <==> key in words)
                && (base[node.i].value.Some? ==> words[key] == base[node.i].value.value)
                && base[node.i].value == tree[layout.lab[node.i]].value
      ensures key != [] ==> (key in Contents() <==> key in words) && (key in words ==> Contents()[key] == words[key])
    {
      match node
      case Null =>
        if key != [] {
          forall p ensures !Stores(tree, p, key) {
            assert !Reaches(p, key);
          }
        }
      case EmptyNode =>
      case Slot(i) =>
        var p := layout.lab[i];
        UsedSlot(base[..], layout, tree, Still, layout.at[p]);
        DenotesLookup(tree, words, p);
    }

    /** What the arrays answer for a key, be they sound or not. */
    function Lookup(key: Path): Option<K>
      requires ROOT < base.Length
      reads this, base, stringtab
    {
      if key == [] then (if empty.Some? then empty.value else None)
      else Found(base[..], stringtab[..], key)
    }

    /** The value stored at `key`, if it is set. */
    method Retrieve(key: Path) returns (r: Option<K>)
      requires (Valid() || Readable(base[..], stringtab[..])) && NoNul(key)
      ensures ROOT < base.Length && r == Lookup(key)
      ensures Valid() ==> (r.Some? <==> key in Contents()) && (r.Some? ==> r.value == Contents()[key])
    {
      hide Sound;
      var node := InternalRetrieve(key);
      if Valid() {
        Meaning(node, key);
      }
      match node
      case Null => r := None;
      case EmptyNode => r := empty.value;
      case Slot(i) => r := base[i].value;
    }

    /** Unsets `key`; fails when it is not set. */
    method Remove(key: Path) returns (ok: bool)
      requires Valid() && NoNul(key)
      modifies this, base
      ensures Valid() && base == old(base) && stringtab == old(stringtab)
      ensures ok <==> key in old(Contents())
      ensures Contents() == old(Contents()) - {key}
      ensures ok ==> Dormant(key)
      ensures numElements == if ok then Dec(old(numElements)) else old(numElements)
    {
      hide Sound;
      NotEmptyWord();
      var node := InternalRetrieve(key);
      Meaning(node, key);
      match node {
      case Null =>
        return false;
      case EmptyNode =>
        if empty.value == None {
          return false;
        }
        empty := Some(None);
      case Slot(i) =>
        if base[i].value == None {
          return false;
        }
        ghost var p := layout.lab[i];
        SetValue(i, None, p);
        assert Reaches(p, key);
      }
      numElements := Dec(numElements);
      ok := true;
    }

    /** Writes through the pointer that a lookup of a set key has given. */
    method Store(key: Path, v: K)
      requires Valid() && NoNul(key) && key in Contents()
      modifies this, base
      ensures Valid() && base == old(base) && stringtab == old(stringtab)
      ensures Contents() == old(Contents())[key := v] && numElements == old(numElements)
    {
      hide Sound;
      NotEmptyWord();
      var node := InternalRetrieve(key);
      Meaning(node, key);
      match node
      case Null =>
      case EmptyNode => empty := Some(Some(v));
      case Slot(i) => SetValue(i, Some(v), layout.lab[i]);
    }

    /** What `Valid` says of a slot with a value. */
    lemma SetSlot(i: nat)
      requires Valid() && i < base.Length && base[i].value.Some?
      ensures i in layout.lab
      ensures var p := layout.lab[i];
              && p in tree && p != [] && p in layout.at && layout.at[p] == i
              && Full(p, tree[p]) in words && words[Full(p, tree[p])] == base[i].value.value
    {
      FreeInLayout(i);
      UsedSlot(base[..], layout, tree, Still, i);
      DenotesLookup(tree, words, layout.lab[i]);
    }

    /** Unsets every key with a node in the array, and hands over each of their values,
        once. The empty key's node is not in the array. */
    method RunDestructor() returns (values: seq<K>, ghost keys: seq<Path>)
      requires Valid()
      modifies this, base
      ensures Valid() && base == old(base) && stringtab == old(stringtab)
      ensures words == map[] && empty == old(empty) && numElements == old(numElements)
      ensures |values| == |keys| && (forall i, j | 0 <= i < j < |keys| :: keys[i] != keys[j])
      ensures forall k :: k in keys <==> k in old(words)
      ensures forall i | 0 <= i < |keys| :: keys[i] in old(words) && values[i] == old(words)[keys[i]]
    {
      hide Sound;
      values, keys := [], [];
      for i := 0 to base.Length
        invariant Valid() && base == old(base) && stringtab == old(stringtab)
        invariant empty == old(empty) && numElements == old(numElements)
        invariant forall j | 0 <= j < i :: base[j].value.None?
        invariant |values| == |keys| && (forall i, j | 0 <= i < j < |keys| :: keys[i] != keys[j])
        invariant forall k :: k in keys <==> k in old(words) && k !in words
        invariant forall k | k in words :: k in old(words) && words[k] == old(words)[k]
        invariant forall i | 0 <= i < |keys| :: keys[i] in old(words) && values[i] == old(words)[keys[i]]
        modifies this, base
      {
        if base[i].value.Some? {
          SetSlot(i);
          ghost var k := Full(layout.lab[i], tree[layout.lab[i]]);
          values, keys := values + [base[i].value.value], keys + [k];
          SetValue(i, None, layout.lab[i]);
        }
      }
      NoSetSlots();
    }

    lemma NoSetSlots()
      requires Valid() && forall j | 0 <= j < base.Length :: base[j].value.None?
      ensures words == map[]
    {
      forall k | k in words ensures false {
        var r := StoredAt(k);
        Inside(r);
      }
    }

    /** A node that stands for `key` and carries no value. `Remove` leaves one, and so does
        the splitting of a terminator on the way that two keys have in common. */
    ghost predicate Dormant(key: Path)
      reads this
    {
      if key == [] then empty == Some(None)
      else exists p :: Reaches(p, key) && tree[p].value.None?
    }

    /** Stores `v` at `key`, whether or not the key is set; but the source forgets to
        mark a dormant node as set, and the value written there is lost. */
    method Replace(key: Path, v: K) returns (ok: bool)
      requires Valid() && NoNul(key)
      modifies this, base, stringtab
      ensures ok && (Valid() <==> !old(Fouls(key)))
      ensures (base == old(base) || fresh(base)) && (stringtab == old(stringtab) || fresh(stringtab))
      ensures Valid() ==> Contents() == if old(Dormant(key)) then old(Contents()) else old(Contents())[key := v]
      ensures numElements == if key in old(Contents()) || old(Dormant(key)) then old(numElements) else Inc(old(numElements))
      ensures !Valid() ==> (words, empty) == old((words, empty)) && forall n | 0 <= n < |key| && old(FoulsAt(key, n)) ::
                key[n] == 1 &&
                FouledBy(key[..n], key[n + 1..], old(tail), FirstRoom(old(base[..]), Arcs(old(tree), []), 1), v)
    {
      hide Sound, FirstRoom, FoulsAt, Overwritten;
      NotEmptyWord();
      var node := InternalRetrieve(key);
      Meaning(node, key);
      FoulsIsNew(key);
      match node {
      case Null =>
        assert !Dormant(key);
        ok := Insert(key, v);
      case EmptyNode =>
        if empty.value.Some? {
          empty := Some(Some(v));
        }
        ok := true;
      case Slot(i) =>
        OneNode(layout.lab[i], key);
        assert Dormant(key) <==> base[i].value.None?;
        if base[i].value.Some? {
          SetValue(i, Some(v), layout.lab[i]);
        }
        ok := true;
      }
    }

    /** A key that would foul the root has no node. */
    lemma FoulsIsNew(key: Path)
      requires Valid() && NoNul(key)
      ensures Fouls(key) ==> key != [] && forall p :: !Reaches(p, key)
    {
      if Fouls(key) {
        var m :| 0 <= m < |key| && FoulsAt(key, m);
        OntoRootLeaves(key, m);
        assert key[..m] + key[m..] == key && key[..m] + [key[m..][0]] == key[..m + 1];
        LeftTree(tree, key[..m], key[m..]);
      }
    }

    /** A dormant key is not set. */
    lemma DormantUnset(key: Path)
      requires Valid() && Dormant(key)
      ensures key !in Contents()
    {
      NotEmptyWord();
      if key != [] {
        var p :| Reaches(p, key) && tree[p].value.None?;
        ReadsValue(p);
      }
    }

    lemma DormantNotFouling(key: Path)
      requires Valid() && NoNul(key) && Dormant(key)
      ensures !Fouls(key)
    {
      FoulsIsNew(key);
    }

    lemma NonEmptyContents(key: Path)
      requires key != []
      ensures key in Contents() <==> key in words
    {
    }

    /** Where two set keys part there is a node: a proper prefix of both that is not set is
        dormant, be it that it never was set. */
    lemma CommonPrefixDormant(key: Path, a: Path, b: Path)
      requires Valid() && key != [] && key < a && key < b && a != b
      requires a in words && b in words && key !in words
      ensures Dormant(key)
    {
      var p := StoredAt(a);
      var q := StoredAt(b);
      if |p| > |key| {
        InnerOnWay(p, a, key);
      } else if |q| > |key| {
        InnerOnWay(q, b, key);
      } else {
        assert p == a[..|p|] == key[..|p|] && q == b[..|q|] == key[..|q|];
        if |p| < |q| {
          FullPrefixes(p, q, a);
        } else if |q| < |p| {
          FullPrefixes(q, p, b);
        }
        assert false;
      }
    }

    /** On the way to a node that lies deeper than `key` there is one for `key`. */
    lemma InnerOnWay(p: Path, a: Path, key: Path)
      requires Valid() && p in tree && Full(p, tree[p]) == a && key < a && |p| > |key| && key !in words
      ensures Reaches(key, key) && tree[key].value.None?
    {
      assert p[..|key|] == a[..|key|] == key;
      PrefixInner(tree, p, |key|);
      ReadsValue(key);
    }

    /** A node on the way to another stands for its own path only. */
    lemma FullPrefixes(p: Path, q: Path, a: Path)
      requires Valid() && p in tree && q in tree && p < q && Full(p, tree[p]) == a
      ensures a == p
    {
      PrefixInner(tree, q, |p|);
      assert q[..|p|] == p;
    }

    lemma OneNode(p: Path, key: Path)
      requires Valid() && Reaches(p, key)
      ensures forall p' | Reaches(p', key) :: p' == p
    {
      forall p' | Reaches(p', key) ensures p' == p {
        FullInjective(tree, p, p');
      }
    }

    /** Empties the arrays; the node of the empty key is left alone. */
    method Clear()
      requires Valid()
      modifies this, base, stringtab
      ensures Valid() && base == old(base) && stringtab == old(stringtab)
      ensures [] !in old(Contents()) ==> Contents() == map[]
      ensures [] in old(Contents()) ==> Contents() == map[[] := old(Contents())[[]]]
      ensures numElements == 0
      ensures Counted() <==> [] !in old(Contents())
    {
      hide Sound;
      NotEmptyWord();
      InternalClear();
      tree, layout, words := map[[] := Inner(None)], Layout(map[[] := ROOT], map[ROOT := []]), map[];
      FreshSound(base[..], stringtab[..], layout, tree, words);
    }

    /** Resets the arrays and the counters. */
    method InternalClear()
      requires 257 <= base.Length && base as object != stringtab as object
      modifies `tail, `numElements, base, stringtab
      ensures tail == 0 && numElements == 0
      ensures base[ROOT] == Node(1, ROOT, None, Arc)
      ensures forall i | 0 <= i < base.Length && i != ROOT :: base[i] == Zero()
    {
      tail, numElements := 0, 0;
      for i := 0 to base.Length
        modifies base
        invariant forall j | 0 <= j < i :: base[j] == Zero()
      {
        base[i] := Zero();
      }
      for i := 0 to stringtab.Length
        modifies stringtab
      {
        stringtab[i] := 0;
      }
      base[ROOT] := Node(1, ROOT, None, Arc);
    }

    // -------------------------------------------------------------- iteration

    /** A buffer of this length has room for every set key and a terminator. */
    ghost predicate Fits(maxlength: nat)
      reads this
    {
      forall k | k in words :: |k| < maxlength
    }

    /** The calls made so far include every set key below `q`. */
    ghost predicate Covers(calls: seq<(Path, K)>, q: Path)
      reads this
    {
      forall r | r in tree && q <= r && tree[r].value.Some? :: (Full(r, tree[r]), tree[r].value.value) in calls
    }

    /** All calls are for set keys, with their values. */
    ghost predicate Genuine(calls: seq<(Path, K)>)
      reads this
    {
      forall x | x in calls :: x.0 in words && words[x.0] == x.1
    }

    /** The calls are those for the set keys, each once, in ascending order. */
    ghost predicate Lists(calls: seq<(Path, K)>)
      reads this
    {
      Ascending(calls) && Genuine(calls) && forall k | k in words :: (k, words[k]) in calls
    }

    /** The buffer position while the children of `p` are visited. As long as there is room
        for one more byte the path is in the buffer; beyond that the position moves between
        the last two places, since it is taken back for every arc, but has not been moved on
        for those that did not fit. */
    ghost predicate Along(buffer: array<byte>, bufPos: nat, p: Path)
      reads buffer
    {
      if |p| + 1 < buffer.Length then bufPos == |p| && buffer[..bufPos] == p
      else buffer.Length >= 2 ==> buffer.Length - 2 <= bufPos <= buffer.Length - 1
    }

    /** The visits below `p` leave the bytes of `p` alone, but for the last two places. */
    ghost predicate Kept(buffer: array<byte>, was: seq<byte>, p: Path)
      reads buffer
    {
      |was| == buffer.Length && forall j | 0 <= j < |p| && j + 2 < buffer.Length :: buffer[j] == was[j]
    }

    /** What the calls below a node amount to: they are short, the place in the buffer was
        always inside it if the buffer has two places or all keys fit; and if all keys fit,
        they are the right ones. */
    ghost predicate Served(maxlength: nat, ok: bool, calls: seq<(Path, K)>)
      reads this
    {
      && (maxlength >= 2 || Fits(maxlength) ==> ok)
      && (ok ==> forall x | x in calls :: |x.0| < maxlength)
      && (Fits(maxlength) ==> Ascending(calls) && Genuine(calls))
    }

    /** Calls back for every set key. `ok` is false when it has left the buffer. The calls
        are right exactly if every set key fits. */
    method BadIterator(buffer: array<byte>) returns (ok: bool, calls: seq<(Path, K)>)
      requires Valid() && 1 <= buffer.Length < SIZE_MODULUS
      requires buffer != stringtab && buffer as object != base as object
      modifies buffer
      ensures ok && Lists(calls) <==> Fits(buffer.Length)
      ensures buffer.Length >= 2 ==> ok
    {
      hide Sound;
      AtRoot();
      assert buffer[..0] == [];
      ghost var depth := Depth(tree.Keys);
      ok, calls := BadIteratorR(buffer, 0, ROOT, [], depth);
      if Fits(buffer.Length) {
        forall k | k in words ensures (k, words[k]) in calls {
          var r := StoredAt(k);
          assert [] <= r;
        }
      }
      if ok && Lists(calls) {
        forall k | k in words ensures |k| < buffer.Length {
          assert (k, words[k]) in calls;
        }
      }
    }

    /** The paths of a finite tree have a greatest length. */
    lemma Depth(paths: set<Path>) returns (depth: nat)
      ensures forall p | p in paths :: |p| <= depth
    {
      if paths == {} {
        depth := 0;
      } else {
        var p :| p in paths;
        depth := Depth(paths - {p});
        depth := if |p| <= depth then depth else |p|;
      }
    }

    lemma StoredAt(k: Path) returns (r: Path)
      requires Valid() && k in words
      ensures r != [] && Stores(tree, r, k) && tree[r].value.value == words[k]
    {
      r :| Stores(tree, r, k);
      DenotesLookup(tree, words, r);
    }

    /** The recursion below the arc at `root`. */
    method BadIteratorR(buffer: array<byte>, bufPos: nat, root: nat, ghost p: Path, ghost depth: nat)
      returns (ok: bool, calls: seq<(Path, K)>)
      requires Valid() && 1 <= buffer.Length < SIZE_MODULUS && bufPos < SIZE_MODULUS
      requires buffer != stringtab && buffer as object != base as object
      requires p in tree && tree[p].Inner? && layout.at[p] == root && Along(buffer, bufPos, p)
      requires |p| <= depth && forall q | q in tree :: |q| <= depth
      modifies buffer
      ensures Kept(buffer, old(buffer[..]), p)
      ensures Served(buffer.Length, ok, calls)
      ensures Fits(buffer.Length) ==> (forall x | x in calls :: p < x.0) && BelowCovered(calls, p)
      decreases depth - |p|, 2
    {
      hide Sound, Fits;
      Inside(p);
      ok, calls := true, [];
      var pos: nat := bufPos;
      var start := base[root].idx;
      var limit := 255;
      if start + limit > base.Length - 1 {
        limit := base.Length - 1 - start;
      }
      for i := 1 to limit + 1
        modifies buffer
        invariant pos < SIZE_MODULUS && Along(buffer, pos, p)
        invariant Kept(buffer, old(buffer[..]), p)
        invariant ok && Served(buffer.Length, ok, calls)
        invariant Fits(buffer.Length) ==> Under(calls, p, i)
        invariant Fits(buffer.Length) ==> forall c: byte | 1 <= c < i :: Covers(calls, p + [c])
      {
        ArcSlot(p, i);
        var more := [];
        if base[start + i].mode != Unused && base[start + i].parent == root {
          ok, more, pos := VisitChild(buffer, pos, start + i, i, p, depth);
          if !ok {
            return;
          }
        } else {
          NothingBelow(p, i);
        }
        ServedJoin(buffer.Length, calls, more, p, i);
        calls := calls + more;
      }
      if Fits(buffer.Length) {
        AllBelow(calls, p, limit);
      }
    }

    /** Every set key below `p` has been called for. */
    ghost predicate BelowCovered(calls: seq<(Path, K)>, p: Path)
      reads this
    {
      forall r | r in tree && p < r && tree[r].value.Some? :: (Full(r, tree[r]), tree[r].value.value) in calls
    }

    lemma ServedJoin(maxlength: nat, calls: seq<(Path, K)>, more: seq<(Path, K)>, p: Path, i: byte)
      requires Served(maxlength, true, calls) && Served(maxlength, true, more)
      requires Fits(maxlength) ==> Under(calls, p, i) && Through(more, p, i)
      ensures Served(maxlength, true, calls + more)
      ensures Fits(maxlength) ==> Under(calls + more, p, i + 1)
    {
      if Fits(maxlength) {
        AscendingJoin(calls, more, p, i);
      }
    }

    lemma AllBelow(calls: seq<(Path, K)>, p: Path, limit: nat)
      requires Valid() && p in tree && tree[p].Inner?
      requires limit == if base[layout.at[p]].idx + 255 > base.Length - 1
                        then base.Length - 1 - base[layout.at[p]].idx else 255
      requires forall c: byte | 1 <= c <= limit :: Covers(calls, p + [c])
      ensures BelowCovered(calls, p)
    {
      forall r | r in tree && p < r && tree[r].value.Some?
        ensures (Full(r, tree[r]), tree[r].value.value) in calls
      {
        BelowChild(p, r);
        ArcSlot(p, r[|p|]);
        assert Covers(calls, p + [r[|p|]]);
      }
    }

    /** One used child: its own call, if it is set, and those below it. */
    method VisitChild(buffer: array<byte>, bufPos: nat, idx: nat, i: byte, ghost p: Path, ghost depth: nat)
      returns (ok: bool, more: seq<(Path, K)>, pos: nat)
      requires Valid() && 1 <= buffer.Length < SIZE_MODULUS && bufPos < SIZE_MODULUS
      requires buffer != stringtab && buffer as object != base as object
      requires p in tree && tree[p].Inner? && Along(buffer, bufPos, p)
      requires p + [i] in tree && layout.at[p + [i]] == idx < base.Length
      requires forall q | q in tree :: |q| <= depth
      modifies buffer
      ensures pos < SIZE_MODULUS && (ok ==> Along(buffer, pos, p)) && Kept(buffer, old(buffer[..]), p)
      ensures Served(buffer.Length, ok, more)
      ensures Fits(buffer.Length) ==> Through(more, p, i) && Covers(more, p + [i])
      decreases depth - |p|, 1
    {
      hide Sound, Served, Fits, Covers, Along, Kept;
      Inside(p + [i]);
      if base[idx].mode == Arc {
        ok, more, pos := VisitArc(buffer, bufPos, idx, i, p, depth);
      } else {
        ok, more := VisitTerm(buffer, bufPos, idx, i, p);
        pos := bufPos;
      }
    }

    method VisitArc(buffer: array<byte>, bufPos: nat, idx: nat, i: byte, ghost p: Path, ghost depth: nat)
      returns (ok: bool, more: seq<(Path, K)>, pos: nat)
      requires Valid() && 1 <= buffer.Length < SIZE_MODULUS && bufPos < SIZE_MODULUS
      requires buffer != stringtab && buffer as object != base as object
      requires p in tree && tree[p].Inner? && Along(buffer, bufPos, p)
      requires p + [i] in tree && tree[p + [i]].Inner? && layout.at[p + [i]] == idx < base.Length
      requires forall q | q in tree :: |q| <= depth
      modifies buffer
      ensures pos < SIZE_MODULUS && (ok ==> Along(buffer, pos, p)) && Kept(buffer, old(buffer[..]), p)
      ensures Served(buffer.Length, ok, more)
      ensures Fits(buffer.Length) ==> Through(more, p, i) && Covers(more, p + [i])
      decreases depth - |p|, 0
    {
      hide Sound, Served, Fits, Covers, BelowCovered;
      ghost var q := p + [i];
      ReadsValue(q);
      assert |q| <= depth;
      pos := StepInto(buffer, bufPos, i, p);
      more := [];
      if base[idx].value.Some? {
        SetFits(buffer.Length, q);
        if pos >= buffer.Length {
          NotOk(buffer.Length, false);
          return false, [], pos;
        }
        buffer[pos] := 0;
        more := [(buffer[..pos], base[idx].value.value)];
        assert Fits(buffer.Length) ==> more[0] == (q, tree[q].value.value);
      }
      var below;
      ok, below := BadIteratorR(buffer, pos, idx, q, depth);
      OwnFirst(buffer.Length, ok, more, below, p, i);
      more := more + below;
      pos := Dec(pos);
    }

    /** The byte of a child is put into the buffer, if there is room for one more. */
    method StepInto(buffer: array<byte>, bufPos: nat, i: byte, ghost p: Path) returns (pos: nat)
      requires 1 <= buffer.Length < SIZE_MODULUS && bufPos < SIZE_MODULUS && Along(buffer, bufPos, p)
      modifies buffer
      ensures pos < SIZE_MODULUS && Along(buffer, pos, p + [i]) && Kept(buffer, old(buffer[..]), p)
      ensures if |p| + 1 < buffer.Length then pos == |p| + 1 && buffer[..pos] == p + [i]
              else buffer.Length >= 2 ==> pos == buffer.Length - 1
    {
      pos := bufPos;
      if pos < buffer.Length - 1 {
        buffer[pos] := i;
        pos := pos + 1;
      }
    }

    /** The own call of a node, before those below it. */
    lemma OwnFirst(maxlength: nat, ok: bool, own: seq<(Path, K)>, below: seq<(Path, K)>, p: Path, i: byte)
      requires Valid() && p + [i] in tree && tree[p + [i]].Inner? && Served(maxlength, ok, below)
      requires own == [] <==> tree[p + [i]].value.None?
      requires own != [] ==> |own| == 1 && |own[0].0| < maxlength
      requires Fits(maxlength) && own != [] ==> own[0] == (p + [i], tree[p + [i]].value.value)
      requires Fits(maxlength) ==> (forall x | x in below :: p + [i] < x.0) && BelowCovered(below, p + [i])
      ensures Served(maxlength, ok, own + below)
      ensures Fits(maxlength) ==> Through(own + below, p, i) && Covers(own + below, p + [i])
    {
      hide Sound;
      var q := p + [i];
      ReadsValue(q);
      if Fits(maxlength) {
        if own != [] {
          assert own == [own[0]];
          AscendingOwn(own[0], below);
        } else {
          assert own + below == below;
        }
        forall x | x in own + below ensures p < x.0 && x.0[|p|] == i {
          assert x.0[..|q|] == q;
        }
        forall r | r in tree && q <= r && tree[r].value.Some?
          ensures (Full(r, tree[r]), tree[r].value.value) in own + below
        {
          if r == q {
            assert own[0] in own;
          } else {
            assert (Full(r, tree[r]), tree[r].value.value) in below;
          }
        }
      }
    }

    method VisitTerm(buffer: array<byte>, bufPos: nat, idx: nat, i: byte, ghost p: Path)
      returns (ok: bool, more: seq<(Path, K)>)
      requires Valid() && 1 <= buffer.Length < SIZE_MODULUS && bufPos < SIZE_MODULUS
      requires buffer != stringtab && buffer as object != base as object
      requires p in tree && Along(buffer, bufPos, p)
      requires p + [i] in tree && tree[p + [i]].Leaf? && layout.at[p + [i]] == idx < base.Length
      modifies buffer
      ensures Along(buffer, bufPos, p) && Kept(buffer, old(buffer[..]), p)
      ensures Served(buffer.Length, ok, more)
      ensures Fits(buffer.Length) ==> Through(more, p, i) && Covers(more, p + [i])
    {
      hide Sound, Served, Fits, Covers;
      ghost var q := p + [i];
      SuffixOf(q);
      ok, more := true, [];
      if base[idx].value.Some? {
        ghost var k := q + tree[q].suffix;
        SetFits(buffer.Length, q);
        var pos := WriteTerm(buffer, bufPos, i, base[idx].idx, p, tree[q].suffix);
        if pos >= buffer.Length {
          NotOk(buffer.Length, false);
          return false, [];
        }
        EndTerm(buffer, bufPos, pos, p);
        more := [(buffer[..pos], base[idx].value.value)];
        assert Fits(buffer.Length) ==> more[0] == (k, tree[q].value.value);
      }
      TermOnce(buffer.Length, more, p, i);
    }

    lemma SetFits(maxlength: nat, q: Path)
      requires Valid() && q in tree && tree[q].value.Some?
      ensures Fits(maxlength) ==> |Full(q, tree[q])| < maxlength
    {
      ReadsValue(q);
    }

    lemma NotOk(maxlength: nat, ok: bool)
      requires maxlength < 2 && !Fits(maxlength) && !ok
      ensures Served(maxlength, ok, [])
    {
    }

    /** The call of a terminator. */
    lemma TermOnce(maxlength: nat, more: seq<(Path, K)>, p: Path, i: byte)
      requires Valid() && p + [i] in tree && tree[p + [i]].Leaf?
      requires more == [] <==> tree[p + [i]].value.None?
      requires more != [] ==> |more| == 1 && |more[0].0| < maxlength
      requires Fits(maxlength) && more != [] ==> more[0] == (p + [i] + tree[p + [i]].suffix, tree[p + [i]].value.value)
      ensures Served(maxlength, true, more)
      ensures Fits(maxlength) ==> Through(more, p, i) && Covers(more, p + [i])
    {
      hide Sound;
      var q := p + [i];
      LeafOnly(q);
      ReadsValue(q);
      if more != [] {
        assert more == [more[0]] && more[0] in more;
      }
      if Fits(maxlength) && more != [] {
        assert more[0].0[..|q|] == q;
        forall x | x in more ensures p < x.0 && x.0[|p|] == i {
          assert x == more[0];
        }
      }
    }

    /** The byte of a terminator and its suffix are put into the buffer, as far as they fit. */
    method WriteTerm(buffer: array<byte>, bufPos: nat, i: byte, off: nat, ghost p: Path, ghost s: Path) returns (pos: nat)
      requires 1 <= buffer.Length < SIZE_MODULUS && bufPos < SIZE_MODULUS && Along(buffer, bufPos, p)
      requires buffer != stringtab && NoNul(s) && s != [] && StringAt(stringtab[..], tail, off, s)
      modifies buffer
      ensures Along(buffer, bufPos, p) && Kept(buffer, old(buffer[..]), p)
      ensures buffer.Length >= 2 ==> pos < buffer.Length
      ensures buffer.Length >= 2 ==> if |p| + 1 < buffer.Length then pos >= |p| else pos == buffer.Length - 1
      ensures |p| + 1 + |s| < buffer.Length ==> pos == |p| + 1 + |s| && buffer[..pos] == p + [i] + s
    {
      pos := StepInto(buffer, bufPos, i, p);
      ghost var mid := buffer[..];
      if pos < buffer.Length - 1 {
        pos := CopyTerm(buffer, pos, buffer.Length, off, s);
        assert forall j | 0 <= j < |p| + 1 && |p| + 1 < buffer.Length :: buffer[..pos][j] == mid[..|p| + 1][j];
      }
    }

    method EndTerm(buffer: array<byte>, bufPos: nat, pos: nat, ghost p: Path)
      requires pos < buffer.Length && Along(buffer, bufPos, p)
      requires |p| + 1 < buffer.Length ==> pos >= |p|
      modifies buffer
      ensures buffer[..pos] == old(buffer[..pos]) && buffer[pos] == 0
      ensures forall j | 0 <= j < buffer.Length && j != pos :: buffer[j] == old(buffer[j])
      ensures Along(buffer, bufPos, p)
    {
      buffer[pos] := 0;
    }

    /** Copies a suffix behind the path in the buffer, as far as it fits. */
    method CopyTerm(buffer: array<byte>, pos: nat, maxlength: nat, off: nat, ghost s: Path) returns (end: nat)
      requires buffer != stringtab && maxlength <= buffer.Length && pos < maxlength
      requires NoNul(s) && StringAt(stringtab[..], tail, off, s)
      modifies buffer
      ensures pos <= end < maxlength && (pos + |s| < maxlength ==> end == pos + |s|)
      ensures buffer[..end] == old(buffer[..pos]) + s[..end - pos]
    {
      var destlen := StringLength(off, s);
      end := pos;
      while end - pos < destlen && end < maxlength - 1
        invariant pos <= end < maxlength && end - pos <= |s|
        invariant buffer[..end] == old(buffer[..pos]) + s[..end - pos]
      {
        assert stringtab[off..off + |s|][end - pos] == s[end - pos];
        buffer[end] := stringtab[off + (end - pos)];
        end := end + 1;
      }
    }

    /** `strlen(&stringtab[off])`. */
    method StringLength(off: nat, ghost s: Path) returns (n: nat)
      requires NoNul(s) && StringAt(stringtab[..], tail, off, s)
      ensures n == |s|
    {
      ghost var t := stringtab[off..off + |s|];
      assert forall j | 0 <= j < |s| :: t[j] == s[j] && s[j] in s && stringtab[off + j] == t[j];
      n := 0;
      while stringtab[off + n] != 0
        invariant n <= |s| && (n < |s| ==> stringtab[off + n] != 0)
        decreases |s| - n
      {
        n := n + 1;
      }
    }

    lemma LeafOnly(q: Path)
      requires Valid() && q in tree && tree[q].Leaf?
      ensures forall r | r in tree && q <= r :: r == q
    {
      forall r | r in tree && q <= r ensures r == q {
        PrefixInner(tree, r, |q|);
        assert r[..|q|] == q;
      }
    }

    lemma NothingBelow(p: Path, i: byte)
      requires Valid() && p + [i] !in tree
      ensures forall r | r in tree :: !(p + [i] <= r)
    {
      forall r | r in tree ensures !(p + [i] <= r) {
        if p + [i] <= r {
          assert r[..|p| + 1] == p + [i];
          PrefixInner(tree, r, |p| + 1);
        }
      }
    }

    lemma BelowChild(p: Path, r: Path)
      requires Valid() && r in tree && p < r
      ensures r[|p|] != 0 && p + [r[|p|]] in tree && p + [r[|p|]] <= r
    {
      var q := p + [r[|p|]];
      assert r[..|p| + 1] == q;
      PrefixInner(tree, r, |p| + 1);
      assert HasParent(tree, q) && Last(q) == r[|p|];
    }

    /** The number of elements. */
    method Size() returns (n: nat)
      ensures Counted() ==> n == |Contents()| % SIZE_MODULUS
    {
      n := numElements;
    }
  }
}
