/** What becomes of a trie when key byte 1 leads an insertion onto the root: which keys are
    lost, by the condition under which that happens and by running it. */
module TrieByteOne {
  import opened Wrappers
  import opened TrieTree
  import opened TrieArray
  import opened TrieLookup
  import opened TrieFouled
  import opened KTrieModule

  /** What a fouled trie still answers: for every key of the map exactly if nothing was left
      of the new key or its suffix lies where the root's children lie; for the map and for
      nothing else exactly in the second case. */
  lemma AfterFouling<K>(t: KTrie<K>, last: Path, rest: Path, off: nat, q: nat, v: K)
    requires t.FouledBy(last, rest, off, q, v)
    ensures Readable(t.base[..], t.stringtab[..])
    ensures var m := t.words[Key(last, rest) := v];
            && [] !in m
            && ((forall k | k in m :: t.Lookup(k) == Some(m[k])) <==> rest == [] || off == q)
            && ((forall k | NoNul(k) && k != [] :: t.Lookup(k) == Get(m, k)) <==> rest != [] && off == q)
  {
    hide Sound, Overwritten, Found;
    var b := t.base[..][ROOT := Node(q, ROOT, None, Arc)];
    IsSound(b, t.stringtab[..], t.tail, t.layout, t.tree, t.words, last, rest, off, v, t.base[..]);
    SoundTree(b, t.stringtab[..], t.tail, t.layout, t.tree, t.words);
    StillReadable(b, t.stringtab[..], t.tail, t.layout, t.tree, t.words, last, rest, off, v, t.base[..]);
    KeptExactly(b, t.stringtab[..], t.tail, t.layout, t.tree, t.words, last, rest, off, v, t.base[..]);
    AnswersExactly(b, t.stringtab[..], t.tail, t.layout, t.tree, t.words, last, rest, off, v, t.base[..]);
    var m := t.words[Key(last, rest) := v];
    assert forall k | k != [] :: t.Lookup(k) == Found(t.base[..], t.stringtab[..], k);
  }

  /** The insertion of a key that fouls the root at its byte `n` keeps all keys exactly if
      that byte is its last, or the string table happens to end at the first base that has
      room for the root's children. */
  method InsertOverRoot<K>(t: KTrie<K>, key: Path, v: K, ghost n: nat)
    requires t.Valid() && NoNul(key) && n < |key| && t.FoulsAt(key, n)
    modifies t, t.base, t.stringtab
    ensures Readable(t.base[..], t.stringtab[..]) && !t.Valid()
    ensures var m := old(t.words)[key := v];
            && ((forall k | k in m :: t.Lookup(k) == Some(m[k])) <==>
                n + 1 == |key| || old(t.tail) == FirstRoom(old(t.base[..]), Arcs(old(t.tree), []), 1))
  {
    hide Sound, Overwritten, FirstRoom;
    var _ := t.Insert(key, v);
    AfterFouling(t, key[..n], key[n + 1..], old(t.tail), FirstRoom(old(t.base[..]), Arcs(old(t.tree), []), 1), v);
    assert Key(key[..n], key[n + 1..]) == key;
  }

  /** A trie that holds the key "A", 65, only; the next key that begins with "A\1" is led
      onto the root. */
  method OnlyA<K>(v: K) returns (t: KTrie<K>)
    ensures t.Valid() && fresh(t) && fresh(t.base) && fresh(t.stringtab)
    ensures t.words == map[[65] := v] && t.tail == 0
    ensures forall rest | NoNul(rest) :: t.FoulsAt([65, 1] + rest, 1)
  {
    hide Sound;
    t := new KTrie<K>();
    var a: Path := [65];
    t.AtRoot();
    assert Up(a) == [] && Last(a) == 65;
    NothingElse(t);
    var ok := t.Insert(a, v);
    assert t.words == map[[65] := v];
    ArcsOfA(t.tree, v);
    forall rest | NoNul(rest) ensures t.FoulsAt([65, 1] + rest, 1) {
      assert ([65, 1] + rest)[..1] == a;
    }
  }

  lemma NothingElse<K>(t: KTrie<K>)
    requires t.Valid() && t.tree == map[[] := Inner(None)]
    ensures forall i | 0 <= i < t.base.Length && i != ROOT :: t.base[i].mode == Unused
    ensures ROOT < t.base.Length && 1 <= t.base[ROOT].idx
  {
    forall i | 0 <= i < t.base.Length && i != ROOT ensures t.base[i].mode == Unused {
      UsedSlot(t.base[..], t.layout, t.tree, Still, i);
    }
  }

  lemma ArcsOfA<K>(tree: Tree<K>, v: K)
    requires tree == map[[] := Inner(None), [65] := Inner(Some(v))]
    ensures |Arcs(tree, [])| == 1 && |Arcs(tree, [65])| == 0
  {
    assert [] + [65] == [65];
    assert forall c: byte :: ([] + [c])[0] == c;
    assert Arcs(tree, []) == {65};
    assert Arcs(tree, [65]) == {};
  }

  /** "A\1X" after "A": "A" is not found any more. */
  method LosesA<K>(v: K, w: K) returns (before: Option<K>, after: Option<K>)
    ensures before == Some(v) && after == None
  {
    hide Sound, Overwritten, FirstRoom;
    var t := OnlyA(v);
    before := t.Retrieve([65]);
    var key: Path := [65, 1] + [88];
    assert t.FoulsAt(key, 1);
    ghost var q := FirstRoom(t.base[..], Arcs(t.tree, []), 1);
    var _ := t.Insert(key, w);
    AfterFouling(t, key[..1], key[2..], 0, q, w);
    after := t.Retrieve([65]);
    ShiftedAway(t, key[..1], key[2..], q, w, v);
  }

  /** "A\1" after "A": both are found, and so is "A\1A", which nobody has inserted. */
  method FindsMore<K>(v: K, w: K) returns (a: Option<K>, b: Option<K>, more: Option<K>)
    ensures a == Some(v) && b == Some(w) && more == Some(v)
  {
    hide Sound, Overwritten, FirstRoom, Readable;
    var t := OnlyA(v);
    assert [65, 1] + [] == [65, 1];
    ghost var q := FirstRoom(t.base[..], Arcs(t.tree, []), 1);
    var _ := t.Insert([65, 1], w);
    assert [65, 1][..1] == [65] && [65, 1][2..] == [];
    AfterFouling(t, [65], [], 0, q, w);
    FoundRound(t, q, v, w);
    a := t.Retrieve([65]);
    b := t.Retrieve([65, 1]);
    more := t.Retrieve([65, 1, 65]);
  }

  lemma FoundRound<K>(t: KTrie<K>, q: nat, v: K, w: K)
    requires t.FouledBy([65], [], 0, q, w) && t.words == map[[65] := v]
    ensures t.Lookup([65]) == Some(v) && t.Lookup([65, 1]) == Some(w) && t.Lookup([65, 1, 65]) == Some(v)
  {
    hide Sound, Overwritten, Found;
    assert Key([65], []) == [65, 1] && [65, 1] + [65] == [65, 1, 65];
    AfterFouling(t, [65], [], 0, q, w);
    Around(t, [65], q, w, [65]);
    var m := t.words[[65, 1] := w];
    assert [65] in m && [65, 1] in m && m[[65]] == v && m[[65, 1]] == w;
  }

  /** The suffix lies at 0 and the root's base was not 0, so "A" is looked up under another
      first byte. */
  lemma ShiftedAway<K>(t: KTrie<K>, last: Path, rest: Path, q: nat, w: K, v: K)
    requires t.FouledBy(last, rest, 0, q, w) && rest != [] && q >= 1
    requires last == [65] && t.words == map[[65] := v]
    ensures t.Lookup([65]) == None
  {
    hide Sound;
    var b := t.base[..][ROOT := Node(q, ROOT, None, Arc)];
    ReadShifted(b, t.stringtab[..], t.tail, t.layout, t.tree, t.words, last, rest, 0, w, t.base[..], [65]);
    var d: int := 0 - q;
    match Shifted([65], d)
    case None =>
    case Some(k) => assert |k| == 1 && k[0] != 65;
  }

  lemma Around<K>(t: KTrie<K>, last: Path, q: nat, w: K, k: Path)
    requires t.FouledBy(last, [], 0, q, w) && k in t.words && NoNul(k) && k != []
    ensures ROOT < t.base.Length
    ensures t.Lookup(Key(last, []) + k) == Some(t.words[Key(last, []) := w][k])
  {
    hide Sound, Overwritten, Unwound;
    var b, key := t.base[..][ROOT := Node(q, ROOT, None, Arc)], Key(last, []);
    IsSound(b, t.stringtab[..], t.tail, t.layout, t.tree, t.words, last, [], 0, w, t.base[..]);
    SoundTree(b, t.stringtab[..], t.tail, t.layout, t.tree, t.words);
    assert [] + (key + k) == key + k;
    BelowArc(b, t.stringtab[..], t.tail, t.layout, t.tree, t.words, last, 0, w, t.base[..], [], key + k);
    UnwindsOnce(k, key);
    if key <= k {
      KeysStopShort(t.tree, t.words, last, k);
    } else {
      Unwinds(k, key);
    }
  }
}
