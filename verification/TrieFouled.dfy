/** What an insertion leaves behind when it has written its node over the root: which
    keys are still found, and which are found that were never inserted. */
module TrieFouled {
  import opened Wrappers
  import opened TrieTree
  import opened TrieArray
  import opened TrieLookup

  /** The node of the key `last + [1] + rest` has been written over the root of a sound
      trie: an arc when nothing is left of the key, else a terminator on the suffix at
      `off`. The trie `b` is sound for `words`; `b'` is what is left of it. */
  ghost predicate Overwritten<K>(b: seq<Node<K>>, tab: seq<byte>, tail: nat, l: Layout, tree: Tree<K>, words: map<Path, K>,
                                 last: Path, rest: Path, off: nat, v: K, b': seq<Node<K>>)
  {
    && Sound(b, tab, tail, l, tree, words) && NoNul(rest)
    && last != [] && last in tree && tree[last].Inner? && last + [1] !in tree
    && last in l.at && l.at[last] < |b| && b[l.at[last]].idx == 0
    && (rest != [] ==> StringAt(tab, tail, off, rest))
    && ROOT < |b|
    && b' == b[ROOT := Node(if rest == [] then b[ROOT].idx else off, l.at[last], Some(v), if rest == [] then Arc else Term)]
  }

  /** The root does not point back at itself any more, so there is no tree that the arrays
      are a sound form of. */
  lemma NeverSound<K>(b: seq<Node<K>>, tab: seq<byte>, tail: nat, l: Layout, tree: Tree<K>, words: map<Path, K>,
                      last: Path, rest: Path, off: nat, v: K, b': seq<Node<K>>,
                      tab': seq<byte>, tail': nat, l': Layout, tree': Tree<K>, words': map<Path, K>)
    requires Overwritten(b, tab, tail, l, tree, words, last, rest, off, v, b')
    ensures !Sound(b', tab', tail', l', tree', words')
  {
    assert l.lab[l.at[last]] == last && l.lab[l.at[[]]] == [];
  }

  lemma StillReadable<K>(b: seq<Node<K>>, tab: seq<byte>, tail: nat, l: Layout, tree: Tree<K>, words: map<Path, K>,
                         last: Path, rest: Path, off: nat, v: K, b': seq<Node<K>>)
    requires Overwritten(b, tab, tail, l, tree, words, last, rest, off, v, b')
    ensures Readable(b', tab)
  {
    hide Sound;
    SoundReadable(b, tab, tail, l, tree, words);
    if rest != [] {
      SameIs(tab, tail, off, rest, []);
    }
    forall i | 0 <= i < |b'| && b'[i].mode == Term ensures Terminated(tab, b'[i].idx) {
      assert i != ROOT ==> b[i].mode == Term;
    }
  }

  /** The step of a walk that stands at the node of `p`, which is not the root: as before,
      but byte 1 leads from `last` to the root's slot. */
  lemma StepsOn<K>(b: seq<Node<K>>, tab: seq<byte>, tail: nat, l: Layout, tree: Tree<K>, words: map<Path, K>,
                   last: Path, rest: Path, off: nat, v: K, b': seq<Node<K>>, p: Path, c: byte)
    requires Overwritten(b, tab, tail, l, tree, words, last, rest, off, v, b')
    requires p in tree && tree[p].Inner? && p != [] && c != 0
    ensures p in l.at && l.at[p] < |b| && l.at[p] != ROOT
    ensures var i := b'[l.at[p]].idx + c;
            && (p == last && c == 1 <==> i == ROOT && b'[i].parent == l.at[p])
            && (i != ROOT ==> i == b[l.at[p]].idx + c && (i < |b| ==> b'[i] == b[i]))
            && (i == ROOT ==> p + [c] !in tree)
  {
    assert l.lab[l.at[p]] == p && l.lab[l.at[last]] == last && l.lab[l.at[[]]] == [];
    Steps(b, tab, tail, l, tree, words, p, c);
  }

  /** The key that has been inserted. */
  function Key(last: Path, rest: Path): Path {
    last + [1] + rest
  }

  /** A path that leads out of the tree elsewhere than at `last`, or into a terminator, is
      not on the way to the new key. */
  lemma Elsewhere<K>(tree: Tree<K>, words: map<Path, K>, last: Path, rest: Path, p: Path, s: Path)
    requires TreeOk(tree) && last in tree && tree[last].Inner? && last + [1] !in tree
    requires p in tree && tree[p].Inner? && s != []
    requires if p + [s[0]] in tree then tree[p + [s[0]]].Leaf? else !(p == last && s[0] == 1)
    ensures p + s != Key(last, rest)
  {
    var key, q := Key(last, rest), p + [s[0]];
    if p + s == key {
      assert key[..|last|] == last && key[..|p|] == p && key[..|p| + 1] == q && key[..|last| + 1] == last + [1];
      if |p| < |last| {
        assert q == last[..|p| + 1];
        PrefixInner(tree, last, |p| + 1);
      } else if q in tree {
        assert q[..|last| + 1] == last + [1];
        PrefixInner(tree, q, |last| + 1);
      } else if |p| > |last| {
        assert p[..|last| + 1] == last + [1];
        PrefixInner(tree, p, |last| + 1);
      }
    }
  }

  // ------------------------------------------------------- a terminator as the root

  /** From a node that is not the root, what is found is what the map with the new key
      says. */
  lemma {:induction false} BelowTerm<K>(b: seq<Node<K>>, tab: seq<byte>, tail: nat, l: Layout, tree: Tree<K>, words: map<Path, K>,
                                        last: Path, rest: Path, off: nat, v: K, b': seq<Node<K>>, p: Path, s: Path)
    requires Overwritten(b, tab, tail, l, tree, words, last, rest, off, v, b') && rest != []
    requires p in tree && tree[p].Inner? && p != [] && NoNul(s)
    ensures p in l.at && l.at[p] < |b'|
    ensures ValueAt(b', tab, l.at[p], s) == Get(words[Key(last, rest) := v], p + s)
    decreases |s|
  {
    hide Sound, Overwritten;
    if s != [] && p + [s[0]] in tree && tree[p + [s[0]]].Inner? {
      var q := p + [s[0]];
      assert q + s[1..] == p + s && s[0] in s && forall x | x in s[1..] :: x in s;
      StepIn(b, tab, tail, l, tree, words, last, rest, off, v, b', p, s);
      BelowTerm(b, tab, tail, l, tree, words, last, rest, off, v, b', q, s[1..]);
    } else if s != [] && p == last && s[0] == 1 {
      ToNewKey(b, tab, tail, l, tree, words, last, rest, off, v, b', s);
    } else {
      TermEnds(b, tab, tail, l, tree, words, last, rest, off, v, b', p, s);
    }
  }

  /** The walk stays in the tree. */
  lemma StepIn<K>(b: seq<Node<K>>, tab: seq<byte>, tail: nat, l: Layout, tree: Tree<K>, words: map<Path, K>,
                  last: Path, rest: Path, off: nat, v: K, b': seq<Node<K>>, p: Path, s: Path)
    requires Overwritten(b, tab, tail, l, tree, words, last, rest, off, v, b')
    requires p in tree && tree[p].Inner? && p != [] && s != [] && NoNul(s)
    requires p + [s[0]] in tree && tree[p + [s[0]]].Inner?
    ensures p in l.at && l.at[p] < |b'| && p + [s[0]] in l.at && l.at[p + [s[0]]] < |b'|
    ensures ValueAt(b', tab, l.at[p], s) == ValueAt(b', tab, l.at[p + [s[0]]], s[1..])
  {
    hide Sound;
    assert s[0] in s;
    StepsOn(b, tab, tail, l, tree, words, last, rest, off, v, b', p, s[0]);
    Steps(b, tab, tail, l, tree, words, p, s[0]);
    assert Find(b', tab, l.at[p], s) == Find(b', tab, l.at[p + [s[0]]], s[1..]);
  }

  /** The walk comes to the root's slot, where the new key is. */
  lemma ToNewKey<K>(b: seq<Node<K>>, tab: seq<byte>, tail: nat, l: Layout, tree: Tree<K>, words: map<Path, K>,
                    last: Path, rest: Path, off: nat, v: K, b': seq<Node<K>>, s: Path)
    requires Overwritten(b, tab, tail, l, tree, words, last, rest, off, v, b') && rest != []
    requires s != [] && NoNul(s) && s[0] == 1
    ensures last in l.at && l.at[last] < |b'|
    ensures ValueAt(b', tab, l.at[last], s) == Get(words[Key(last, rest) := v], last + s)
  {
    hide Sound, Overwritten, Key;
    IsSound(b, tab, tail, l, tree, words, last, rest, off, v, b');
    SoundTree(b, tab, tail, l, tree, words);
    RootStep(b, tab, tail, l, tree, words, last, rest, off, v, b', s);
    LeftTree(tree, last, s);
    DenotesMissing(tree, words, last + s);
    KeyBehind(last, rest, s);
  }

  lemma KeyBehind(last: Path, rest: Path, s: Path)
    requires s != [] && s[0] == 1
    ensures last + s == Key(last, rest) <==> s[1..] == rest
  {
    assert s == [1] + s[1..];
    assert Key(last, rest)[|last| + 1..] == rest && (last + s)[|last| + 1..] == s[1..];
  }

  lemma RootStep<K>(b: seq<Node<K>>, tab: seq<byte>, tail: nat, l: Layout, tree: Tree<K>, words: map<Path, K>,
                    last: Path, rest: Path, off: nat, v: K, b': seq<Node<K>>, s: Path)
    requires Overwritten(b, tab, tail, l, tree, words, last, rest, off, v, b') && rest != []
    requires s != [] && NoNul(s) && s[0] == 1
    ensures last in l.at && l.at[last] < |b'|
    ensures ValueAt(b', tab, l.at[last], s) == if s[1..] == rest then Some(v) else None
  {
    hide Sound;
    assert forall x | x in s[1..] :: x in s;
    StepsOn(b, tab, tail, l, tree, words, last, rest, off, v, b', last, 1);
    SameIs(tab, tail, off, rest, s[1..]);
  }

  /** The walk ends, or leaves the tree. */
  lemma TermEnds<K>(b: seq<Node<K>>, tab: seq<byte>, tail: nat, l: Layout, tree: Tree<K>, words: map<Path, K>,
                    last: Path, rest: Path, off: nat, v: K, b': seq<Node<K>>, p: Path, s: Path)
    requires Overwritten(b, tab, tail, l, tree, words, last, rest, off, v, b') && rest != []
    requires p in tree && tree[p].Inner? && p != [] && NoNul(s)
    requires s == [] || !((p + [s[0]] in tree && tree[p + [s[0]]].Inner?) || (p == last && s[0] == 1))
    ensures p in l.at && l.at[p] < |b'|
    ensures ValueAt(b', tab, l.at[p], s) == Get(words[Key(last, rest) := v], p + s)
  {
    hide Sound;
    SoundTree(b, tab, tail, l, tree, words);
    FindSound(b, tab, tail, l, tree, words, p, s);
    if s == [] {
      NotNew(tree, last, rest, p);
      StepsOn(b, tab, tail, l, tree, words, last, rest, off, v, b', p, 2);
      assert p + s == p;
    } else {
      assert s[0] in s;
      StepsOn(b, tab, tail, l, tree, words, last, rest, off, v, b', p, s[0]);
      Steps(b, tab, tail, l, tree, words, p, s[0]);
      Elsewhere(tree, words, last, rest, p, s);
    }
  }

  /** No node stands for a path with the new key in it. */
  lemma NotNew<K>(tree: Tree<K>, last: Path, rest: Path, p: Path)
    requires TreeOk(tree) && last + [1] !in tree && p in tree
    ensures p != Key(last, rest)
  {
    if p == Key(last, rest) {
      assert p[..|last| + 1] == last + [1];
      PrefixInner(tree, p, |last| + 1);
    }
  }

  /** A key with its first byte raised by `d`. */
  function Shifted(s: Path, d: int): Option<Path> {
    if s != [] && 1 <= s[0] + d < 256 then Some([s[0] + d] + s[1..]) else None
  }

  /** The first step from a root that is a terminator. */
  lemma FirstStep<K>(b: seq<Node<K>>, tab: seq<byte>, tail: nat, l: Layout, tree: Tree<K>, words: map<Path, K>,
                     last: Path, rest: Path, off: nat, v: K, b': seq<Node<K>>, c: nat, c': byte)
    requires Overwritten(b, tab, tail, l, tree, words, last, rest, off, v, b') && rest != []
    requires off + c == b[ROOT].idx + c' && c' != 0 && c != 0
    ensures var i, q := off + c, [c'];
            && b'[ROOT].idx == off
            && (q in tree <==> i < |b'| && b'[i].mode != Unused && b'[i].parent == ROOT)
            && (q in tree ==> i != ROOT && i in l.lab && q in l.at && l.at[q] == i && b'[i] == b[i])
  {
    hide Sound;
    SoundTree(b, tab, tail, l, tree, words);
    RootIsLeft(b, tab, tail, l, tree, words, last, rest, off, v, b');
    Steps(b, tab, tail, l, tree, words, [], c');
    assert [] + [c'] == [c'];
  }

  /** The root reads its children by the offset of a suffix: every key is looked up with
      its first byte shifted by the difference to the base that the root had. */
  lemma ReadShifted<K>(b: seq<Node<K>>, tab: seq<byte>, tail: nat, l: Layout, tree: Tree<K>, words: map<Path, K>,
                       last: Path, rest: Path, off: nat, v: K, b': seq<Node<K>>, s: Path)
    requires Overwritten(b, tab, tail, l, tree, words, last, rest, off, v, b') && rest != []
    requires s != [] && NoNul(s)
    ensures ValueAt(b', tab, ROOT, s) ==
            match Shifted(s, off - b[ROOT].idx)
            case None => None
            case Some(k) => Get(words[Key(last, rest) := v], k)
  {
    hide Sound;
    SoundTree(b, tab, tail, l, tree, words);
    assert s[0] in s;
    match Shifted(s, off - b[ROOT].idx) {
      case None => NoFirstStep(b, tab, tail, l, tree, words, last, rest, off, v, b', off + s[0]);
      case Some(k) =>
        assert k == [k[0]] + k[1..] && k[1..] == s[1..] && forall x | x in s[1..] :: x in s;
        FirstStep(b, tab, tail, l, tree, words, last, rest, off, v, b', s[0], k[0]);
        ReadOn(b, tab, tail, l, tree, words, last, rest, off, v, b', s, k);
    }
  }

  /** The rest of the walk. */
  lemma ReadOn<K>(b: seq<Node<K>>, tab: seq<byte>, tail: nat, l: Layout, tree: Tree<K>, words: map<Path, K>,
                  last: Path, rest: Path, off: nat, v: K, b': seq<Node<K>>, s: Path, k: Path)
    requires Overwritten(b, tab, tail, l, tree, words, last, rest, off, v, b') && rest != []
    requires s != [] && NoNul(s) && k != [] && NoNul(k) && k[1..] == s[1..]
    requires var i, q := off + s[0], [k[0]];
            && b'[ROOT].idx == off && b[ROOT].idx + k[0] == i
            && (q in tree <==> i < |b'| && b'[i].mode != Unused && b'[i].parent == ROOT)
            && (q in tree ==> i != ROOT && i in l.lab && q in l.at && l.at[q] == i && b'[i] == b[i])
    ensures ValueAt(b', tab, ROOT, s) == Get(words[Key(last, rest) := v], k)
  {
    hide Sound;
    SoundTree(b, tab, tail, l, tree, words);
    var q := [k[0]];
    assert [] + q == q && [] + k == k && q + k[1..] == k && k[0] in k;
    FindSound(b, tab, tail, l, tree, words, [], k);
    Steps(b, tab, tail, l, tree, words, [], k[0]);
    if q in tree && tree[q].Inner? {
      BelowTerm(b, tab, tail, l, tree, words, last, rest, off, v, b', q, k[1..]);
    } else {
      Elsewhere(tree, words, last, rest, [], k);
    }
  }

  /** A byte that would be shifted out of its range leads nowhere. */
  lemma NoFirstStep<K>(b: seq<Node<K>>, tab: seq<byte>, tail: nat, l: Layout, tree: Tree<K>, words: map<Path, K>,
                       last: Path, rest: Path, off: nat, v: K, b': seq<Node<K>>, i: nat)
    requires Overwritten(b, tab, tail, l, tree, words, last, rest, off, v, b')
    requires !(1 <= i - b[ROOT].idx < 256)
    ensures i < |b'| ==> b'[i].mode == Unused || b'[i].parent != ROOT
  {
    hide Sound;
    RootIsLeft(b, tab, tail, l, tree, words, last, rest, off, v, b');
    if i < |b| && i != ROOT && b[i].mode != Unused && b[i].parent == ROOT {
      OnlyChildren(b, tab, tail, l, tree, words, i);
    }
  }

  lemma RootIsLeft<K>(b: seq<Node<K>>, tab: seq<byte>, tail: nat, l: Layout, tree: Tree<K>, words: map<Path, K>,
                      last: Path, rest: Path, off: nat, v: K, b': seq<Node<K>>)
    requires Overwritten(b, tab, tail, l, tree, words, last, rest, off, v, b')
    ensures l.at[last] != ROOT && [] in l.at && l.at[[]] == ROOT
  {
    assert l.lab[l.at[last]] == last && l.lab[l.at[[]]] == [];
  }

  /** Whatever else points back at the root is a child of it. */
  lemma OnlyChildren<K>(b: seq<Node<K>>, tab: seq<byte>, tail: nat, l: Layout, tree: Tree<K>, words: map<Path, K>, i: nat)
    requires Sound(b, tab, tail, l, tree, words)
    requires i < |b| && i != ROOT && b[i].mode != Unused && b[i].parent == ROOT
    ensures 1 <= i - b[ROOT].idx < 256
  {
    UsedSlot(b, l, tree, Still, i);
    ChildOf(b, l, tree, Still, [], i);
    assert HasParent(tree, l.lab[i]);
  }

  // --------------------------------------------------------------- an arc as the root

  /** A key that has come past the new one starts again behind it. */
  function Unwound(k: Path, key: Path): Path
    requires key != []
    decreases |k|
  {
    if key < k then Unwound(k[|key|..], key) else k
  }

  lemma {:induction false} BelowArc<K>(b: seq<Node<K>>, tab: seq<byte>, tail: nat, l: Layout, tree: Tree<K>, words: map<Path, K>,
                                       last: Path, off: nat, v: K, b': seq<Node<K>>, p: Path, s: Path)
    requires Overwritten(b, tab, tail, l, tree, words, last, [], off, v, b')
    requires p in tree && tree[p].Inner? && p + s != [] && NoNul(s)
    ensures p in l.at && l.at[p] < |b'|
    ensures ValueAt(b', tab, l.at[p], s) == Get(words[Key(last, []) := v], Unwound(p + s, Key(last, [])))
    decreases |s|
  {
    hide Sound, Unwound, Overwritten;
    if s == [] || !((p + [s[0]] in tree && tree[p + [s[0]]].Inner?) || (p == last && s[0] == 1)) {
      ArcEnds(b, tab, tail, l, tree, words, last, off, v, b', p, s);
    } else {
      IsSound(b, tab, tail, l, tree, words, last, [], off, v, b');
      SoundTree(b, tab, tail, l, tree, words);
      var q := p + [s[0]];
      assert q + s[1..] == p + s && s == [s[0]] + s[1..] && forall x | x in s[1..] :: x in s;
      if p == last && s[0] == 1 {
        StepRound(b, tab, tail, l, tree, words, last, off, v, b', s);
        assert p + s == Key(last, []) + s[1..];
        UnwindsOnce(s[1..], Key(last, []));
        if s[1..] != [] {
          assert [] + s[1..] == s[1..];
          BelowArc(b, tab, tail, l, tree, words, last, off, v, b', [], s[1..]);
        }
      } else {
        StepDown(b, tab, tail, l, tree, words, last, off, v, b', p, s);
        BelowArc(b, tab, tail, l, tree, words, last, off, v, b', q, s[1..]);
      }
    }
  }

  lemma IsSound<K>(b: seq<Node<K>>, tab: seq<byte>, tail: nat, l: Layout, tree: Tree<K>, words: map<Path, K>,
                   last: Path, rest: Path, off: nat, v: K, b': seq<Node<K>>)
    requires Overwritten(b, tab, tail, l, tree, words, last, rest, off, v, b')
    ensures Sound(b, tab, tail, l, tree, words) && |b'| == |b| && ROOT < |b|
    ensures last in tree && tree[last].Inner? && last + [1] !in tree && last in l.at && l.at[last] < |b|
    ensures NoNul(Key(last, rest)) && forall k | k in words :: NoNul(k)
  {
    PathNoNul(tree, last);
    forall k | k in words ensures NoNul(k) {
      var p :| Stores(tree, p, k);
      PathNoNul(tree, p);
      assert EntryOk(tree[p]);
    }
  }

  lemma {:induction false} PathNoNul<K>(tree: Tree<K>, p: Path)
    requires TreeOk(tree) && p in tree
    ensures NoNul(p)
    decreases |p|
  {
    if p != [] {
      assert HasParent(tree, p);
      PathNoNul(tree, Up(p));
      assert p == Up(p) + [Last(p)];
    }
  }

  /** The walk ends, or leaves the tree. */
  lemma ArcEnds<K>(b: seq<Node<K>>, tab: seq<byte>, tail: nat, l: Layout, tree: Tree<K>, words: map<Path, K>,
                   last: Path, off: nat, v: K, b': seq<Node<K>>, p: Path, s: Path)
    requires Overwritten(b, tab, tail, l, tree, words, last, [], off, v, b')
    requires p in tree && tree[p].Inner? && p + s != [] && NoNul(s)
    requires s == [] || !((p + [s[0]] in tree && tree[p + [s[0]]].Inner?) || (p == last && s[0] == 1))
    ensures p in l.at && l.at[p] < |b'|
    ensures ValueAt(b', tab, l.at[p], s) == Get(words[Key(last, []) := v], Unwound(p + s, Key(last, [])))
  {
    hide Sound, Unwound, Overwritten;
    IsSound(b, tab, tail, l, tree, words, last, [], off, v, b');
    SoundTree(b, tab, tail, l, tree, words);
    FindSound(b, tab, tail, l, tree, words, p, s);
    NotPast(tree, last, p, s);
    Unwinds(p + s, Key(last, []));
    ArcSame(b, tab, tail, l, tree, words, last, off, v, b', p, s);
    assert p + s != Key(last, []);
  }

  /** So it finds what it would have found in the sound trie. */
  lemma ArcSame<K>(b: seq<Node<K>>, tab: seq<byte>, tail: nat, l: Layout, tree: Tree<K>, words: map<Path, K>,
                   last: Path, off: nat, v: K, b': seq<Node<K>>, p: Path, s: Path)
    requires Overwritten(b, tab, tail, l, tree, words, last, [], off, v, b')
    requires p in tree && tree[p].Inner? && p + s != [] && NoNul(s)
    requires s == [] || !((p + [s[0]] in tree && tree[p + [s[0]]].Inner?) || (p == last && s[0] == 1))
    ensures p in l.at && l.at[p] < |b'| && ValueAt(b', tab, l.at[p], s) == ValueAt(b, tab, l.at[p], s)
  {
    hide Sound;
    SoundTree(b, tab, tail, l, tree, words);
    RootIsLeft(b, tab, tail, l, tree, words, last, [], off, v, b');
    if s == [] {
      StepsOn(b, tab, tail, l, tree, words, last, [], off, v, b', p, 2);
    } else {
      assert s[0] in s;
      if p != [] {
        StepsOn(b, tab, tail, l, tree, words, last, [], off, v, b', p, s[0]);
      }
      Steps(b, tab, tail, l, tree, words, p, s[0]);
    }
  }

  /** The walk stays in the tree. */
  lemma StepDown<K>(b: seq<Node<K>>, tab: seq<byte>, tail: nat, l: Layout, tree: Tree<K>, words: map<Path, K>,
                    last: Path, off: nat, v: K, b': seq<Node<K>>, p: Path, s: Path)
    requires Overwritten(b, tab, tail, l, tree, words, last, [], off, v, b')
    requires p in tree && tree[p].Inner? && s != [] && NoNul(s)
    requires p + [s[0]] in tree && tree[p + [s[0]]].Inner?
    ensures p in l.at && l.at[p] < |b'| && p + [s[0]] in l.at && l.at[p + [s[0]]] < |b'|
    ensures ValueAt(b', tab, l.at[p], s) == ValueAt(b', tab, l.at[p + [s[0]]], s[1..])
  {
    hide Sound;
    RootIsLeft(b, tab, tail, l, tree, words, last, [], off, v, b');
    assert s[0] in s;
    if p != [] {
      StepsOn(b, tab, tail, l, tree, words, last, [], off, v, b', p, s[0]);
    }
    Steps(b, tab, tail, l, tree, words, p, s[0]);
    assert Find(b', tab, l.at[p], s) == Find(b', tab, l.at[p + [s[0]]], s[1..]);
  }

  /** From `last`, byte 1 leads back to the root. */
  lemma StepRound<K>(b: seq<Node<K>>, tab: seq<byte>, tail: nat, l: Layout, tree: Tree<K>, words: map<Path, K>,
                     last: Path, off: nat, v: K, b': seq<Node<K>>, s: Path)
    requires Overwritten(b, tab, tail, l, tree, words, last, [], off, v, b') && s != [] && s[0] == 1
    ensures ValueAt(b', tab, l.at[last], s) == if s[1..] == [] then Some(v) else ValueAt(b', tab, ROOT, s[1..])
  {
    hide Sound;
    RootIsLeft(b, tab, tail, l, tree, words, last, [], off, v, b');
    assert Find(b', tab, l.at[last], s) == Find(b', tab, ROOT, s[1..]);
  }

  lemma Unwinds(k: Path, key: Path)
    requires key != [] && !(key <= k)
    ensures Unwound(k, key) == k
  {
  }

  lemma UnwindsOnce(s: Path, key: Path)
    requires key != []
    ensures Unwound(key + s, key) == if s == [] then key else Unwound(s, key)
  {
    assert s == [] ==> key + s == key;
    assert (key + s)[|key|..] == s && (key + s)[..|key|] == key;
  }

  /** A walk that leaves the tree elsewhere does not come past the new key. */
  lemma NotPast<K>(tree: Tree<K>, last: Path, p: Path, s: Path)
    requires TreeOk(tree) && last in tree && tree[last].Inner? && last + [1] !in tree
    requires p in tree && tree[p].Inner?
    requires s != [] ==> if p + [s[0]] in tree then tree[p + [s[0]]].Leaf? else !(p == last && s[0] == 1)
    ensures !(Key(last, []) <= p + s)
  {
    var key, k := Key(last, []), p + s;
    if key <= k {
      var rest := k[|key|..];
      assert k == Key(last, rest) && key == last + [1];
      if s == [] {
        NotNew(tree, last, rest, p);
      } else {
        Elsewhere(tree, map[], last, rest, p, s);
      }
    }
  }

  // ------------------------------------------------------------ what is left of the map

  /** What a lookup of a key finds. */
  function Found<K>(b: seq<Node<K>>, tab: seq<byte>, k: Path): Option<K>
    requires ROOT < |b|
  {
    ValueAt(b, tab, ROOT, k)
  }

  /** Every key that was there is found with its value, and so is the new one, exactly when
      nothing was left of the new key, or its suffix happens to lie where the root's base
      was. */
  lemma KeptExactly<K>(b: seq<Node<K>>, tab: seq<byte>, tail: nat, l: Layout, tree: Tree<K>, words: map<Path, K>,
                       last: Path, rest: Path, off: nat, v: K, b': seq<Node<K>>)
    requires Overwritten(b, tab, tail, l, tree, words, last, rest, off, v, b')
    ensures var m := words[Key(last, rest) := v];
            (forall k | k in m :: Found(b', tab, k) == Some(m[k])) <==> rest == [] || off == b[ROOT].idx
  {
    hide Sound, Overwritten;
    IsSound(b, tab, tail, l, tree, words, last, rest, off, v, b');
    SoundTree(b, tab, tail, l, tree, words);
    var key := Key(last, rest);
    var m := words[key := v];
    if rest == [] || off == b[ROOT].idx {
      forall k | k in m ensures Found(b', tab, k) == Some(m[k]) {
        FoundOne(b, tab, tail, l, tree, words, last, rest, off, v, b', k);
      }
    } else {
      var d := off - b[ROOT].idx;
      assert key in m.Keys;
      var k := Extreme(m.Keys, d);
      ReadShifted(b, tab, tail, l, tree, words, last, rest, off, v, b', k);
    }
  }

  /** Of finitely many keys one is the last in the direction of the shift. */
  lemma {:induction false} Extreme(ks: set<Path>, d: int) returns (k: Path)
    requires ks != {} && forall k | k in ks :: k != []
    ensures k in ks && forall k' | k' in ks :: if d > 0 then k'[0] <= k[0] else k'[0] >= k[0]
    decreases |ks|
  {
    k :| k in ks;
    if other :| other in ks && other != k {
      assert other in ks - {k};
      var k' := Extreme(ks - {k}, d);
      if if d > 0 then k'[0] > k[0] else k'[0] < k[0] {
        k := k';
      }
    }
  }

  lemma FoundOne<K>(b: seq<Node<K>>, tab: seq<byte>, tail: nat, l: Layout, tree: Tree<K>, words: map<Path, K>,
                    last: Path, rest: Path, off: nat, v: K, b': seq<Node<K>>, k: Path)
    requires Overwritten(b, tab, tail, l, tree, words, last, rest, off, v, b') && |b'| > ROOT
    requires k in words[Key(last, rest) := v] && NoNul(k) && k != [] && (rest == [] || off == b[ROOT].idx)
    ensures Found(b', tab, k) == Some(words[Key(last, rest) := v][k])
  {
    hide Sound, Overwritten, Unwound, ValueAt;
    IsSound(b, tab, tail, l, tree, words, last, rest, off, v, b');
    SoundTree(b, tab, tail, l, tree, words);
    RootIsLeft(b, tab, tail, l, tree, words, last, rest, off, v, b');
    if rest == [] {
      assert [] + k == k;
      BelowArc(b, tab, tail, l, tree, words, last, off, v, b', [], k);
      if k == Key(last, []) {
        UnwindsOnce([], k);
        assert k + [] == k;
      } else if Key(last, []) <= k {
        KeysStopShort(tree, words, last, k);
      } else {
        Unwinds(k, Key(last, []));
      }
    } else {
      ReadSame(b, tab, tail, l, tree, words, last, rest, off, v, b', k);
    }
  }

  /** No key of the map goes on behind the new one. */
  lemma KeysStopShort<K>(tree: Tree<K>, words: map<Path, K>, last: Path, k: Path)
    requires TreeOk(tree) && Denotes(tree, words) && last in tree && tree[last].Inner? && last + [1] !in tree
    requires last + [1] <= k
    ensures k !in words
  {
    var s := k[|last|..];
    assert last + s == k && k[|last|] == (last + [1])[|last|];
    LeftTree(tree, last, s);
    DenotesMissing(tree, words, k);
  }

  /** The arrays still answer for the map, and for nothing else, exactly when the suffix
      lies where the root's base was: an arc written over the root is followed round and
      round. */
  lemma AnswersExactly<K>(b: seq<Node<K>>, tab: seq<byte>, tail: nat, l: Layout, tree: Tree<K>, words: map<Path, K>,
                          last: Path, rest: Path, off: nat, v: K, b': seq<Node<K>>)
    requires Overwritten(b, tab, tail, l, tree, words, last, rest, off, v, b')
    ensures var m := words[Key(last, rest) := v];
            (forall k | NoNul(k) && k != [] :: Found(b', tab, k) == Get(m, k)) <==> rest != [] && off == b[ROOT].idx
  {
    hide Sound, Overwritten, Found, Get;
    IsSound(b, tab, tail, l, tree, words, last, rest, off, v, b');
    SoundTree(b, tab, tail, l, tree, words);
    RootIsLeft(b, tab, tail, l, tree, words, last, rest, off, v, b');
    var key := Key(last, rest);
    var m := words[key := v];
    if rest == [] {
      RoundAgain(b, tab, tail, l, tree, words, last, off, v, b');
      GetIs(m, key + key);
    } else if off == b[ROOT].idx {
      forall k | NoNul(k) && k != [] ensures Found(b', tab, k) == Get(m, k) {
        ReadSame(b, tab, tail, l, tree, words, last, rest, off, v, b', k);
      }
    } else {
      KeptExactly(b, tab, tail, l, tree, words, last, rest, off, v, b');
      var k :| k in m && Found(b', tab, k) != Some(m[k]);
      GetIs(m, k);
      assert NoNul(key) && NoNul(k) && k != [];
    }
  }

  lemma GetIs<K>(m: map<Path, K>, k: Path)
    ensures Get(m, k) == if k in m then Some(m[k]) else None
  {
  }

  lemma ReadSame<K>(b: seq<Node<K>>, tab: seq<byte>, tail: nat, l: Layout, tree: Tree<K>, words: map<Path, K>,
                    last: Path, rest: Path, off: nat, v: K, b': seq<Node<K>>, k: Path)
    requires Overwritten(b, tab, tail, l, tree, words, last, rest, off, v, b') && rest != [] && off == b[ROOT].idx
    requires NoNul(k) && k != []
    ensures Found(b', tab, k) == Get(words[Key(last, rest) := v], k)
  {
    hide Sound;
    assert [k[0]] + k[1..] == k && k[0] in k;
    ReadShifted(b, tab, tail, l, tree, words, last, rest, off, v, b', k);
  }

  /** A key that nobody has inserted is found. */
  lemma RoundAgain<K>(b: seq<Node<K>>, tab: seq<byte>, tail: nat, l: Layout, tree: Tree<K>, words: map<Path, K>,
                      last: Path, off: nat, v: K, b': seq<Node<K>>)
    requires Overwritten(b, tab, tail, l, tree, words, last, [], off, v, b')
    ensures var key := Key(last, []); var k := key + key;
            |b'| > ROOT && NoNul(k) && k != [] && k != key && k !in words && Found(b', tab, k) == Some(v)
  {
    hide Sound, Overwritten;
    var key := Key(last, []);
    var k := key + key;
    IsSound(b, tab, tail, l, tree, words, last, [], off, v, b');
    SoundTree(b, tab, tail, l, tree, words);
    RootIsLeft(b, tab, tail, l, tree, words, last, [], off, v, b');
    assert [] + k == k && NoNul(k) && |k| != |key|;
    BelowArc(b, tab, tail, l, tree, words, last, off, v, b', [], k);
    UnwindsOnce(key, key);
    assert Unwound(key, key) == key;
    assert last + [1] <= k;
    KeysStopShort(tree, words, last, k);
  }
}
