/** What a lookup finds in the arrays of the trie, be they sound or not. */
module TrieLookup {
  import opened Wrappers
  import opened TrieTree
  import opened TrieArray

  /** `strcmp(s, &tab[off]) == 0`. */
  predicate SameAt(tab: seq<byte>, off: nat, s: Path) {
    off + |s| < |tab| && tab[off..off + |s|] == s && tab[off + |s|] == 0
  }

  predicate Terminated(tab: seq<byte>, off: nat) {
    exists z :: off <= z < |tab| && tab[z] == 0
  }

  /** The slot at which a walk for `s` from slot `lastidx` ends. */
  function Find<K>(b: seq<Node<K>>, tab: seq<byte>, lastidx: nat, s: Path): (r: Option<nat>)
    requires lastidx < |b|
    ensures r.Some? ==> r.value < |b|
    decreases |s|
  {
    if s == [] then Some(lastidx)
    else
      var i := b[lastidx].idx + s[0];
      if i >= |b| || b[i].mode == Unused || b[i].parent != lastidx then None
      else if b[i].mode == Term then (if SameAt(tab, b[i].idx, s[1..]) then Some(i) else None)
      else Find(b, tab, i, s[1..])
  }

  /** The value there. */
  function ValueAt<K>(b: seq<Node<K>>, tab: seq<byte>, lastidx: nat, s: Path): Option<K>
    requires lastidx < |b|
  {
    match Find(b, tab, lastidx, s)
    case None => None
    case Some(i) => b[i].value
  }

  /** The value of a key in a map. */
  function Get<K>(m: map<Path, K>, k: Path): Option<K> {
    if k in m then Some(m[k]) else None
  }

  lemma SameIs(tab: seq<byte>, tail: nat, off: nat, s: Path, key: Path)
    requires StringAt(tab, tail, off, s) && NoNul(s) && NoNul(key)
    ensures SameAt(tab, off, key) <==> key == s
    ensures Terminated(tab, off)
  {
    assert forall j | 0 <= j < |s| :: s[j] in s && tab[off..off + |s|][j] == tab[off + j];
    if SameAt(tab, off, key) {
      assert forall j | 0 <= j < |key| :: key[j] in key && tab[off..off + |key|][j] == tab[off + j];
      assert |key| == |s|;
    }
    assert tab[off + |s|] == 0;
  }

  // ---------------------------------------------------------- in a sound trie

  /** One step of a walk that stands at the node of `p`. */
  lemma Steps<K>(b: seq<Node<K>>, tab: seq<byte>, tail: nat, l: Layout, tree: Tree<K>, words: map<Path, K>, p: Path, c: byte)
    requires Sound(b, tab, tail, l, tree, words) && p in tree && tree[p].Inner? && c != 0
    ensures p in l.at && l.at[p] < |b|
    ensures var i, q := b[l.at[p]].idx + c, p + [c];
            && (q in tree <==> i < |b| && b[i].mode != Unused && b[i].parent == l.at[p])
            && (q in tree ==>
                  && q in l.at && l.at[q] == i && i in l.lab && l.lab[i] == q && i != ROOT
                  && (b[i].mode == Term <==> tree[q].Leaf?) && b[i].value == tree[q].value
                  && (tree[q].Leaf? ==>
                        && b[i].idx == tree[q].off && NoNul(tree[q].suffix)
                        && StringAt(tab, tail, tree[q].off, tree[q].suffix)))
  {
    var i, q := b[l.at[p]].idx + c, p + [c];
    StepSlot(b, l, tree, p, c);
    if i < |b| {
      UsedSlot(b, l, tree, Still, i);
    }
    if q in tree {
      assert l.lab[l.at[[]]] == [] && l.lab[l.at[q]] == q;
      assert EntryOk(tree[q]);
    }
  }

  /** No node stands for a key whose walk has left the tree. */
  lemma LeftTree<K>(tree: Tree<K>, p: Path, s: Path)
    requires TreeOk(tree) && p in tree && tree[p].Inner? && s != [] && p + [s[0]] !in tree
    ensures forall q | q in tree :: Full(q, tree[q]) != p + s
  {
    var key := p + s;
    assert key[..|p|] == p && key[..|p| + 1] == p + [s[0]];
    forall q | q in tree ensures Full(q, tree[q]) != key {
      if Full(q, tree[q]) == key {
        NextStep(tree, key, |p|, q);
      }
    }
  }

  /** Nor for one that has run into a terminator with another suffix. */
  lemma LeafOther<K>(tree: Tree<K>, p: Path, s: Path)
    requires TreeOk(tree) && p in tree && tree[p].Leaf? && tree[p].suffix != s
    ensures forall q | q in tree :: Full(q, tree[q]) != p + s
  {
    var key := p + s;
    forall q | q in tree ensures Full(q, tree[q]) != key {
      if Full(q, tree[q]) == key {
        assert q == key[..|q|] && p == key[..|p|];
        if |q| < |p| {
          assert q == p[..|q|];
          PrefixInner(tree, p, |q|);
        } else {
          assert p == q[..|p|];
          PrefixInner(tree, q, |p|);
        }
        assert false;
      }
    }
  }

  /** Where a walk from the node of `p` ends: at the node for `p + s`, if there is one. */
  lemma {:induction false} FindLocates<K>(b: seq<Node<K>>, tab: seq<byte>, tail: nat, l: Layout, tree: Tree<K>,
                                          words: map<Path, K>, p: Path, s: Path)
    requires Sound(b, tab, tail, l, tree, words) && p in tree && tree[p].Inner? && NoNul(s)
    ensures p in l.at && l.at[p] < |b|
    ensures match Find(b, tab, l.at[p], s)
            case None => forall q | q in tree :: Full(q, tree[q]) != p + s
            case Some(i) =>
              && i in l.lab && l.lab[i] in tree && Full(l.lab[i], tree[l.lab[i]]) == p + s
              && b[i].value == tree[l.lab[i]].value
    decreases |s|
  {
    hide Sound;
    if s == [] {
      AtNode(b, tab, tail, l, tree, words, p);
    } else {
      assert s[0] in s && s == [s[0]] + s[1..];
      var q := p + [s[0]];
      assert q + s[1..] == p + s && NoNul(s[1..]);
      Steps(b, tab, tail, l, tree, words, p, s[0]);
      SoundTree(b, tab, tail, l, tree, words);
      if q !in tree {
        LeftTree(tree, p, s);
      } else if tree[q].Leaf? {
        SameIs(tab, tail, tree[q].off, tree[q].suffix, s[1..]);
        if tree[q].suffix != s[1..] {
          LeafOther(tree, q, s[1..]);
        } else {
          assert Full(q, tree[q]) == q + s[1..];
        }
      } else {
        FindLocates(b, tab, tail, l, tree, words, q, s[1..]);
      }
    }
  }

  lemma AtNode<K>(b: seq<Node<K>>, tab: seq<byte>, tail: nat, l: Layout, tree: Tree<K>, words: map<Path, K>, p: Path)
    requires Sound(b, tab, tail, l, tree, words) && p in tree && tree[p].Inner?
    ensures p in l.at && l.at[p] < |b| && l.at[p] in l.lab && l.lab[l.at[p]] == p
    ensures b[l.at[p]].value == tree[p].value && Full(p, tree[p]) == p + []
  {
    assert p + [] == p && Says(b[l.at[p]], tree[p], |b|);
  }

  lemma SoundTree<K>(b: seq<Node<K>>, tab: seq<byte>, tail: nat, l: Layout, tree: Tree<K>, words: map<Path, K>)
    requires Sound(b, tab, tail, l, tree, words)
    ensures TreeOk(tree) && Denotes(tree, words)
    ensures [] in l.at && l.at[[]] == ROOT < |b| && b[ROOT].parent == ROOT && 1 <= b[ROOT].idx && tree[[]].Inner?
  {
  }

  /** A lookup answers what the map says. */
  lemma FindSound<K>(b: seq<Node<K>>, tab: seq<byte>, tail: nat, l: Layout, tree: Tree<K>, words: map<Path, K>, p: Path, s: Path)
    requires Sound(b, tab, tail, l, tree, words) && p in tree && tree[p].Inner? && NoNul(s)
    ensures p in l.at && l.at[p] < |b| && ValueAt(b, tab, l.at[p], s) == Get(words, p + s)
  {
    hide Sound;
    FindLocates(b, tab, tail, l, tree, words, p, s);
    SoundTree(b, tab, tail, l, tree, words);
    match Find(b, tab, l.at[p], s)
    case None => DenotesMissing(tree, words, p + s);
    case Some(i) => DenotesLookup(tree, words, l.lab[i]);
  }

  /** Every suffix that a lookup may compare is terminated. */
  ghost predicate Readable<K>(b: seq<Node<K>>, tab: seq<byte>) {
    ROOT < |b| && forall i | 0 <= i < |b| && b[i].mode == Term :: Terminated(tab, b[i].idx)
  }

  lemma SoundReadable<K>(b: seq<Node<K>>, tab: seq<byte>, tail: nat, l: Layout, tree: Tree<K>, words: map<Path, K>)
    requires Sound(b, tab, tail, l, tree, words)
    ensures Readable(b, tab)
  {
    forall i | 0 <= i < |b| && b[i].mode == Term ensures Terminated(tab, b[i].idx) {
      UsedSlot(b, l, tree, Still, i);
      var e := tree[l.lab[i]];
      assert EntryOk(e) && StringAt(tab, tail, e.off, e.suffix);
      SameIs(tab, tail, e.off, e.suffix, []);
    }
  }
}
