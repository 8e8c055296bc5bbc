/** The trie as a mathematical object: which paths exist, what each node says,
    and which finite map of keys to values the whole tree stands for.

    A path is the string of bytes read from the root to a node.  Nothing here
    mentions the node array; `TrieArray` places a tree in it. */
module TrieTree {
  import opened Wrappers

  type Path = seq<byte>

  /** What one node of the trie says.  An `Inner` node is a `Node_Arc`: the key
      that ends here is the path itself.  A `Leaf` node is a `Node_Term`: the key
      is the path followed by a suffix kept at `off` in the string table. */
  datatype Entry<+K> =
    | Inner(value: Option<K>)
    | Leaf(off: nat, suffix: Path, value: Option<K>)

  type Tree<K> = map<Path, Entry<K>>

  /** A C string: no byte of it is the terminator. */
  predicate NoNul(s: Path) {
    0 !in s
  }

  function Up(p: Path): Path
    requires p != []
  {
    p[..|p| - 1]
  }

  function Last(p: Path): byte
    requires p != []
  {
    p[|p| - 1]
  }

  /** The key a node stands for. */
  function Full<K>(p: Path, e: Entry<K>): Path {
    match e
    case Inner(_) => p
    case Leaf(_, s, _) => p + s
  }

  ghost predicate EntryOk<K>(e: Entry<K>) {
    e.Leaf? ==> e.suffix != [] && NoNul(e.suffix)
  }

  ghost predicate HasParent<K>(tree: Tree<K>, p: Path)
    requires p != []
  {
    Up(p) in tree && tree[Up(p)].Inner? && Last(p) != 0
  }

  /** A tree has a valueless root, is closed under taking parents, and only inner
      nodes have children. */
  ghost predicate TreeOk<K>(tree: Tree<K>) {
    && [] in tree && tree[[]] == Inner(None)
    && (forall p | p in tree :: EntryOk(tree[p]))
    && (forall p {:trigger HasParent(tree, p)} | p in tree && p != [] :: HasParent(tree, p))
  }

  ghost predicate Stores<K>(tree: Tree<K>, p: Path, k: Path) {
    p in tree && Full(p, tree[p]) == k && tree[p].value.Some?
  }

  /** `contents` is the map of non-empty keys that the tree stands for. */
  ghost predicate Denotes<K>(tree: Tree<K>, contents: map<Path, K>) {
    && [] !in contents
    && (forall p | p in tree && tree[p].value.Some? ::
          Full(p, tree[p]) in contents && contents[Full(p, tree[p])] == tree[p].value.value)
    && (forall k | k in contents :: exists p :: Stores(tree, p, k))
  }

  /** The live suffixes lie inside the used part of the string table, are
      terminated there, and do not overlap. */
  ghost predicate Strings<K>(tree: Tree<K>, tab: seq<byte>, tail: nat) {
    && tail <= |tab|
    && (forall p | p in tree && tree[p].Leaf? :: StringAt(tab, tail, tree[p].off, tree[p].suffix))
    && (forall p, p' | p in tree && p' in tree && p != p' && tree[p].Leaf? && tree[p'].Leaf? ::
          Disjoint(tree[p], tree[p'].off, tree[p'].off + |tree[p'].suffix|))
  }

  ghost predicate StringAt(tab: seq<byte>, tail: nat, off: nat, s: Path) {
    && off + |s| < tail <= |tab|
    && tab[off..off + |s|] == s
    && tab[off + |s|] == 0
  }

  /** The suffix of `e`, with its terminator, stays clear of `lo..=hi`. */
  ghost predicate Disjoint<K>(e: Entry<K>, lo: nat, hi: nat)
    requires e.Leaf?
  {
    e.off + |e.suffix| < lo || hi < e.off
  }

  ghost predicate Apart<K>(tree: Tree<K>, lo: nat, hi: nat) {
    forall p | p in tree && tree[p].Leaf? :: Disjoint(tree[p], lo, hi)
  }

  /** The empty trie. */
  lemma FreshTree<K>(tree: Tree<K>, contents: map<Path, K>, tab: seq<byte>)
    requires tree == map[[] := Inner(None)] && contents == map[]
    ensures TreeOk(tree) && Denotes(tree, contents) && Strings(tree, tab, 0)
  {
    assert tree.Keys == {[]};
  }

  // ---------------------------------------------------------------- shape

  /** Every proper prefix of a path in the tree is an inner node of it. */
  lemma {:induction false} PrefixInner<K>(tree: Tree<K>, p: Path, n: nat)
    requires TreeOk(tree) && p in tree && n <= |p|
    ensures p[..n] in tree
    ensures n < |p| ==> tree[p[..n]].Inner?
    decreases |p|
  {
    if n == |p| {
      assert p[..n] == p;
    } else {
      assert HasParent(tree, p);
      if n < |p| - 1 {
        PrefixInner(tree, Up(p), n);
        assert Up(p)[..n] == p[..n];
      } else {
        assert p[..n] == Up(p);
      }
    }
  }

  /** No two nodes stand for the same key. */
  lemma FullInjective<K>(tree: Tree<K>, p: Path, p': Path)
    requires TreeOk(tree) && p in tree && p' in tree
    requires Full(p, tree[p]) == Full(p', tree[p'])
    ensures p == p'
  {
    if |p| < |p'| {
      FullPrefix(tree, p, p');
    } else if |p'| < |p| {
      FullPrefix(tree, p', p);
    } else {
      var k := Full(p, tree[p]);
      assert p == k[..|p|] && p' == k[..|p'|];
    }
  }

  lemma FullPrefix<K>(tree: Tree<K>, p: Path, p': Path)
    requires TreeOk(tree) && p in tree && p' in tree && |p| < |p'|
    ensures Full(p, tree[p]) != Full(p', tree[p'])
  {
    assert Full(p, tree[p])[..|p|] == p;
    assert Full(p', tree[p'])[..|p|] == p'[..|p|];
    if p'[..|p|] == p {
      PrefixInner(tree, p', |p|);
      assert |Full(p, tree[p])| == |p|;
    }
  }

  /** A walk along `key` that has consumed `n` bytes and stands on an inner node
      can only reach nodes for `key` through the next byte. */
  lemma NextStep<K>(tree: Tree<K>, key: Path, n: nat, p: Path)
    requires TreeOk(tree) && n < |key|
    requires key[..n] in tree && tree[key[..n]].Inner?
    requires p in tree && Full(p, tree[p]) == key
    ensures |p| > n && p == key[..|p|] && key[..n + 1] in tree
    ensures |p| > n + 1 ==> tree[key[..n + 1]].Inner?
  {
    assert p == key[..|p|];
    var m := if |p| <= n then |p| else n;
    PrefixInner(tree, key[..n], m);
    assert key[..n][..m] == key[..m];
    assert |p| > n;
    PrefixInner(tree, p, n + 1);
    assert p[..n + 1] == key[..n + 1];
  }

  /** The bytes on which arcs leave the node of `p`. */
  ghost function Arcs<K>(tree: Tree<K>, p: Path): set<byte> {
    set c: byte | 1 <= c < 256 && p + [c] in tree
  }

  /** A strictly ascending list has as many elements as the set it names. */
  lemma {:induction false} AscendingSize(list: seq<byte>, s: set<byte>)
    requires forall j, k | 0 <= j < k < |list| :: list[j] < list[k]
    requires forall c: byte :: c in list <==> c in s
    ensures |list| == |s|
  {
    if list == [] {
      assert s == {};
    } else {
      var init, last := list[..|list| - 1], list[|list| - 1];
      forall c: byte ensures c in init <==> c in s - {last} {
        if c in init {
          var k :| 0 <= k < |init| && init[k] == c;
          assert list[k] < last;
        }
      }
      AscendingSize(init, s - {last});
    }
  }

  // ------------------------------------------------------------- contents

  /** Reading the map through the tree. */
  lemma DenotesLookup<K>(tree: Tree<K>, contents: map<Path, K>, p: Path)
    requires TreeOk(tree) && Denotes(tree, contents) && p in tree
    ensures tree[p].value.Some? <==> Full(p, tree[p]) in contents
    ensures tree[p].value.Some? ==> contents[Full(p, tree[p])] == tree[p].value.value
  {
    var k := Full(p, tree[p]);
    if k in contents {
      var p' :| Stores(tree, p', k);
      FullInjective(tree, p, p');
    }
  }

  lemma DenotesMissing<K>(tree: Tree<K>, contents: map<Path, K>, k: Path)
    requires Denotes(tree, contents)
    requires forall p | p in tree :: Full(p, tree[p]) != k
    ensures k !in contents
  {
    assert forall p :: !Stores(tree, p, k);
  }

  function WithValue<K>(e: Entry<K>, v: Option<K>): Entry<K> {
    match e
    case Inner(_) => Inner(v)
    case Leaf(off, s, _) => Leaf(off, s, v)
  }

  /** The map after the node for `k` carries `v`. */
  function Assign<K>(contents: map<Path, K>, k: Path, v: Option<K>): map<Path, K> {
    if v.Some? then contents[k := v.value] else contents - {k}
  }

  lemma AssignCommutes<K>(contents: map<Path, K>, k: Path, v: Option<K>, k': Path, v': Option<K>)
    requires k != k'
    ensures Assign(Assign(contents, k, v), k', v') == Assign(Assign(contents, k', v'), k, v)
  {
  }

  /** Replacing the entry at a path by one for the same key changes the map at
      that key only. */
  lemma ReplaceEntry<K>(tree: Tree<K>, contents: map<Path, K>, p: Path, e: Entry<K>)
    requires TreeOk(tree) && Denotes(tree, contents)
    requires p in tree && p != []
    requires Full(p, e) == Full(p, tree[p])
    requires EntryOk(e) && (tree[p].Inner? ==> e.Inner?)
    ensures TreeOk(tree[p := e])
    ensures Denotes(tree[p := e], Assign(contents, Full(p, e), e.value))
  {
    var t, k := tree[p := e], Full(p, e);
    var c := Assign(contents, k, e.value);
    forall q | q in t && q != [] ensures HasParent(t, q) {
      assert HasParent(tree, q);
    }
    forall q | q in t && t[q].value.Some?
      ensures Full(q, t[q]) in c && c[Full(q, t[q])] == t[q].value.value
    {
      if q != p && Full(q, t[q]) == k {
        FullInjective(tree, p, q);
      }
    }
    assert k != [] by {
      assert |p| <= |k|;
    }
    forall j | j in c ensures exists q :: Stores(t, q, j) {
      if j == k {
        assert Stores(t, p, k);
      } else {
        var q :| Stores(tree, q, j);
        assert Stores(t, q, j);
      }
    }
  }

  /** A terminator that is being split becomes a valueless inner node; its key
      leaves the map. */
  lemma DisbandEntry<K>(tree: Tree<K>, contents: map<Path, K>, p: Path)
    requires TreeOk(tree) && Denotes(tree, contents)
    requires p in tree && p != [] && tree[p].Leaf?
    ensures TreeOk(tree[p := Inner(None)])
    ensures Denotes(tree[p := Inner(None)], contents - {Full(p, tree[p])})
  {
    var t, k := tree[p := Inner(None)], Full(p, tree[p]);
    var c := contents - {k};
    forall q | q in t && q != [] ensures HasParent(t, q) {
      assert HasParent(tree, q);
    }
    forall q | q in t && t[q].value.Some?
      ensures Full(q, t[q]) in c && c[Full(q, t[q])] == t[q].value.value
    {
      if Full(q, t[q]) == k {
        FullInjective(tree, p, q);
      }
    }
    forall j | j in c ensures exists q :: Stores(t, q, j) {
      var q :| Stores(tree, q, j);
      assert Stores(t, q, j);
    }
  }

  /** A key whose node would hang off an inner node is not in the map yet. */
  lemma FreshKey<K>(tree: Tree<K>, contents: map<Path, K>, p: Path, e: Entry<K>)
    requires TreeOk(tree) && Denotes(tree, contents)
    requires p !in tree && p != [] && HasParent(tree, p)
    ensures Full(p, e) !in contents
  {
    var k := Full(p, e);
    assert k[..|p|] == p && k[..|p| - 1] == Up(p);
    forall q | q in tree ensures Full(q, tree[q]) != k {
      if Full(q, tree[q]) == k {
        NextStep(tree, k, |p| - 1, q);
        assert false;
      }
    }
    DenotesMissing(tree, contents, k);
  }

  /** A new node below an inner node adds exactly its own key. */
  lemma AddEntry<K>(tree: Tree<K>, contents: map<Path, K>, p: Path, e: Entry<K>)
    requires TreeOk(tree) && Denotes(tree, contents)
    requires p !in tree && p != [] && HasParent(tree, p) && EntryOk(e)
    ensures TreeOk(tree[p := e])
    ensures Full(p, e) !in contents
    ensures Denotes(tree[p := e], Assign(contents, Full(p, e), e.value))
  {
    FreshKey(tree, contents, p, e);
    var t, k := tree[p := e], Full(p, e);
    var c := Assign(contents, k, e.value);
    forall q | q in t && q != [] ensures HasParent(t, q) {
      if q != p {
        assert HasParent(tree, q);
      } else {
        assert Up(p) != p;
      }
    }
    assert k != [] by {
      assert |p| <= |k|;
    }
    AddDenotes(tree, contents, p, e);
  }

  lemma AddDenotes<K>(tree: Tree<K>, contents: map<Path, K>, p: Path, e: Entry<K>)
    requires Denotes(tree, contents)
    requires p !in tree && p != []
    requires Full(p, e) != [] && Full(p, e) !in contents
    ensures Denotes(tree[p := e], Assign(contents, Full(p, e), e.value))
  {
    var t, k := tree[p := e], Full(p, e);
    var c := Assign(contents, k, e.value);
    forall j | j in c ensures exists q :: Stores(t, q, j) {
      if j == k {
        assert Stores(t, p, k);
      } else {
        var q :| Stores(tree, q, j);
        assert Stores(t, q, j);
      }
    }
  }

  // --------------------------------------------------------- string table

  /** A suffix taken from a region no live suffix uses may be given to a node. */
  lemma StringsAdd<K>(tree: Tree<K>, tab: seq<byte>, tail: nat, p: Path, e: Entry<K>)
    requires Strings(tree, tab, tail)
    requires p in tree ==> tree[p].Inner?
    requires e.Leaf? ==> StringAt(tab, tail, e.off, e.suffix)
    requires e.Leaf? ==> Apart(tree, e.off, e.off + |e.suffix|)
    ensures Strings(tree[p := e], tab, tail)
  {
    var t := tree[p := e];
    forall q, q' | q in t && q' in t && q != q' && t[q].Leaf? && t[q'].Leaf?
      ensures Disjoint(t[q], t[q'].off, t[q'].off + |t[q'].suffix|)
    {
      if q == p {
        assert Disjoint(tree[q'], e.off, e.off + |e.suffix|);
      } else if q' == p {
        assert Disjoint(tree[q], e.off, e.off + |e.suffix|);
      }
    }
  }

  /** Disbanding a terminator leaves its characters to the caller. */
  lemma StringsRemove<K>(tree: Tree<K>, tab: seq<byte>, tail: nat, p: Path)
    requires Strings(tree, tab, tail) && p in tree && tree[p].Leaf?
    ensures Strings(tree[p := Inner(None)], tab, tail)
    ensures Apart(tree[p := Inner(None)], tree[p].off, tree[p].off + |tree[p].suffix|)
  {
  }

  /** Changing a value does not touch the strings. */
  lemma StringsValue<K>(tree: Tree<K>, tab: seq<byte>, tail: nat, p: Path, v: Option<K>)
    requires Strings(tree, tab, tail) && p in tree
    ensures Strings(tree[p := WithValue(tree[p], v)], tab, tail)
  {
    var t := tree[p := WithValue(tree[p], v)];
    forall q, q' | q in t && q' in t && q != q' && t[q].Leaf? && t[q'].Leaf?
      ensures Disjoint(t[q], t[q'].off, t[q'].off + |t[q'].suffix|)
    {
      assert tree[q].Leaf? && tree[q'].Leaf?;
      assert Disjoint(tree[q], tree[q'].off, tree[q'].off + |tree[q'].suffix|);
    }
  }

  /** Overwriting a character outside every live suffix changes nothing. */
  lemma StringsWrite<K>(tree: Tree<K>, tab: seq<byte>, tail: nat, i: nat, x: byte)
    requires Strings(tree, tab, tail) && i < |tab| && Apart(tree, i, i)
    ensures Strings(tree, tab[i := x], tail)
  {
    forall p | p in tree && tree[p].Leaf?
      ensures StringAt(tab[i := x], tail, tree[p].off, tree[p].suffix)
    {
      assert StringAt(tab, tail, tree[p].off, tree[p].suffix);
      assert Disjoint(tree[p], i, i);
    }
  }

  /** A longer table that agrees on the used part holds the same strings. */
  lemma StringsExtend<K>(tree: Tree<K>, tab: seq<byte>, tail: nat, tab': seq<byte>, tail': nat)
    requires Strings(tree, tab, tail)
    requires tail <= tail' <= |tab'| && tab'[..tail] == tab[..tail]
    ensures Strings(tree, tab', tail')
  {
    forall p | p in tree && tree[p].Leaf?
      ensures StringAt(tab', tail', tree[p].off, tree[p].suffix)
    {
      var off, s := tree[p].off, tree[p].suffix;
      assert StringAt(tab, tail, off, s);
      assert tab[off..off + |s|] == tab[..tail][off..off + |s|];
      assert tab'[off..off + |s|] == tab'[..tail][off..off + |s|];
      assert tab'[off + |s|] == tab'[..tail][off + |s|];
    }
  }
}
