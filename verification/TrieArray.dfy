/** How a tree is laid out in the node array of the double-array trie, and what
    each write to that array does to the layout. */
module TrieArray {
  import opened Wrappers
  import opened TrieTree

  datatype NodeType = Unused | Arc | Term

  /** One element of the node array.  `value` is `None` when `valset` is false. */
  datatype Node<+K> = Node(idx: nat, parent: nat, value: Option<K>, mode: NodeType)

  /** A cleared slot. */
  function Zero<K>(): Node<K> {
    Node(0, 0, None, Unused)
  }

  const ROOT: nat := 1

  /** Where each path lives, and which path lives in each used slot. */
  datatype Layout = Layout(at: map<Path, nat>, lab: map<nat, Path>)

  /** `Moving(p, from, done)`: the children of `p` are being moved from base `from`
      to the base `p` names now; those on the bytes in `done` have arrived. */
  datatype Move = Still | Moving(p: Path, from: nat, done: set<byte>)

  ghost predicate Bijection(l: Layout) {
    && (forall p | p in l.at :: l.at[p] in l.lab && l.lab[l.at[p]] == p)
    && (forall i | i in l.lab :: l.lab[i] in l.at && l.at[l.lab[i]] == i)
  }

  /** The node `n` says what the entry `e` says. */
  ghost predicate Says<K>(n: Node<K>, e: Entry<K>, size: nat) {
    && n.value == e.value
    && match e
       case Inner(_) => n.mode == Arc && n.idx < size
       case Leaf(off, _, _) => n.mode == Term && n.idx == off
  }

  /** The base from which the child of `q` on byte `c` is addressed. */
  function BaseOf<K>(b: seq<Node<K>>, l: Layout, mv: Move, q: Path, c: byte): nat
    requires q in l.at && l.at[q] < |b|
  {
    if mv.Moving? && mv.p == q && c !in mv.done then mv.from else b[l.at[q]].idx
  }

  /** The node of a non-root path sits where its parent's base sends its last
      byte, and points back at its parent. */
  ghost predicate Hangs<K>(b: seq<Node<K>>, l: Layout, mv: Move, p: Path)
    requires p != [] && p in l.at && l.at[p] < |b|
  {
    && Up(p) in l.at && l.at[Up(p)] < |b|
    && b[l.at[p]].parent == l.at[Up(p)]
    && l.at[p] == BaseOf(b, l, mv, Up(p), Last(p)) + Last(p)
  }

  ghost predicate InRange(l: Layout, size: nat) {
    forall p | p in l.at :: l.at[p] < size
  }

  /** The used slots of `b` are exactly the nodes of the tree, each saying what
      its entry says; every other slot is all-zero. */
  ghost predicate Laid<K>(b: seq<Node<K>>, l: Layout, tree: Tree<K>) {
    && Bijection(l)
    && l.at.Keys == tree.Keys
    && InRange(l, |b|)
    && [] in tree && l.at[[]] == ROOT && b[ROOT].parent == ROOT && 1 <= b[ROOT].idx
    && (forall i | 0 <= i < |b| && i !in l.lab :: b[i] == Zero())
    && (forall p | p in tree :: Says(b[l.at[p]], tree[p], |b|))
  }

  /** The array `b` holds exactly the tree, laid out by `l`, with all links in
      place except for the move under way. */
  ghost predicate Placed<K>(b: seq<Node<K>>, l: Layout, tree: Tree<K>, mv: Move) {
    && Laid(b, l, tree)
    && (forall p {:trigger Hangs(b, l, mv, p)} | p in tree && p != [] :: Hangs(b, l, mv, p))
  }

  /** The array of an empty trie: only the root is used. */
  lemma FreshPlaced<K>(b: seq<Node<K>>, l: Layout, tree: Tree<K>)
    requires |b| >= 2 && b[ROOT] == Node(1, ROOT, None, Arc)
    requires forall i | 0 <= i < |b| && i != ROOT :: b[i] == Zero()
    requires l == Layout(map[[] := ROOT], map[ROOT := []]) && tree == map[[] := Inner(None)]
    ensures Placed(b, l, tree, Still)
  {
    assert tree.Keys == {[]} && l.at.Keys == {[]} && l.lab.Keys == {ROOT};
  }

  // --------------------------------------------------------------- reading

  /** A slot is used exactly when some path lives in it. */
  lemma UsedSlot<K>(b: seq<Node<K>>, l: Layout, tree: Tree<K>, mv: Move, i: nat)
    requires Placed(b, l, tree, mv) && i < |b|
    ensures b[i].mode != Unused <==> i in l.lab
    ensures i !in l.lab ==> b[i] == Zero()
    ensures i in l.lab ==> l.lab[i] in tree && l.at[l.lab[i]] == i && Says(b[i], tree[l.lab[i]], |b|)
  {
    if i in l.lab {
      assert Says(b[l.at[l.lab[i]]], tree[l.lab[i]], |b|);
    }
  }

  /** Following byte `c` from the node of `p` reaches the node of `p + [c]`, or a
      slot that is out of range, unused or owned by another parent. */
  lemma StepSlot<K>(b: seq<Node<K>>, l: Layout, tree: Tree<K>, p: Path, c: byte)
    requires Placed(b, l, tree, Still) && TreeOk(tree) && c != 0
    requires p in tree && tree[p].Inner?
    ensures var i := b[l.at[p]].idx + c;
            && (p + [c] in tree ==> i < |b| && l.at[p + [c]] == i && b[i].parent == l.at[p])
            && (p + [c] !in tree && i < |b| ==> i !in l.lab || b[i].parent != l.at[p])
  {
    var i, q := b[l.at[p]].idx + c, p + [c];
    assert Up(q) == p && Last(q) == c;
    if q in tree {
      assert Hangs(b, l, Still, q);
    } else if i < |b| && i in l.lab {
      var r := l.lab[i];
      assert l.at[r] == i && l.lab[l.at[p]] == p;
      if r == [] {
        assert i == ROOT && l.lab[ROOT] == [];
        assert p == [] ==> i > 1;
      } else {
        assert Hangs(b, l, Still, r) && HasParent(tree, r);
        assert l.lab[l.at[Up(r)]] == Up(r);
        assert r == Up(r) + [Last(r)];
      }
    }
  }

  /** A used slot other than the root whose parent is the node of `p` is a child
      of `p`. */
  lemma ChildOf<K>(b: seq<Node<K>>, l: Layout, tree: Tree<K>, mv: Move, p: Path, i: nat)
    requires Placed(b, l, tree, mv)
    requires p in tree && i < |b| && i in l.lab && i != ROOT && b[i].parent == l.at[p]
    ensures l.lab[i] != [] && Up(l.lab[i]) == p && l.lab[i] in tree
    ensures i == BaseOf(b, l, mv, p, Last(l.lab[i])) + Last(l.lab[i])
  {
    var r := l.lab[i];
    assert r in tree && l.at[r] == i;
    assert Hangs(b, l, mv, r);
    assert l.lab[l.at[Up(r)]] == Up(r) && l.lab[l.at[p]] == p;
  }

  /** Every slot that points back at slot `i` can be reached from its base. */
  ghost predicate Reach<K>(b: seq<Node<K>>, i: nat)
    requires i < |b|
  {
    forall s | 0 <= s < |b| && b[s].parent == i :: b[i].mode == Arc && b[i].idx < s <= b[i].idx + 255
  }

  /** Every slot that points back at a non-root node is a child of it, within
      reach of its base. */
  lemma ChildrenInReach<K>(b: seq<Node<K>>, l: Layout, tree: Tree<K>, mv: Move, p: Path)
    requires Placed(b, l, tree, mv) && TreeOk(tree) && p in tree && p != []
    requires mv.Moving? ==> mv.p != p
    ensures Reach(b, l.at[p])
    ensures l.at[p] != 0 && l.at[p] != ROOT && b[l.at[p]].parent != l.at[p]
  {
    assert l.lab[l.at[p]] == p && l.lab[l.at[[]]] == [];
    assert Hangs(b, l, mv, p) && HasParent(tree, p) && l.lab[l.at[Up(p)]] == Up(p);
    forall s | 0 <= s < |b| && b[s].parent == l.at[p]
      ensures b[l.at[p]].mode == Arc && b[l.at[p]].idx < s <= b[l.at[p]].idx + 255
    {
      if s in l.lab {
        ChildOf(b, l, tree, mv, p, s);
        assert HasParent(tree, l.lab[s]) && Says(b[l.at[p]], tree[p], |b|);
      }
    }
  }

  // --------------------------------------------------------------- writing

  function Place(l: Layout, p: Path, i: nat): Layout {
    Layout(l.at[p := i], l.lab[i := p])
  }

  /** Writing a childless node into a free slot its parent's base selects. */
  lemma PlaceNode<K>(b: seq<Node<K>>, l: Layout, tree: Tree<K>, p: Path, i: nat, n: Node<K>, e: Entry<K>)
    requires Placed(b, l, tree, Still) && TreeOk(tree)
    requires p != [] && p !in tree && HasParent(tree, p)
    requires i < |b| && i !in l.lab
    requires i == b[l.at[Up(p)]].idx + Last(p)
    requires n.parent == l.at[Up(p)] && Says(n, e, |b|)
    ensures Placed(b[i := n], Place(l, p, i), tree[p := e], Still)
  {
    var b', l', t := b[i := n], Place(l, p, i), tree[p := e];
    PlaceLaid(b, l, tree, p, i, n, e);
    forall q | q in t && q != [] ensures Hangs(b', l', Still, q) {
      if q != p {
        assert HasParent(tree, q) && Hangs(b, l, Still, q);
      }
      assert Up(p) != p;
      PlaceHangs(b, l, p, i, n, q);
    }
  }

  lemma PlaceLaid<K>(b: seq<Node<K>>, l: Layout, tree: Tree<K>, p: Path, i: nat, n: Node<K>, e: Entry<K>)
    requires Laid(b, l, tree) && p != [] && p !in tree
    requires i < |b| && i !in l.lab && Says(n, e, |b|)
    ensures Laid(b[i := n], Place(l, p, i), tree[p := e])
  {
    var b', l', t := b[i := n], Place(l, p, i), tree[p := e];
    assert l.at[[]] in l.lab;
    forall q | q in t ensures Says(b'[l'.at[q]], t[q], |b'|) {
      if q != p {
        assert l.at[q] in l.lab;
        assert Says(b[l.at[q]], tree[q], |b|);
      }
    }
  }

  lemma PlaceHangs<K>(b: seq<Node<K>>, l: Layout, p: Path, i: nat, n: Node<K>, q: Path)
    requires Bijection(l) && InRange(l, |b|)
    requires p != [] && p !in l.at && i < |b| && i !in l.lab
    requires Up(p) in l.at && n.parent == l.at[Up(p)] && i == b[l.at[Up(p)]].idx + Last(p)
    requires q != [] && (q == p || (q in l.at && Hangs(b, l, Still, q)))
    ensures Hangs(b[i := n], Place(l, p, i), Still, q)
  {
    assert l.at[Up(q)] in l.lab;
    if q != p {
      assert l.at[q] in l.lab;
    }
  }

  ghost predicate Childless<K>(tree: Tree<K>, p: Path) {
    forall q | q in tree && q != [] :: Up(q) != p
  }

  /** Rewriting a node in place; its base may change only while it has no
      children. */
  lemma RewriteNode<K>(b: seq<Node<K>>, l: Layout, tree: Tree<K>, p: Path, n: Node<K>, e: Entry<K>)
    requires Placed(b, l, tree, Still) && TreeOk(tree)
    requires p in tree && p != []
    requires n.parent == b[l.at[p]].parent && Says(n, e, |b|)
    requires Childless(tree, p) || n.idx == b[l.at[p]].idx
    ensures Placed(b[l.at[p] := n], l, tree[p := e], Still)
  {
    var b' := b[l.at[p] := n];
    RewriteLaid(b, l, tree, p, n, e);
    forall q | q in tree && q != [] ensures Hangs(b', l, Still, q) {
      assert Hangs(b, l, Still, q) && HasParent(tree, q);
      assert l.lab[l.at[q]] == q && l.lab[l.at[p]] == p && l.lab[l.at[Up(q)]] == Up(q);
    }
  }

  lemma RewriteLaid<K>(b: seq<Node<K>>, l: Layout, tree: Tree<K>, p: Path, n: Node<K>, e: Entry<K>)
    requires Laid(b, l, tree) && p in tree && p != []
    requires n.parent == b[l.at[p]].parent && Says(n, e, |b|)
    ensures Laid(b[l.at[p] := n], l, tree[p := e])
  {
    var b', t := b[l.at[p] := n], tree[p := e];
    assert l.lab[l.at[p]] == p && l.lab[l.at[[]]] == [];
    forall q | q in t ensures Says(b'[l.at[q]], t[q], |b'|) {
      if q != p {
        assert l.lab[l.at[q]] == q;
        assert Says(b[l.at[q]], tree[q], |b|);
      }
    }
  }

  /** A path outside the tree has no children in it, and neither does a newly
      added one. */
  lemma FreshChildless<K>(tree: Tree<K>, p: Path, e: Entry<K>)
    requires TreeOk(tree) && p !in tree && p != []
    ensures Childless(tree[p := e], p)
  {
    forall q | q in tree[p := e] && q != [] ensures Up(q) != p {
      if q != p {
        assert HasParent(tree, q);
      } else {
        assert |Up(p)| < |p|;
      }
    }
  }

  /** A terminator has no children. */
  lemma LeafChildless<K>(tree: Tree<K>, p: Path)
    requires TreeOk(tree) && p in tree && tree[p].Leaf?
    ensures Childless(tree, p)
  {
    forall q | q in tree && q != [] ensures Up(q) != p {
      assert HasParent(tree, q);
    }
  }

  /** Appending cleared slots. */
  lemma GrowPlaced<K>(b: seq<Node<K>>, l: Layout, tree: Tree<K>, mv: Move, b': seq<Node<K>>)
    requires Placed(b, l, tree, mv) && TreeOk(tree)
    requires |b| <= |b'| && b'[..|b|] == b
    requires forall i | |b| <= i < |b'| :: b'[i] == Zero()
    ensures Placed(b', l, tree, mv)
  {
    assert forall i | 0 <= i < |b| :: b'[i] == b'[..|b|][i];
    forall p | p in tree ensures Says(b'[l.at[p]], tree[p], |b'|) {
      assert Says(b[l.at[p]], tree[p], |b|);
    }
    forall p | p in tree && p != [] ensures Hangs(b', l, mv, p) {
      assert Hangs(b, l, mv, p);
    }
    forall i | 0 <= i < |b'| && i !in l.lab ensures b'[i] == Zero() {
      if i < |b| {
        assert b[i] == Zero();
      }
    }
  }

  // ------------------------------------------------------------ relocation

  /** Giving `p` a new base turns its children into children in transit. */
  lemma StartMove<K>(b: seq<Node<K>>, l: Layout, tree: Tree<K>, p: Path, q: nat)
    requires Placed(b, l, tree, Still) && TreeOk(tree)
    requires p in tree && tree[p].Inner? && 1 <= q < |b|
    ensures Placed(b[l.at[p] := b[l.at[p]].(idx := q)], l, tree, Moving(p, b[l.at[p]].idx, {}))
  {
    var mv := Moving(p, b[l.at[p]].idx, {});
    var b' := b[l.at[p] := b[l.at[p]].(idx := q)];
    StartMoveLaid(b, l, tree, p, q);
    forall r | r in tree && r != [] ensures Hangs(b', l, mv, r) {
      assert Hangs(b, l, Still, r);
      assert l.lab[l.at[p]] == p && l.lab[l.at[Up(r)]] == Up(r);
    }
  }

  lemma StartMoveLaid<K>(b: seq<Node<K>>, l: Layout, tree: Tree<K>, p: Path, q: nat)
    requires Laid(b, l, tree)
    requires p in tree && tree[p].Inner? && 1 <= q < |b|
    ensures Laid(b[l.at[p] := b[l.at[p]].(idx := q)], l, tree)
  {
    var b' := b[l.at[p] := b[l.at[p]].(idx := q)];
    forall r | r in tree ensures Says(b'[l.at[r]], tree[r], |b'|) {
      assert Says(b[l.at[r]], tree[r], |b|);
      assert l.lab[l.at[r]] == r && l.lab[l.at[p]] == p;
    }
  }

  /** When every child has arrived the move is over. */
  lemma EndMove<K>(b: seq<Node<K>>, l: Layout, tree: Tree<K>, mv: Move)
    requires Placed(b, l, tree, mv) && mv.Moving?
    requires forall r | r in tree && r != [] && Up(r) == mv.p :: Last(r) in mv.done
    ensures Placed(b, l, tree, Still)
  {
    forall r | r in tree && r != [] ensures Hangs(b, l, Still, r) {
      assert Hangs(b, l, mv, r);
    }
  }

  /** The bytes at the front of a list. */
  function Prefix(list: seq<byte>, i: nat): set<byte>
    requires i <= |list|
  {
    set k | 0 <= k < i :: list[k]
  }

  /** The slots after the children of `p` on the bytes in `done` went to base `q`. */
  ghost function MovedTo(at: map<Path, nat>, p: Path, q: nat, done: set<byte>): map<Path, nat> {
    map r | r in at :: if r != [] && Up(r) == p && Last(r) in done then q + Last(r) else at[r]
  }

  lemma MovedToStep(at: map<Path, nat>, p: Path, q: nat, list: seq<byte>, i: nat)
    requires i < |list| && p + [list[i]] in at
    requires forall j, k | 0 <= j < k < |list| :: list[j] < list[k]
    ensures list[i] !in Prefix(list, i)
    ensures Prefix(list, i + 1) == Prefix(list, i) + {list[i]}
    ensures MovedTo(at, p, q, Prefix(list, i + 1)) == MovedTo(at, p, q, Prefix(list, i))[p + [list[i]] := q + list[i]]
  {
    var m := p + [list[i]];
    assert Up(m) == p && Last(m) == list[i];
    forall r | r in at && r != [] && Up(r) == p && Last(r) == list[i] ensures r == m {
      assert r == Up(r) + [Last(r)];
    }
  }

  /** Slot `s` of the array after one node has been copied from `src` to `new`, its
      src slot cleared and its children re-pointed. */
  function Moved<K>(b: seq<Node<K>>, src: nat, dst: nat, s: nat): Node<K>
    requires src < |b| && s < |b|
  {
    var n := if s == dst then b[src] else if s == src then Zero() else b[s];
    if n.parent == src then n.(parent := dst) else n
  }

  /** `b'` is `b` with one node moved. */
  ghost predicate MovedAll<K>(b: seq<Node<K>>, src: nat, dst: nat, b': seq<Node<K>>) {
    && |b'| == |b| && src < |b|
    && forall s | 0 <= s < |b| :: b'[s] == Moved(b, src, dst, s)
  }

  function MovedLayout(l: Layout, src: nat, dst: nat): Layout
    requires src in l.lab
  {
    Layout(l.at[l.lab[src] := dst], (l.lab - {src})[dst := l.lab[src]])
  }

  /** Moving one child of `mv.p` keeps the tree: only the layout changes. */
  lemma MoveOne<K>(b: seq<Node<K>>, l: Layout, tree: Tree<K>, mv: Move, c: byte, b': seq<Node<K>>)
    requires Placed(b, l, tree, mv) && TreeOk(tree) && mv.Moving?
    requires mv.p in tree && mv.p + [c] in tree && c !in mv.done && c != 0
    requires var dst := b[l.at[mv.p]].idx + c; dst < |b| && dst !in l.lab
    requires MovedAll(b, mv.from + c, b[l.at[mv.p]].idx + c, b')
    ensures mv.from + c in l.lab
    ensures Placed(b', MovedLayout(l, mv.from + c, b[l.at[mv.p]].idx + c), tree,
                   mv.(done := mv.done + {c}))
  {
    var src, dst := mv.from + c, b[l.at[mv.p]].idx + c;
    var m := mv.p + [c];
    assert Up(m) == mv.p && Last(m) == c;
    assert Hangs(b, l, mv, m);
    assert l.at[m] == src && l.lab[src] == m;
    var l', mv' := MovedLayout(l, src, dst), mv.(done := mv.done + {c});
    assert src != ROOT && l.at[mv.p] != src by {
      assert l.lab[l.at[[]]] == [] && l.lab[l.at[mv.p]] == mv.p;
    }
    MoveOneNodes(b, l, tree, m, src, dst, b');
    forall r | r in tree && r != [] ensures Hangs(b', l', mv', r) {
      assert Hangs(b, l, mv, r) && HasParent(tree, r);
      MoveOneHangs(b, l, mv, c, b', r);
    }
  }

  /** Before the move of child `c`: where it is, and where it can go. */
  lemma MoveReady<K>(b: seq<Node<K>>, l: Layout, tree: Tree<K>, mv: Move, c: byte)
    requires Placed(b, l, tree, mv) && TreeOk(tree) && mv.Moving?
    requires mv.p in tree && mv.p + [c] in tree && c !in mv.done
    ensures var m, src := mv.p + [c], mv.from + c;
            && l.at[m] == src < |b| && l.at[mv.p] < |b| && src in l.lab && l.lab[src] == m
            && b[src].mode != Unused && src != ROOT && l.at[mv.p] != src
            && (b[src].mode == Arc ==> b[src].idx < |b|)
    ensures l.at.Keys == tree.Keys
    ensures forall r | r in tree :: l.at[r] == mv.from + c <==> r == mv.p + [c]
  {
    var m := mv.p + [c];
    assert Up(m) == mv.p && Last(m) == c;
    assert Hangs(b, l, mv, m) && Says(b[l.at[m]], tree[m], |b|);
    assert l.lab[l.at[m]] == m && l.lab[l.at[[]]] == [] && l.lab[l.at[mv.p]] == mv.p;
    forall r | r in tree ensures l.at[r] == mv.from + c <==> r == m {
      assert l.lab[l.at[r]] == r;
    }
  }

  /** After it: only that child's slot has changed, and every other unused slot is
      still unused. */
  lemma MoveDone<K>(b: seq<Node<K>>, l: Layout, tree: Tree<K>, mv: Move, c: byte, b': seq<Node<K>>)
    requires Placed(b, l, tree, mv) && TreeOk(tree) && mv.Moving? && c != 0
    requires mv.p in tree && mv.p + [c] in tree && c !in mv.done
    requires var dst := b[l.at[mv.p]].idx + c; dst < |b| && b[dst].mode == Unused
    requires MovedAll(b, mv.from + c, b[l.at[mv.p]].idx + c, b')
    ensures mv.from + c in l.lab
    ensures var dst := b[l.at[mv.p]].idx + c; var l' := MovedLayout(l, mv.from + c, dst);
            && Placed(b', l', tree, mv.(done := mv.done + {c}))
            && l'.at == l.at[mv.p + [c] := dst]
            && l'.at[mv.p] == l.at[mv.p] && b'[l.at[mv.p]].idx == b[l.at[mv.p]].idx
            && (forall s | 0 <= s < |b| && s != dst && b[s].mode == Unused :: b'[s].mode == Unused)
            && (forall r | r in tree :: r in l.at && l.at[r] < |b| && l'.at[r] < |b| && b'[l'.at[r]].idx == b[l.at[r]].idx)
  {
    var src, dst := mv.from + c, b[l.at[mv.p]].idx + c;
    MoveReady(b, l, tree, mv, c);
    UsedSlot(b, l, tree, mv, dst);
    MoveOne(b, l, tree, mv, c, b');
    assert b'[l.at[mv.p]] == Moved(b, src, dst, l.at[mv.p]);
    forall s | 0 <= s < |b| && s != dst && b[s].mode == Unused ensures b'[s].mode == Unused {
      assert b'[s] == Moved(b, src, dst, s);
    }
    var l' := MovedLayout(l, src, dst);
    forall r | r in tree ensures l'.at[r] < |b| && b'[l'.at[r]].idx == b[l.at[r]].idx {
      assert b'[l'.at[r]] == Moved(b, src, dst, l'.at[r]);
      assert l.lab[l.at[r]] == r;
    }
  }

  lemma MoveOneHangs<K>(b: seq<Node<K>>, l: Layout, mv: Move, c: byte, b': seq<Node<K>>, r: Path)
    requires Bijection(l) && InRange(l, |b|) && mv.Moving?
    requires mv.p in l.at && mv.p + [c] in l.at && l.at[mv.p + [c]] == mv.from + c
    requires c !in mv.done
    requires var dst := b[l.at[mv.p]].idx + c; dst < |b| && dst !in l.lab
    requires r != [] && r in l.at && Hangs(b, l, mv, r)
    requires MovedAll(b, mv.from + c, b[l.at[mv.p]].idx + c, b')
    ensures mv.from + c in l.lab
    ensures var l' := MovedLayout(l, mv.from + c, b[l.at[mv.p]].idx + c);
            r in l'.at && l'.at[r] < |b'| && Hangs(b', l', mv.(done := mv.done + {c}), r)
  {
    var src, dst, m := mv.from + c, b[l.at[mv.p]].idx + c, mv.p + [c];
    assert Up(m) == mv.p && Last(m) == c;
    assert l.lab[src] == m;
    assert l.lab[l.at[r]] == r && l.lab[l.at[Up(r)]] == Up(r) && l.lab[l.at[mv.p]] == mv.p;
    var l' := MovedLayout(l, src, dst);
    assert b'[l'.at[r]] == Moved(b, src, dst, l'.at[r]);
    assert b'[l'.at[Up(r)]] == Moved(b, src, dst, l'.at[Up(r)]);
    assert r == Up(r) + [Last(r)];
    if r == m {
      assert Hangs(b', l', mv.(done := mv.done + {c}), r);
    } else if Up(r) == m {
      assert Hangs(b', l', mv.(done := mv.done + {c}), r);
    } else if Up(r) == mv.p {
      assert Last(r) != c;
      assert Hangs(b', l', mv.(done := mv.done + {c}), r);
    } else {
      assert Hangs(b', l', mv.(done := mv.done + {c}), r);
    }
  }

  lemma MoveOneNodes<K>(b: seq<Node<K>>, l: Layout, tree: Tree<K>, m: Path, src: nat, dst: nat, b': seq<Node<K>>)
    requires Laid(b, l, tree)
    requires m in tree && l.at[m] == src < |b| && l.lab[src] == m
    requires dst < |b| && dst !in l.lab && src != ROOT && src != 0
    requires MovedAll(b, src, dst, b')
    ensures Laid(b', MovedLayout(l, src, dst), tree)
  {
    var l' := MovedLayout(l, src, dst);
    assert l.at[[]] == ROOT && ROOT in l.lab && l.lab[ROOT] == [];
    assert b'[ROOT] == Moved(b, src, dst, ROOT);
    forall p | p in tree
      ensures Says(b'[l'.at[p]], tree[p], |b'|)
      ensures l'.at[p] in l'.lab && l'.lab[l'.at[p]] == p
    {
      assert Says(b[l.at[p]], tree[p], |b|);
      assert l.lab[l.at[p]] == p;
      assert b'[l'.at[p]] == Moved(b, src, dst, l'.at[p]);
    }
    forall i | i in l'.lab ensures l'.lab[i] in l'.at && l'.at[l'.lab[i]] == i {
      if i != dst {
        assert l.at[l.lab[i]] == i;
      }
    }
    forall i | 0 <= i < |b'| && i !in l'.lab ensures b'[i] == Zero() {
      assert b'[i] == Moved(b, src, dst, i);
    }
  }

  // ------------------------------------------------- array, strings and map

  /** The node array and the string table together hold the tree, and the tree
      denotes `words`. */
  ghost predicate Sound<K>(b: seq<Node<K>>, tab: seq<byte>, tail: nat, l: Layout, tree: Tree<K>, words: map<Path, K>) {
    && TreeOk(tree)
    && Placed(b, l, tree, Still)
    && Strings(tree, tab, tail)
    && Denotes(tree, words)
  }

  lemma FreshSound<K>(b: seq<Node<K>>, tab: seq<byte>, l: Layout, tree: Tree<K>, words: map<Path, K>)
    requires |b| >= 2 && b[ROOT] == Node(1, ROOT, None, Arc)
    requires forall i | 0 <= i < |b| && i != ROOT :: b[i] == Zero()
    requires l == Layout(map[[] := ROOT], map[ROOT := []]) && tree == map[[] := Inner(None)] && words == map[]
    ensures Sound(b, tab, 0, l, tree, words)
  {
    FreshTree(tree, words, tab);
    FreshPlaced(b, l, tree);
  }

  lemma AttachSound<K>(b: seq<Node<K>>, tab: seq<byte>, tail: nat, l: Layout, tree: Tree<K>, words: map<Path, K>,
                       i: nat, n: Node<K>, p: Path, e: Entry<K>)
    requires Sound(b, tab, tail, l, tree, words)
    requires i < |b| && b[i].mode == Unused
    requires p != [] && p !in tree && HasParent(tree, p) && EntryOk(e)
    requires n.parent == l.at[Up(p)] && Says(n, e, |b|)
    requires i == b[l.at[Up(p)]].idx + Last(p)
    requires e.Leaf? ==> StringAt(tab, tail, e.off, e.suffix)
    requires e.Leaf? ==> Apart(tree, e.off, e.off + |e.suffix|)
    ensures Sound(b[i := n], tab, tail, Place(l, p, i), tree[p := e], Assign(words, Full(p, e), e.value))
    ensures Full(p, e) !in words && Childless(tree[p := e], p)
  {
    UsedSlot(b, l, tree, Still, i);
    PlaceNode(b, l, tree, p, i, n, e);
    AddEntry(tree, words, p, e);
    StringsAdd(tree, tab, tail, p, e);
    FreshChildless(tree, p, e);
  }

  lemma SetValueSound<K>(b: seq<Node<K>>, tab: seq<byte>, tail: nat, l: Layout, tree: Tree<K>, words: map<Path, K>,
                         p: Path, v: Option<K>)
    requires Sound(b, tab, tail, l, tree, words)
    requires p in tree && p != []
    ensures Sound(b[l.at[p] := b[l.at[p]].(value := v)], tab, tail, l, tree[p := WithValue(tree[p], v)],
                  Assign(words, Full(p, tree[p]), v))
  {
    var n, e := b[l.at[p]].(value := v), WithValue(tree[p], v);
    assert Says(b[l.at[p]], tree[p], |b|);
    RewriteNode(b, l, tree, p, n, e);
    ReplaceEntry(tree, words, p, e);
    StringsValue(tree, tab, tail, p, v);
  }

  lemma SetBaseSound<K>(b: seq<Node<K>>, tab: seq<byte>, tail: nat, l: Layout, tree: Tree<K>, words: map<Path, K>,
                        p: Path, q: nat)
    requires Sound(b, tab, tail, l, tree, words)
    requires p in tree && p != [] && tree[p].Inner? && Childless(tree, p) && q < |b|
    ensures Sound(b[l.at[p] := b[l.at[p]].(idx := q)], tab, tail, l, tree, words)
  {
    assert Says(b[l.at[p]], tree[p], |b|);
    RewriteNode(b, l, tree, p, b[l.at[p]].(idx := q), tree[p]);
    assert tree[p := tree[p]] == tree;
  }

  lemma DisbandSound<K>(b: seq<Node<K>>, tab: seq<byte>, tail: nat, l: Layout, tree: Tree<K>, words: map<Path, K>,
                        p: Path)
    requires Sound(b, tab, tail, l, tree, words)
    requires p in tree && p != [] && tree[p].Leaf?
    ensures Sound(b[l.at[p] := Node(0, b[l.at[p]].parent, None, Arc)], tab, tail, l, tree[p := Inner(None)],
                  words - {Full(p, tree[p])})
    ensures Childless(tree[p := Inner(None)], p)
    ensures Apart(tree[p := Inner(None)], tree[p].off, tree[p].off + |tree[p].suffix|)
  {
    LeafChildless(tree, p);
    RewriteNode(b, l, tree, p, Node(0, b[l.at[p]].parent, None, Arc), Inner(None));
    DisbandEntry(tree, words, p);
    StringsRemove(tree, tab, tail, p);
  }
}
