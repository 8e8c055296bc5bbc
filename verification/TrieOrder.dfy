/** The order in which the trie is walked: unsigned bytes, shorter first. */
module TrieOrder {
  import opened Wrappers
  import opened TrieTree

  /** Strict lexicographic order of byte strings. */
  predicate Less(a: Path, b: Path) {
    b != [] && (a == [] || a[0] < b[0] || (a[0] == b[0] && Less(a[1..], b[1..])))
  }

  /** The keys of a list of calls are strictly ascending, so none occurs twice. */
  ghost predicate Ascending<K>(calls: seq<(Path, K)>) {
    forall i, j | 0 <= i < j < |calls| :: Less(calls[i].0, calls[j].0)
  }

  /** A proper prefix comes first. */
  lemma {:induction false} PrefixLess(p: Path, k: Path)
    requires p < k
    ensures Less(p, k)
  {
    if p != [] {
      PrefixLess(p[1..], k[1..]);
    }
  }

  /** After a common prefix the next byte decides. */
  lemma {:induction false} BranchLess(p: Path, a: Path, b: Path)
    requires p < a && p < b && a[|p|] < b[|p|]
    ensures Less(a, b)
  {
    if p != [] {
      BranchLess(p[1..], a[1..], b[1..]);
    }
  }

  /** `Less` is a strict total order, so an ascending list is the only way to list
      its keys in order. */
  lemma {:induction false} LessTotal(a: Path, b: Path)
    ensures a == b || Less(a, b) || Less(b, a)
    ensures !(Less(a, b) && Less(b, a)) && !Less(a, a)
  {
    if a != [] && b != [] {
      LessTotal(a[1..], b[1..]);
      assert a == [a[0]] + a[1..] && b == [b[0]] + b[1..];
    }
    if a != [] {
      LessTotal(a[1..], a[1..]);
    }
  }

  /** All calls are for keys below `p`, with a next byte less than `i`. */
  ghost predicate Under<K>(calls: seq<(Path, K)>, p: Path, i: int) {
    forall x | x in calls :: p < x.0 && x.0[|p|] < i
  }

  /** All calls are for keys that continue `p` with exactly the byte `i`. */
  ghost predicate Through<K>(calls: seq<(Path, K)>, p: Path, i: int) {
    forall x | x in calls :: p < x.0 && x.0[|p|] == i
  }

  lemma AscendingJoin<K>(calls: seq<(Path, K)>, more: seq<(Path, K)>, p: Path, i: int)
    requires Ascending(calls) && Ascending(more) && Under(calls, p, i) && Through(more, p, i)
    ensures Ascending(calls + more) && Under(calls + more, p, i + 1)
  {
    var all := calls + more;
    forall j, k | 0 <= j < k < |all| ensures Less(all[j].0, all[k].0) {
      if j < |calls| <= k {
        assert calls[j] in calls && more[k - |calls|] in more;
        BranchLess(p, all[j].0, all[k].0);
      }
    }
  }

  /** The node's own key comes before everything below it. */
  lemma AscendingOwn<K>(own: (Path, K), more: seq<(Path, K)>)
    requires Ascending(more) && forall x | x in more :: own.0 < x.0
    ensures Ascending([own] + more)
  {
    var all := [own] + more;
    forall j, k | 0 <= j < k < |all| ensures Less(all[j].0, all[k].0) {
      if j == 0 {
        assert more[k - 1] in more;
        PrefixLess(own.0, all[k].0);
      }
    }
  }
}
