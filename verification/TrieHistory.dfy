/** Whole histories of a trie: any sequence of insertions, removals and lookups
    on a fresh trie answers as the same sequence on a finite map does. */
module TrieHistory {
  import opened Wrappers
  import opened TrieTree
  import opened TrieArray
  import opened KTrieModule

  datatype Op<+K> = Insert(key: Path, value: K) | Remove(key: Path) | Retrieve(key: Path)

  datatype Reply<+K> = Done(ok: bool) | Got(found: Option<K>)

  /** The key alphabet: bytes 2 to 255. */
  predicate Plain(key: Path) {
    0 !in key && 1 !in key
  }

  /** One operation on a finite map. */
  function Apply<K>(m: map<Path, K>, op: Op<K>): (map<Path, K>, Reply<K>) {
    match op
    case Insert(k, v) => if k in m then (m, Done(false)) else (m[k := v], Done(true))
    case Remove(k) => (m - {k}, Done(k in m))
    case Retrieve(k) => (m, Got(if k in m then Some(m[k]) else None))
  }

  /** The map after a history. */
  function MapAfter<K>(ops: seq<Op<K>>): map<Path, K> {
    if ops == [] then map[] else Apply(MapAfter(ops[..|ops| - 1]), ops[|ops| - 1]).0
  }

  /** The replies a finite map gives to a history. */
  function Replies<K>(ops: seq<Op<K>>): seq<Reply<K>> {
    if ops == [] then []
    else
      var before := ops[..|ops| - 1];
      Replies(before) + [Apply(MapAfter(before), ops[|ops| - 1]).1]
  }

  /** The trie after any history holds the map of that history, has given the map's
      replies, and reports its size. */
  method Run<K>(ops: seq<Op<K>>) returns (trie: KTrie<K>, replies: seq<Reply<K>>, size: nat)
    requires forall i | 0 <= i < |ops| :: Plain(ops[i].key)
    ensures trie.Valid() && trie.Contents() == MapAfter(ops)
    ensures replies == Replies(ops)
    ensures size == |MapAfter(ops)| % SIZE_MODULUS
  {
    hide Sound;
    trie := new KTrie();
    replies := [];
    for i := 0 to |ops|
      invariant trie.Valid() && fresh(trie) && fresh(trie.base) && fresh(trie.stringtab)
      invariant trie.Contents() == MapAfter(ops[..i]) && replies == Replies(ops[..i])
      invariant trie.numElements == |MapAfter(ops[..i])| % SIZE_MODULUS
    {
      assert ops[..i + 1][..i] == ops[..i];
      var reply := Step(trie, ops[i]);
      replies := replies + [reply];
      CountStep(MapAfter(ops[..i]), ops[i]);
    }
    assert ops[..|ops|] == ops;
    size := trie.Size();
  }

  /** One operation on the trie does what it does on the map. */
  method Step<K>(trie: KTrie<K>, op: Op<K>) returns (reply: Reply<K>)
    requires trie.Valid() && Plain(op.key)
    modifies trie, trie.base, trie.stringtab
    ensures trie.Valid()
    ensures trie.base == old(trie.base) || fresh(trie.base)
    ensures trie.stringtab == old(trie.stringtab) || fresh(trie.stringtab)
    ensures (trie.Contents(), reply) == Apply(old(trie.Contents()), op)
    ensures trie.numElements == CountAfter(old(trie.numElements), op, reply)
  {
    hide Sound;
    match op
    case Insert(k, v) =>
      trie.NoByteOneIsSafe(k);
      var ok := trie.Insert(k, v);
      reply := Done(ok);
    case Remove(k) =>
      var ok := trie.Remove(k);
      reply := Done(ok);
    case Retrieve(k) =>
      var found := trie.Retrieve(k);
      reply := Got(found);
  }

  function CountAfter<K>(n: nat, op: Op<K>, reply: Reply<K>): nat {
    if reply != Done(true) then n else if op.Insert? then Inc(n) else Dec(n)
  }

  /** How an operation changes the size of the map. */
  lemma SizeAfter<K>(m: map<Path, K>, op: Op<K>)
    ensures var (m', reply) := Apply(m, op);
            if reply != Done(true) then |m'| == |m|
            else if op.Insert? then |m'| == |m| + 1
            else |m'| == |m| - 1 && |m| > 0
  {
    match op
    case Insert(k, v) =>
      assert k !in m ==> |m[k := v].Keys| == |m.Keys + {k}|;
    case Remove(k) =>
      assert (m - {k}).Keys == m.Keys - {k};
      assert k in m ==> |(m - {k}).Keys| == |m.Keys| - 1;
      assert k !in m ==> m - {k} == m;
    case Retrieve(_) =>
  }

  /** The element counter follows the size of the map. */
  lemma CountStep<K>(m: map<Path, K>, op: Op<K>)
    ensures |Apply(m, op).0| % SIZE_MODULUS == CountAfter(|m| % SIZE_MODULUS, op, Apply(m, op).1)
  {
    SizeAfter(m, op);
    IncMod(|m|);
    if |m| > 0 {
      DecMod(|m|);
    }
  }

  lemma IncMod(n: nat)
    ensures Inc(n % SIZE_MODULUS) == (n + 1) % SIZE_MODULUS
  {
  }

  lemma DecMod(n: nat)
    requires n > 0
    ensures Dec(n % SIZE_MODULUS) == (n - 1) % SIZE_MODULUS
  {
  }
}
