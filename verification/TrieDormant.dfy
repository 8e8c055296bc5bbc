/** Replacing the value of a key that has a node but no value: two ways to come by such a
    key, and what becomes of the value. */
module TrieDormant {
  import opened Wrappers
  import opened TrieTree
  import opened TrieArray
  import opened KTrieModule

  /** A key that has been removed is replaced: the value is lost. */
  method AfterRemoval<K>(v: K, w: K) returns (ok: bool, found: Option<K>)
    ensures ok && found == None
  {
    hide Sound;
    var t := new KTrie<K>();
    t.NoByteOneIsSafe([65]);
    var _ := t.Insert([65], v);
    var _ := t.Remove([65]);
    t.DormantUnset([65]);
    t.DormantNotFouling([65]);
    ok := t.Replace([65], w);
    found := t.Retrieve([65]);
  }

  /** "B" is replaced after "BAX" and "BAY" have been inserted; it never was set, but the
      two others part behind it. */
  method AfterSplit<K>(v: K, w: K) returns (ok: bool, found: Option<K>)
    ensures ok && found == None
  {
    hide Sound;
    var t := new KTrie<K>();
    t.NoByteOneIsSafe([66, 65, 88]);
    var _ := t.Insert([66, 65, 88], v);
    t.NoByteOneIsSafe([66, 65, 89]);
    var _ := t.Insert([66, 65, 89], v);
    ghost var a, b: Path := [66, 65, 88], [66, 65, 89];
    t.NonEmptyContents(a);
    t.NonEmptyContents(b);
    t.NonEmptyContents([66]);
    assert a[..1] == [66] && b[..1] == [66];
    assert a != b by {
      assert a[2] != b[2];
    }
    t.CommonPrefixDormant([66], a, b);
    t.DormantUnset([66]);
    t.DormantNotFouling([66]);
    ok := t.Replace([66], w);
    found := t.Retrieve([66]);
  }
}
