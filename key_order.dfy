/**
 * The order in which a plain JavaScript object lists its keys when none of them
 * looks like an array index (as with "yyyy-MM-dd" and "HH:mm"): the order in
 * which each key was first stored. `Object.values` and `Object.entries` follow it.
 */
module KeyOrder {

  /** The distinct keys of `ks`, each at the place it first occurs. */
  function FirstSeen<K(==)>(ks: seq<K>): (r: seq<K>)
    ensures |r| <= |ks|
  {
    if ks == [] then []
    else
      var f := FirstSeen(ks[..|ks| - 1]);
      if ks[|ks| - 1] in f then f else f + [ks[|ks| - 1]]
  }

  predicate Distinct<K(==)>(s: seq<K>)
  {
    forall i, j :: 0 <= i < j < |s| ==> s[i] != s[j]
  }

  /** Position of the first occurrence of `k`. */
  function FirstIndex<K(==)>(ks: seq<K>, k: K): (i: nat)
    requires k in ks
    ensures i < |ks| && ks[i] == k && k !in ks[..i]
  {
    if ks[0] == k then 0 else 1 + FirstIndex(ks[1..], k)
  }

  lemma {:induction false} FirstIndexOfPrefix<K>(ks: seq<K>, n: nat, k: K)
    requires n <= |ks| && k in ks[..n]
    ensures FirstIndex(ks, k) == FirstIndex(ks[..n], k)
  {
    if ks[0] != k {
      assert ks[..n][1..] == ks[1..][..n - 1];
      assert k in ks[1..][..n - 1];
      FirstIndexOfPrefix(ks[1..], n - 1, k);
    }
  }

  lemma {:induction false} FirstSeenMember<K>(ks: seq<K>, k: K)
    ensures k in FirstSeen(ks) <==> k in ks
  {
    if ks != [] {
      FirstSeenMember(ks[..|ks| - 1], k);
      assert ks == ks[..|ks| - 1] + [ks[|ks| - 1]];
    }
  }

  /** Each key appears once; exactly the keys that occur appear; and they appear in the
      order of their first occurrences. */
  lemma {:induction false} FirstSeenProperties<K>(ks: seq<K>)
    ensures Distinct(FirstSeen(ks))
    ensures forall k :: k in FirstSeen(ks) <==> k in ks
    ensures forall i, j :: 0 <= i < j < |FirstSeen(ks)| ==>
              FirstIndex(ks, FirstSeen(ks)[i]) < FirstIndex(ks, FirstSeen(ks)[j])
  {
    if ks != [] {
      var init := ks[..|ks| - 1];
      var last := ks[|ks| - 1];
      var f := FirstSeen(init);
      FirstSeenProperties(init);
      assert ks == init + [last];
      forall k | k in f ensures FirstIndex(ks, k) == FirstIndex(init, k) {
        FirstSeenMember(init, k);
        assert ks[..|ks| - 1] == init;
        FirstIndexOfPrefix(ks, |ks| - 1, k);
      }
      if last !in f {
        assert last !in init;
        assert FirstIndex(ks, last) == |ks| - 1 by {
          assert ks[..|ks| - 1] == init;
        }
        var r := f + [last];
        forall i, j | 0 <= i < j < |r|
          ensures FirstIndex(ks, r[i]) < FirstIndex(ks, r[j])
        {
          if j < |f| {
            assert r[i] == f[i] && r[j] == f[j];
          } else {
            assert r[i] == f[i];
            assert FirstIndex(init, f[i]) < |init|;
          }
        }
      }
    }
  }
}
