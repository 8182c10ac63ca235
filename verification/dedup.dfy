/** Hash-consing a stream of keys into a list of unique keys plus an index list.
    Both mesh loaders follow this pattern; this module holds the reference
    definition (the unique keys in first-seen order) and the invariant that the
    loaders' lookup table keeps while they run. */
module Dedup {

  /** No key occurs twice. */
  ghost predicate NoDuplicates<K>(s: seq<K>)
  {
    forall i, j :: 0 <= i < j < |s| ==> s[i] != s[j]
  }

  /** `ix` indexes `u` so that entry k of `ix` names the key `ks[k]`. */
  ghost predicate IndexesInto<K>(u: seq<K>, ks: seq<K>, ix: seq<nat>)
  {
    |ix| == |ks| &&
    forall k :: 0 <= k < |ks| ==> ix[k] < |u| && u[ix[k]] == ks[k]
  }

  /** The keys of `s`, each once, in the order of their first occurrence. */
  function Distinct<K(==)>(s: seq<K>): (d: seq<K>)
    ensures |d| <= |s|
  {
    if s == [] then []
    else
      var p := Distinct(s[..|s| - 1]);
      var x := s[|s| - 1];
      assert s == s[..|s| - 1] + [x];
      if x in p then p else p + [x]
  }

  /** The unique list holds exactly the keys of the input. */
  lemma {:induction false} DistinctSameKeys<K>(s: seq<K>)
    ensures forall x :: x in Distinct(s) <==> x in s
  {
    if s != [] {
      DistinctSameKeys(s[..|s| - 1]);
      assert s == s[..|s| - 1] + [s[|s| - 1]];
    }
  }

  /** No key occurs twice in the unique list. */
  lemma {:induction false} DistinctNoDuplicates<K(!new)>(s: seq<K>)
    ensures NoDuplicates(Distinct(s))
  {
    if s != [] {
      DistinctNoDuplicates(s[..|s| - 1]);
    }
  }

  /** Position of the first occurrence of `x` in `s`. */
  function FirstIndex<K(==)>(s: seq<K>, x: K): (i: nat)
    requires x in s
    ensures i < |s| && s[i] == x && x !in s[..i]
  {
    if s[0] == x then 0
    else
      var j := FirstIndex(s[1..], x);
      assert s[..j + 1] == [s[0]] + s[1..][..j];
      j + 1
  }

  /** One step of Distinct: appending a key extends the unique list by that key
      exactly when the key is new. */
  lemma DistinctSnoc<K(!new)>(s: seq<K>, x: K)
    ensures x in s ==> Distinct(s + [x]) == Distinct(s)
    ensures x !in s ==> Distinct(s + [x]) == Distinct(s) + [x]
  {
    assert (s + [x])[..|s + [x]| - 1] == s;
    DistinctSameKeys(s);
  }

  /** Processing a prefix produces a prefix of the unique list: later keys never
      reorder or remove what is already there. */
  lemma {:induction false} DistinctPrefix<K(!new)>(s: seq<K>, i: nat)
    requires i <= |s|
    ensures Distinct(s[..i]) <= Distinct(s)
    decreases |s| - i
  {
    if i < |s| {
      DistinctPrefix(s, i + 1);
      assert s[..i + 1] == s[..i] + [s[i]];
      DistinctSnoc(s[..i], s[i]);
    } else {
      assert s[..i] == s;
    }
  }

  /** Without repeated keys the unique list is the input itself. */
  lemma {:induction false} DistinctOfNoDuplicates<K(!new)>(s: seq<K>)
    requires NoDuplicates(s)
    ensures Distinct(s) == s
  {
    if s != [] {
      var p := s[..|s| - 1];
      assert NoDuplicates(p);
      DistinctOfNoDuplicates(p);
      assert s[|s| - 1] !in p;
      DistinctSnoc(p, s[|s| - 1]);
      assert p + [s[|s| - 1]] == s;
    }
  }

  /** The unique list is strictly shorter than the input exactly when some key
      is repeated. */
  lemma {:induction false} DistinctShorterIffRepeated<K(!new)>(s: seq<K>)
    ensures |Distinct(s)| < |s| <==> !NoDuplicates(s)
  {
    if NoDuplicates(s) {
      DistinctOfNoDuplicates(s);
    } else {
      RepeatedShortens(s);
    }
  }

  lemma {:induction false} RepeatedShortens<K(!new)>(s: seq<K>)
    requires !NoDuplicates(s)
    ensures |Distinct(s)| < |s|
  {
    var p := s[..|s| - 1];
    var x := s[|s| - 1];
    DistinctSnoc(p, x);
    assert p + [x] == s;
    if x !in p {
      assert !NoDuplicates(p) by {
        var i, j :| 0 <= i < j < |s| && s[i] == s[j];
        assert j < |s| - 1;
        assert p[i] == p[j];
      }
      RepeatedShortens(p);
    }
  }

  /** Entry k of the unique list is met in the input before entry k + 1
      (first-seen order). */
  lemma {:induction false} DistinctFirstSeenOrder<K(!new)>(s: seq<K>, i: nat, j: nat)
    requires i < j < |Distinct(s)|
    ensures Distinct(s)[i] in s && Distinct(s)[j] in s
    ensures FirstIndex(s, Distinct(s)[i]) < FirstIndex(s, Distinct(s)[j])
  {
    DistinctSameKeys(s);
    var p := s[..|s| - 1];
    var x := s[|s| - 1];
    assert p + [x] == s;
    DistinctSnoc(p, x);
    var d := Distinct(s);
    DistinctSameKeys(p);
    if j < |Distinct(p)| {
      DistinctFirstSeenOrder(p, i, j);
      FirstIndexInPrefix(p, x, d[i]);
      FirstIndexInPrefix(p, x, d[j]);
    } else {
      // d[j] is the last key, new at the end of s
      assert d[j] == x && x !in p;
      FirstIndexInPrefix(p, x, d[i]);
      assert FirstIndex(s, x) == |s| - 1;
    }
  }

  lemma FirstIndexInPrefix<K(!new)>(p: seq<K>, x: K, y: K)
    requires y in p
    ensures FirstIndex(p + [x], y) == FirstIndex(p, y)
  {
    var b := FirstIndex(p, y);
    assert (p + [x])[..b] == p[..b];
    FirstIndexUnique(p + [x], y, b);
  }

  /** A position holding `y` with no earlier `y` is the first index of `y`. */
  lemma {:induction false} FirstIndexUnique<K(!new)>(s: seq<K>, y: K, i: nat)
    requires i < |s| && s[i] == y && y !in s[..i]
    ensures FirstIndex(s, y) == i
  {
    if i > 0 {
      assert s[..i][0] == s[0];
      assert s[1..][..i - 1] == s[1..i];
      assert s[..i] == [s[0]] + s[1..i];
      FirstIndexUnique(s[1..], y, i - 1);
    }
  }

  /** The first occurrence of a key in the input gets, as its index, the
      length the unique list had just before it: a new key is appended at the
      end, never inserted. */
  lemma NewKeyGetsNextIndex<K(!new)>(s: seq<K>, k: nat)
    requires k < |s| && s[k] !in s[..k]
    ensures |Distinct(s[..k])| < |Distinct(s)|
    ensures Distinct(s)[|Distinct(s[..k])|] == s[k]
  {
    DistinctPrefix(s, k + 1);
    assert s[..k + 1] == s[..k] + [s[k]];
    DistinctSnoc(s[..k], s[k]);
  }

  /** The first occurrence of a key is given, as its index, the number of
      distinct keys seen before it: the size of the unique list just before
      the key is appended to it. */
  lemma NewKeyIndex<K(!new)>(ks: seq<K>, ix: seq<nat>, k: nat)
    requires IndexesInto(Distinct(ks), ks, ix)
    requires k < |ks| && ks[k] !in ks[..k]
    ensures ix[k] == |Distinct(ks[..k])|
  {
    NewKeyGetsNextIndex(ks, k);
    DistinctNoDuplicates(ks);
  }

  /** Two positions get the same index exactly when they hold the same key. */
  lemma SameKeySameIndex<K(!new)>(ks: seq<K>, ix: seq<nat>, a: nat, b: nat)
    requires IndexesInto(Distinct(ks), ks, ix)
    requires a < |ks| && b < |ks|
    ensures ks[a] == ks[b] <==> ix[a] == ix[b]
  {
    DistinctNoDuplicates(ks);
  }

  /** Over a unique list, the index list is fully determined by the keys: two
      index lists naming the same keys are equal. */
  lemma IndexesAreDetermined<K(!new)>(u: seq<K>, ks: seq<K>, a: seq<nat>, b: seq<nat>)
    requires NoDuplicates(u)
    requires IndexesInto(u, ks, a) && IndexesInto(u, ks, b)
    ensures a == b
  {
  }

  /** When the input has no repeated key, the index list is 0, 1, ..., n - 1. */
  lemma IdentityWhenNoRepeats<K(!new)>(ks: seq<K>, ix: seq<nat>)
    requires NoDuplicates(ks)
    requires IndexesInto(Distinct(ks), ks, ix)
    ensures |Distinct(ks)| == |ix|
    ensures forall k :: 0 <= k < |ix| ==> ix[k] == k
  {
    DistinctOfNoDuplicates(ks);
  }

  /** The loaders' state after the keys `done` have been processed: `keys`
      is the unique list, the table maps exactly the keys seen so far, each to
      `base` plus its position in `keys`, and every appended index is the
      table's entry for its key. */
  ghost predicate Deduped<K(!new)>(unique: map<K, nat>, base: nat, keys: seq<K>, done: seq<K>, appended: seq<nat>)
  {
    keys == Distinct(done) && TableOver(unique, base, keys, done, appended)
  }

  ghost predicate TableOver<K(!new)>(unique: map<K, nat>, base: nat, keys: seq<K>, done: seq<K>, appended: seq<nat>)
  {
    (forall x :: x in unique ==> base <= unique[x] < base + |keys| && keys[unique[x] - base] == x) &&
    |appended| == |done| &&
    (forall k :: 0 <= k < |done| ==> done[k] in unique && appended[k] == unique[done[k]])
  }

  /** What the loaders' state gives them: the appended indices, shifted by
      `base`, index the unique list. */
  lemma DedupedIndexes<K(!new)>(unique: map<K, nat>, base: nat, keys: seq<K>, done: seq<K>, appended: seq<nat>)
    requires Deduped(unique, base, keys, done, appended)
    ensures forall k :: 0 <= k < |done| ==> base <= appended[k] < base + |keys| && keys[appended[k] - base] == done[k]
  {
  }

  /** One lookup-or-insert step of the loaders keeps their state consistent:
      a key already in the table reuses its index; a new key gets `base` plus
      the current unique count and is appended to the unique list. */
  lemma DedupStep<K(!new)>(unique: map<K, nat>, base: nat, keys: seq<K>, done: seq<K>, appended: seq<nat>, x: K,
                          unique': map<K, nat>, keys': seq<K>, appended': seq<nat>)
    requires Deduped(unique, base, keys, done, appended)
    requires x in unique ==> unique' == unique && keys' == keys && appended' == appended + [unique[x]]
    requires x !in unique ==>
      unique' == unique[x := base + |keys|] && keys' == keys + [x] && appended' == appended + [base + |keys|]
    ensures Deduped(unique', base, keys', done + [x], appended')
  {
    DistinctSnoc(done, x);
    if x in unique {
      TableOverSeen(unique, base, keys, done, appended, x);
    } else {
      TableOverNew(unique, base, keys, done, appended, x);
    }
  }

  lemma TableOverSeen<K(!new)>(unique: map<K, nat>, base: nat, keys: seq<K>, done: seq<K>, appended: seq<nat>, x: K)
    requires TableOver(unique, base, keys, done, appended)
    requires x in unique
    ensures TableOver(unique, base, keys, done + [x], appended + [unique[x]])
  {
  }

  lemma TableOverNew<K(!new)>(unique: map<K, nat>, base: nat, keys: seq<K>, done: seq<K>, appended: seq<nat>, x: K)
    requires TableOver(unique, base, keys, done, appended)
    requires x !in unique
    ensures x !in done
    ensures TableOver(unique[x := base + |keys|], base, keys + [x], done + [x], appended + [base + |keys|])
  {
    var u, keys' := unique[x := base + |keys|], keys + [x];
    var done', appended' := done + [x], appended + [base + |keys|];
    forall y | y in u ensures base <= u[y] < base + |keys'| && keys'[u[y] - base] == y {
      if y != x {
        assert u[y] == unique[y] && keys'[u[y] - base] == keys[unique[y] - base];
      }
    }
    forall k | 0 <= k < |done'| ensures done'[k] in u && appended'[k] == u[done'[k]] {
      if k < |done| {
        assert done'[k] == done[k] && done[k] != x && appended'[k] == appended[k];
      }
    }
  }
}
