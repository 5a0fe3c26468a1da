/** JavaScript array operations the script relies on, over sequences.
    Elements are looked up through a `key` projection, so that the same
    definitions serve the cart (entries keyed by product id) and the
    favorites (plain ids, keyed by themselves). */
module Seqs {

  /** Some element of `s` has key `k` (`s.some(e => key(e) === k)`). */
  predicate HasKey<T>(s: seq<T>, key: T -> int, k: int) {
    exists i :: 0 <= i < |s| && key(s[i]) == k
  }

  /** No two elements of `s` share a key. */
  predicate UniqueKeys<T>(s: seq<T>, key: T -> int) {
    forall i, j :: 0 <= i < j < |s| ==> key(s[i]) != key(s[j])
  }

  /** `s.findIndex(e => key(e) === k)`: the first position whose key is `k`,
      or -1 when no element has that key. */
  function FindIndex<T>(s: seq<T>, key: T -> int, k: int): (r: int)
    ensures -1 <= r < |s|
    ensures r == -1 <==> !HasKey(s, key, k)
    ensures 0 <= r ==> key(s[r]) == k && !HasKey(s[..r], key, k)
  {
    if |s| == 0 then -1
    else if key(s[0]) == k then 0
    else
      var t := FindIndex(s[1..], key, k);
      if t == -1 then -1 else t + 1
  }

  /** `s.splice(i, 1)`: `s` without its element at position `i`. */
  function RemoveAt<T>(s: seq<T>, i: nat): (r: seq<T>)
    requires i < |s|
    ensures |r| == |s| - 1
    ensures forall j :: 0 <= j < i ==> r[j] == s[j]
    ensures forall j :: i <= j < |r| ==> r[j] == s[j + 1]
  {
    s[..i] + s[i + 1..]
  }

  /** The elements of `s` whose key is not `k`, in their original order:
      what "every other entry" means when one key is toggled. */
  function Without<T>(s: seq<T>, key: T -> int, k: int): (r: seq<T>)
    ensures |r| <= |s|
    ensures !HasKey(r, key, k)
  {
    if |s| == 0 then []
    else if key(s[|s| - 1]) == k then Without(s[..|s| - 1], key, k)
    else Without(s[..|s| - 1], key, k) + [s[|s| - 1]]
  }

  lemma {:induction false} WithoutAppend<T>(a: seq<T>, b: seq<T>, key: T -> int, k: int)
    ensures Without(a + b, key, k) == Without(a, key, k) + Without(b, key, k)
    decreases |b|
  {
    if |b| == 0 {
      assert a + b == a;
    } else {
      var b' := b[..|b| - 1];
      assert (a + b)[..|a + b| - 1] == a + b';
      WithoutAppend(a, b', key, k);
    }
  }

  /** Filtering by key `k` keeps a sequence with no element of key `k` as it is. */
  lemma {:induction false} WithoutNoKey<T>(s: seq<T>, key: T -> int, k: int)
    requires !HasKey(s, key, k)
    ensures Without(s, key, k) == s
    decreases |s|
  {
    if |s| > 0 {
      var s' := s[..|s| - 1];
      assert !HasKey(s', key, k) by {
        forall i | 0 <= i < |s'| ensures key(s'[i]) != k {
          assert s'[i] == s[i];
        }
      }
      WithoutNoKey(s', key, k);
      assert s == s' + [s[|s| - 1]];
    }
  }

  /** Removing one element of key `k` does not change the others. */
  lemma RemoveAtWithout<T>(s: seq<T>, i: nat, key: T -> int, k: int)
    requires i < |s| && key(s[i]) == k
    ensures Without(RemoveAt(s, i), key, k) == Without(s, key, k)
  {
    assert s == s[..i] + [s[i]] + s[i + 1..];
    WithoutAppend(s[..i] + [s[i]], s[i + 1..], key, k);
    WithoutAppend(s[..i], [s[i]], key, k);
    WithoutAppend(s[..i], s[i + 1..], key, k);
    assert Without([s[i]], key, k) == [] by {
      assert [s[i]][..0] == [];
    }
  }

  /** Appending an element of key `k` does not change the others. */
  lemma AppendWithout<T>(s: seq<T>, x: T, key: T -> int)
    ensures Without(s + [x], key, key(x)) == Without(s, key, key(x))
  {
    assert (s + [x])[..|s|] == s;
  }

  /** Appending an element whose key is new keeps the keys unique. */
  lemma AppendUnique<T>(s: seq<T>, x: T, key: T -> int)
    requires UniqueKeys(s, key) && !HasKey(s, key, key(x))
    ensures UniqueKeys(s + [x], key)
  {
    var t := s + [x];
    forall i, j | 0 <= i < j < |t| ensures key(t[i]) != key(t[j]) {
      if j == |s| {
        assert t[i] == s[i];
      } else {
        assert t[i] == s[i] && t[j] == s[j];
      }
    }
  }

  /** Removing an element keeps the keys unique, and in a sequence with unique
      keys it removes the only element of its key. */
  lemma RemoveUnique<T>(s: seq<T>, i: nat, key: T -> int)
    requires i < |s| && UniqueKeys(s, key)
    ensures UniqueKeys(RemoveAt(s, i), key)
    ensures !HasKey(RemoveAt(s, i), key, key(s[i]))
  {
    var r := RemoveAt(s, i);
    forall a, b | 0 <= a < b < |r| ensures key(r[a]) != key(r[b]) {
      var a' := if a < i then a else a + 1;
      var b' := if b < i then b else b + 1;
      assert r[a] == s[a'] && r[b] == s[b'];
    }
    forall j | 0 <= j < |r| ensures key(r[j]) != key(s[i]) {
      var j' := if j < i then j else j + 1;
      assert r[j] == s[j'];
    }
  }

  /** `after` is `before` with its first element of key `k` spliced out. */
  ghost predicate RemovesFirst<T>(before: seq<T>, after: seq<T>, key: T -> int, k: int) {
    exists i :: 0 <= i < |before| && key(before[i]) == k && !HasKey(before[..i], key, k)
      && after == before[..i] + before[i + 1..]
  }

  /** `s.splice(s.findIndex(...), 1)` removes the first element of key `k`. */
  lemma SpliceFirst<T>(s: seq<T>, key: T -> int, k: int)
    requires HasKey(s, key, k)
    ensures RemovesFirst(s, RemoveAt(s, FindIndex(s, key, k)), key, k)
  {
    var i := FindIndex(s, key, k);
    assert s[..i] + s[i + 1..] == RemoveAt(s, i);
  }
}
