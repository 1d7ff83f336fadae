/** `Array.prototype.filter` used to remove the entries of a list that carry a given key. */
module Lists {

  /** `s.filter(x => key(x) !== k)`: the elements whose key differs from `k`, in their original order. */
  function Without<T>(s: seq<T>, key: T -> string, k: string): (r: seq<T>)
    ensures |r| <= |s|
    ensures forall x :: x in r ==> x in s && key(x) != k
    ensures forall x :: x in s && key(x) != k ==> x in r
    decreases |s|
  {
    if s == [] then []
    else (if key(s[0]) == k then [] else [s[0]]) + Without(s[1..], key, k)
  }

  /** Multiplicity: every element whose key differs from `k` is kept as often as it occurs,
      and no other element is kept. */
  lemma {:induction false} WithoutCounts<T>(s: seq<T>, key: T -> string, k: string)
    ensures forall x :: multiset(Without(s, key, k))[x] == if key(x) != k then multiset(s)[x] else 0
    decreases |s|
  {
    if s != [] {
      var t := s[1..];
      var head := if key(s[0]) == k then [] else [s[0]];
      assert s == [s[0]] + t;
      assert multiset(s) == multiset{s[0]} + multiset(t);
      assert multiset(Without(s, key, k)) == multiset(head) + multiset(Without(t, key, k));
      WithoutCounts(t, key, k);
    }
  }

  /** Filtering commutes with concatenation, so the kept elements stay in their relative order. */
  lemma {:induction false} WithoutAppend<T>(a: seq<T>, b: seq<T>, key: T -> string, k: string)
    ensures Without(a + b, key, k) == Without(a, key, k) + Without(b, key, k)
    decreases |a|
  {
    if a == [] {
      assert a + b == b;
    } else {
      var head := if key(a[0]) == k then [] else [a[0]];
      assert (a + b)[0] == a[0] && (a + b)[1..] == a[1..] + b;
      assert Without(a + b, key, k) == head + Without(a[1..] + b, key, k);
      WithoutAppend(a[1..], b, key, k);
    }
  }

  /** A list in which no element carries the key is returned as it is. */
  lemma {:induction false} WithoutAbsent<T>(s: seq<T>, key: T -> string, k: string)
    requires forall x :: x in s ==> key(x) != k
    ensures Without(s, key, k) == s
    decreases |s|
  {
    if s != [] {
      assert forall x :: x in s[1..] ==> x in s;
      WithoutAbsent(s[1..], key, k);
    }
  }

  /** Removing twice removes nothing more. */
  lemma WithoutIdempotent<T>(s: seq<T>, key: T -> string, k: string)
    ensures Without(Without(s, key, k), key, k) == Without(s, key, k)
  {
    WithoutAbsent(Without(s, key, k), key, k);
  }

  /** Appending an element and then removing its key gives back a list that did not hold the key. */
  lemma AppendThenWithout<T>(s: seq<T>, x: T, key: T -> string)
    requires forall y :: y in s ==> key(y) != key(x)
    ensures Without(s + [x], key, key(x)) == s
  {
    WithoutAppend(s, [x], key, key(x));
    WithoutAbsent(s, key, key(x));
    assert Without([x], key, key(x)) == [] + Without([x][1..], key, key(x));
  }
}
