/** Insertion sort of the first elements of an array, as used by the region normaliser. */
module Sort {

  /** In order of `key`. */
  ghost predicate Ordered<T>(s: seq<T>, key: T -> int) {
    forall i, j | 0 <= i < j < |s| :: key(s[i]) <= key(s[j])
  }

  /** The elements with key v, in their order of appearance. */
  ghost function WithKey<T>(s: seq<T>, key: T -> int, v: int): seq<T> {
    if s == [] then []
    else
      var rest := WithKey(s[..|s| - 1], key, v);
      var x := s[|s| - 1];
      if key(x) == v then rest + [x] else rest
  }

  /** A permutation that keeps elements of equal key in their order. */
  ghost predicate StablePermutation<T>(s: seq<T>, t: seq<T>, key: T -> int) {
    multiset(s) == multiset(t) && forall v: int :: WithKey(s, key, v) == WithKey(t, key, v)
  }

  lemma {:induction false} WithKeyConcat<T>(a: seq<T>, b: seq<T>, key: T -> int, v: int)
    ensures WithKey(a + b, key, v) == WithKey(a, key, v) + WithKey(b, key, v)
    decreases |b|
  {
    if b == [] {
      assert a + b == a;
    } else {
      var c := b[..|b| - 1];
      assert (a + b)[..|a + b| - 1] == a + c;
      WithKeyConcat(a, c, key, v);
    }
  }

  lemma {:induction false} NoSuchKey<T>(s: seq<T>, key: T -> int, v: int)
    requires forall x | x in s :: key(x) != v
    ensures WithKey(s, key, v) == []
    decreases |s|
  {
    if s != [] {
      NoSuchKey(s[..|s| - 1], key, v);
    }
  }

  /** Moving x in front of a run of larger keys. */
  lemma InsertStable<T>(a: seq<T>, b: seq<T>, c: seq<T>, x: T, key: T -> int)
    requires forall y | y in b :: key(y) > key(x)
    ensures StablePermutation(a + b + [x] + c, a + [x] + b + c, key)
  {
    forall v: int ensures WithKey(a + b + [x] + c, key, v) == WithKey(a + [x] + b + c, key, v) {
      WithKeyConcat(a + b + [x], c, key, v);
      WithKeyConcat(a + b, [x], key, v);
      WithKeyConcat(a, b, key, v);
      WithKeyConcat(a + [x] + b, c, key, v);
      WithKeyConcat(a + [x], b, key, v);
      WithKeyConcat(a, [x], key, v);
      if v == key(x) {
        NoSuchKey(b, key, v);
      } else {
        NoSuchKey([x], key, v);
      }
    }
  }

  /** Shifts the larger elements before position i up by one; `j` is the gap. */
  method ShiftLarger<T>(a: array<T>, i: nat, elem: T, key: T -> int) returns (j: nat)
    requires i < a.Length
    modifies a
    ensures j <= i && (j > 0 ==> key(old(a[j - 1])) <= key(elem))
    ensures forall k | 0 <= k < j || i < k < a.Length :: a[k] == old(a[k])
    ensures forall k | j <= k < i :: a[k + 1] == old(a[k])
    ensures forall k | j <= k < i :: key(old(a[k])) > key(elem)
  {
    j := i;
    while j > 0 && key(a[j - 1]) > key(elem)
      invariant j <= i
      invariant forall k | 0 <= k < j || i < k < a.Length :: a[k] == old(a[k])
      invariant forall k | j <= k < i :: a[k + 1] == old(a[k])
      invariant forall k | j <= k < i :: key(old(a[k])) > key(elem)
    {
      a[j] := a[j - 1];
      j := j - 1;
    }
  }

  /** Places element i among the ordered elements before it. */
  method InsertElem<T>(a: array<T>, i: nat, key: T -> int)
    requires i < a.Length && Ordered(a[..i], key)
    modifies a
    ensures Ordered(a[..i + 1], key) && StablePermutation(old(a[..]), a[..], key)
    ensures a[i + 1..] == old(a[i + 1..])
  {
    var elem := a[i];
    ghost var b := a[..];
    var j := ShiftLarger(a, i, elem, key);
    a[j] := elem;
    Inserted(b, a[..], i, j, key);
  }

  /** c is b with element i moved down to position j. */
  ghost predicate Moved<T>(b: seq<T>, c: seq<T>, i: nat, j: nat) {
    && j <= i < |b| == |c|
    && c[j] == b[i]
    && (forall k | 0 <= k < j || i < k < |c| :: c[k] == b[k])
    && (forall k | j <= k < i :: c[k + 1] == b[k])
  }

  lemma Inserted<T>(b: seq<T>, c: seq<T>, i: nat, j: nat, key: T -> int)
    requires Moved(b, c, i, j) && Ordered(b[..i], key) && (j > 0 ==> key(b[j - 1]) <= key(b[i]))
    requires forall k | j <= k < i :: key(b[k]) > key(b[i])
    ensures Ordered(c[..i + 1], key) && StablePermutation(b, c, key) && c[i + 1..] == b[i + 1..]
  {
    MovedParts(b, c, i, j);
    InsertStable(b[..j], b[j..i], b[i + 1..], b[i], key);
    InsertedOrder(b, c, i, j, key);
  }

  lemma InsertedOrder<T>(b: seq<T>, c: seq<T>, i: nat, j: nat, key: T -> int)
    requires Moved(b, c, i, j) && Ordered(b[..i], key) && (j > 0 ==> key(b[j - 1]) <= key(b[i]))
    requires forall k | j <= k < i :: key(b[k]) > key(b[i])
    ensures Ordered(c[..i + 1], key)
  {
    forall p, q | 0 <= p < q < i + 1 ensures key(c[p]) <= key(c[q]) {
      if p < j && q == j {
        assert key(b[..i][p]) <= key(b[..i][j - 1]);
      } else if p == j {
        assert c[q] == b[q - 1];
      } else if p != j && q != j {
        assert key(b[..i][if p < j then p else p - 1]) <= key(b[..i][if q < j then q else q - 1]);
      }
    }
  }

  lemma MovedParts<T>(b: seq<T>, c: seq<T>, i: nat, j: nat)
    requires Moved(b, c, i, j)
    ensures b == b[..j] + b[j..i] + [b[i]] + b[i + 1..] && c == b[..j] + [b[i]] + b[j..i] + b[i + 1..]
  {
    assert c[..j] == b[..j];
    assert c[j + 1..i + 1] == b[j..i];
    assert c[i + 1..] == b[i + 1..];
    assert c == c[..j] + [c[j]] + c[j + 1..i + 1] + c[i + 1..];
  }

  /** Sorts the first n elements in place, stably; the others are not touched. */
  method InsertionSort<T>(a: array<T>, n: nat, key: T -> int)
    requires n <= a.Length
    modifies a
    ensures Ordered(a[..n], key) && StablePermutation(old(a[..n]), a[..n], key) && a[n..] == old(a[n..])
  {
    ghost var b := a[..];
    var i := 1;
    while i < n
      invariant 1 <= i && (i <= n || n == 0) && Ordered(a[..if n == 0 then 0 else i], key)
      invariant StablePermutation(b, a[..], key) && a[if n == 0 then 0 else i..] == b[if n == 0 then 0 else i..]
    {
      InsertElem(a, i, key);
      i := i + 1;
    }
    CutTail(b, a[..], n, key);
  }

  lemma CutSame<T>(a: seq<T>, b: seq<T>, c: seq<T>)
    requires a + c == b + c
    ensures a == b
  {
    assert |a| == |b|;
    assert a == (a + c)[..|a|] && b == (b + c)[..|a|];
  }

  lemma CutTail<T>(s: seq<T>, t: seq<T>, n: nat, key: T -> int)
    requires |s| == |t| && n <= |s| && s[n..] == t[n..] && StablePermutation(s, t, key)
    ensures StablePermutation(s[..n], t[..n], key)
  {
    assert s == s[..n] + s[n..] && t == t[..n] + t[n..];
    assert multiset(s[..n]) == multiset(s) - multiset(s[n..]);
    assert multiset(t[..n]) == multiset(t) - multiset(t[n..]);
    forall v: int ensures WithKey(s[..n], key, v) == WithKey(t[..n], key, v) {
      WithKeyConcat(s[..n], s[n..], key, v);
      WithKeyConcat(t[..n], t[n..], key, v);
      CutSame(WithKey(s[..n], key, v), WithKey(t[..n], key, v), WithKey(s[n..], key, v));
    }
  }
}
