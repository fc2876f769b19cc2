/** Sequence and set facts shared by the components. */
module Collections {

  /** No element occurs twice. */
  predicate Distinct<T(==)>(s: seq<T>)
  {
    forall i, j :: 0 <= i < j < |s| ==> s[i] != s[j]
  }

  /** `s` lists every element of `elems` exactly once, in some order
      (how the model reads the iteration order of a Rust `HashSet`). */
  predicate Enumerates<T(==)>(s: seq<T>, elems: set<T>)
  {
    && Distinct(s)
    && (forall i :: 0 <= i < |s| ==> s[i] in elems)
    && (forall x :: x in elems ==> x in s)
  }

  lemma {:induction false} DistinctCard<T>(s: seq<T>)
    requires Distinct(s)
    ensures |set x | x in s| == |s|
  {
    if s != [] {
      var last := s[|s| - 1];
      var init := s[..|s| - 1];
      DistinctCard(init);
      assert (set x | x in s) == (set x | x in init) + {last};
      assert last !in (set x | x in init);
    }
  }

  lemma EnumeratesCard<T>(s: seq<T>, elems: set<T>)
    requires Enumerates(s, elems)
    ensures |s| == |elems|
  {
    DistinctCard(s);
    assert (set x | x in s) == elems;
  }

  /** Lists a set in an arbitrary order: each loop step takes any element
      that is left. */
  method SetToSeq<T>(elems: set<T>) returns (s: seq<T>)
    ensures Enumerates(s, elems) && |s| == |elems|
  {
    s := [];
    var rest := elems;
    while rest != {}
      invariant rest <= elems
      invariant Distinct(s)
      invariant forall x :: x in s <==> x in elems && x !in rest
      decreases rest
    {
      var x :| x in rest;
      s := s + [x];
      rest := rest - {x};
    }
    EnumeratesCard(s, elems);
  }

  lemma ModWrap(k: int, r: int, n: int)
    requires 0 <= k < n && 0 <= r < n
    ensures (k + r) % n == if k + r < n then k + r else k + r - n
  {
    if k + r >= n {
      assert k + r == 1 * n + (k + r - n);
    }
  }

  /** The traversal order of an iterator that starts at position `r` and
      wraps around: item `k` is `s[(k + r) % |s|]`. */
  function Rotated<T>(s: seq<T>, r: nat): (t: seq<T>)
    requires r < |s|
    ensures |t| == |s|
    ensures t == s[r..] + s[..r]
  {
    var t := seq(|s|, k requires 0 <= k < |s| => s[(k + r) % |s|]);
    assert forall k | 0 <= k < |s| :: t[k] == (s[r..] + s[..r])[k] by {
      forall k | 0 <= k < |s| ensures t[k] == (s[r..] + s[..r])[k] {
        ModWrap(k, r, |s|);
      }
    }
    t
  }

  /** A rotated traversal visits every element exactly as often as it occurs. */
  lemma RotatedIsPermutation<T>(s: seq<T>, r: nat)
    requires r < |s|
    ensures multiset(Rotated(s, r)) == multiset(s)
    ensures forall x :: x in Rotated(s, r) <==> x in s
  {
    assert s == s[..r] + s[r..];
    assert multiset(s) == multiset(s[..r]) + multiset(s[r..]);
    assert forall x :: x in s <==> x in multiset(s);
    assert forall x :: x in Rotated(s, r) <==> x in multiset(Rotated(s, r));
  }

  /** A rotation of a sequence without duplicates has none either. */
  lemma RotatedDistinct<T>(s: seq<T>, r: nat)
    requires r < |s| && Distinct(s)
    ensures Distinct(Rotated(s, r))
  {
    var t := Rotated(s, r);
    var n := |s|;
    forall i, j | 0 <= i < j < n ensures t[i] != t[j] {
      ModWrap(i, r, n);
      ModWrap(j, r, n);
    }
  }

  /** Item `k` of a rotation is item `(k + r) % |s|` of the original. */
  lemma RotatedAt<T>(s: seq<T>, r: nat, k: nat)
    requires r < |s| && k < |s|
    ensures Rotated(s, r)[k] == s[(k + r) % |s|]
  {
    ModWrap(k, r, |s|);
  }

  /** A rotation of a sequence without duplicates lists each of its
      elements exactly once. */
  lemma RotatedEnumerates<T>(s: seq<T>, r: nat)
    requires r < |s| && Distinct(s)
    ensures Distinct(Rotated(s, r))
    ensures forall x :: x in s <==> exists k :: 0 <= k < |s| && Rotated(s, r)[k] == x
  {
    RotatedDistinct(s, r);
    RotatedIsPermutation(s, r);
  }

  /** Appending a new element extends an enumeration by that element. */
  lemma EnumeratesSnoc<T>(s: seq<T>, elems: set<T>, x: T)
    requires Enumerates(s, elems) && x !in elems
    ensures Enumerates(s + [x], elems + {x})
  {
  }

  /** A one-element enumeration is of a singleton. */
  lemma EnumeratesSingleton<T>(s: seq<T>, elems: set<T>)
    requires Enumerates(s, elems) && |s| == 1
    ensures elems == {s[0]}
  {
  }

  /** Enumerations of disjoint sets concatenate to one of their union. */
  lemma EnumeratesConcat<T>(a: seq<T>, xs: set<T>, b: seq<T>, ys: set<T>)
    requires Enumerates(a, xs) && Enumerates(b, ys) && xs !! ys
    ensures Enumerates(a + b, xs + ys)
  {
    var c := a + b;
    forall i, j | 0 <= i < j < |c| ensures c[i] != c[j] {
      if j < |a| {
      } else if i >= |a| {
        assert c[i] == b[i - |a|] && c[j] == b[j - |a|];
      } else {
        assert c[i] in xs && c[j] == b[j - |a|] && c[j] in ys;
      }
    }
  }
}
