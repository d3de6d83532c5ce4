/** Sequence helpers shared by the store model: distinctness, element sets and
    order-preserving removal, which is what unlinking a node from a doubly
    linked list does to the key order. */
module Seqs {

  /** No element occurs twice. */
  ghost predicate Distinct<T>(s: seq<T>) {
    forall i, j :: 0 <= i < j < |s| ==> s[i] != s[j]
  }

  /** The set of elements of a sequence. */
  function Elems<T>(s: seq<T>): set<T> {
    set x | x in s
  }

  function Last<T>(s: seq<T>): T
    requires |s| > 0
  {
    s[|s| - 1]
  }

  /** `s` with every occurrence of `x` removed, the rest in their original order. */
  function Without<T(==, !new)>(s: seq<T>, x: T): (r: seq<T>)
    ensures forall y :: y in r <==> y in s && y != x
    ensures Distinct(s) ==> Distinct(r)
    ensures |r| <= |s|
  {
    if |s| == 0 then []
    else if s[0] == x then Without(s[1..], x)
    else DistinctTail(s); [s[0]] + Without(s[1..], x)
  }

  /** The elements of `s` that lie in `keep`, in their original order. */
  function KeepOnly<T(==, !new)>(s: seq<T>, keep: set<T>): (r: seq<T>)
    ensures forall y :: y in r <==> y in s && y in keep
    ensures Distinct(s) ==> Distinct(r)
    ensures |r| <= |s|
  {
    if |s| == 0 then []
    else if s[0] in keep then DistinctTail(s); [s[0]] + KeepOnly(s[1..], keep)
    else KeepOnly(s[1..], keep)
  }

  /** The elements of a non-empty sequence are its head and those of its tail. */
  lemma ElemsCons<T>(s: seq<T>)
    requires |s| > 0
    ensures Elems(s) == {s[0]} + Elems(s[1..])
  {
    assert s == [s[0]] + s[1..];
  }

  /** Keeping nothing leaves nothing. */
  lemma KeepOnlyNothing<T(!new)>(s: seq<T>, keep: set<T>)
    requires keep == {}
    ensures KeepOnly(s, keep) == []
  {
  }

  /** Dropping the head keeps a sequence duplicate-free, and the head does not recur. */
  lemma DistinctTail<T>(s: seq<T>)
    requires |s| > 0
    ensures Distinct(s) ==> Distinct(s[1..]) && s[0] !in s[1..]
  {
    if Distinct(s) {
      var t := s[1..];
      forall i, j | 0 <= i < j < |t| ensures t[i] != t[j] {
        assert t[i] == s[i + 1] && t[j] == s[j + 1];
      }
    }
  }

  /** Putting a new element in front keeps a sequence duplicate-free. */
  lemma DistinctCons<T>(x: T, s: seq<T>)
    requires Distinct(s) && x !in s
    ensures Distinct([x] + s)
  {
    var t := [x] + s;
    forall i, j | 0 <= i < j < |t| ensures t[i] != t[j] {
      assert t[j] == s[j - 1];
      if i > 0 {
        assert t[i] == s[i - 1];
      }
    }
  }

  /** Moving an element to the front keeps a sequence duplicate-free. */
  lemma FrontWithoutDistinct<T(!new)>(x: T, s: seq<T>)
    ensures Distinct(s) ==> Distinct([x] + Without(s, x))
  {
    if Distinct(s) {
      DistinctCons(x, Without(s, x));
    }
  }

  /** Appending a new element keeps a sequence duplicate-free. */
  lemma DistinctSnoc<T>(s: seq<T>, x: T)
    requires Distinct(s) && x !in s
    ensures Distinct(s + [x])
  {
    var t := s + [x];
    forall i, j | 0 <= i < j < |t| ensures t[i] != t[j] {
      assert t[i] == s[i];
    }
  }

  /** In a sequence without duplicates, removing `x` deletes exactly the one
      position holding it: the remaining elements keep their relative order. */
  lemma {:induction false} WithoutAt<T(!new)>(s: seq<T>, i: nat)
    requires Distinct(s) && i < |s|
    ensures Without(s, s[i]) == s[..i] + s[i + 1..]
  {
    if i == 0 {
      assert s[0] !in s[1..];
      WithoutAbsent(s[1..], s[0]);
    } else {
      WithoutAt(s[1..], i - 1);
      assert s[1..][i - 1] == s[i];
      assert s[1..][..i - 1] + s[1..][i..] == s[1..i] + s[i + 1..];
      assert s[..i] == [s[0]] + s[1..i];
    }
  }

  /** Removing an element that does not occur changes nothing. */
  lemma {:induction false} WithoutAbsent<T(!new)>(s: seq<T>, x: T)
    requires x !in s
    ensures Without(s, x) == s
  {
    if |s| > 0 {
      assert s[0] != x;
      assert x !in s[1..];
      WithoutAbsent(s[1..], x);
      assert s == [s[0]] + s[1..];
    }
  }

  /** Removing the last element of a sequence without duplicates is dropping it. */
  lemma WithoutLast<T(!new)>(s: seq<T>)
    requires Distinct(s) && |s| > 0
    ensures Without(s, Last(s)) == s[..|s| - 1]
  {
    WithoutAt(s, |s| - 1);
    assert s[|s|..] == [];
  }

  /** Filtering after removing a key that the filter drops anyway is just filtering. */
  lemma {:induction false} KeepOnlyWithout<T(!new)>(s: seq<T>, x: T, keep: set<T>)
    requires x !in keep
    ensures KeepOnly(Without(s, x), keep) == KeepOnly(s, keep)
  {
    if |s| > 0 {
      KeepOnlyWithout(s[1..], x, keep);
      if s[0] != x {
        assert ([s[0]] + Without(s[1..], x))[1..] == Without(s[1..], x);
      }
    }
  }

  /** Keeping every element leaves a sequence unchanged. */
  lemma {:induction false} KeepOnlyAll<T(!new)>(s: seq<T>, keep: set<T>)
    requires forall y :: y in s ==> y in keep
    ensures KeepOnly(s, keep) == s
  {
    if |s| > 0 {
      var t := s[1..];
      assert s == [s[0]] + t;
      forall y | y in t ensures y in keep {
        assert y in s;
      }
      KeepOnlyAll(t, keep);
    }
  }

  /** A sequence without duplicates has as many elements as its element set. */
  lemma {:induction false} DistinctCard<T>(s: seq<T>)
    requires Distinct(s)
    ensures |Elems(s)| == |s|
  {
    if |s| > 0 {
      var t := s[1..];
      DistinctTail(s);
      DistinctCard(t);
      assert s[0] !in Elems(t);
      assert Elems(s) == {s[0]} + Elems(t);
    } else {
      assert Elems(s) == {};
    }
  }

  /** Filtering by two sets that agree on the elements of `s` gives the same result. */
  lemma {:induction false} KeepOnlySame<T(!new)>(s: seq<T>, a: set<T>, b: set<T>)
    requires forall y :: y in s ==> (y in a <==> y in b)
    ensures KeepOnly(s, a) == KeepOnly(s, b)
  {
    if |s| > 0 {
      assert s[0] in s;
      forall y | y in s[1..] ensures y in a <==> y in b {
        assert y in s;
      }
      KeepOnlySame(s[1..], a, b);
    }
  }

  /** `s` in the opposite order. */
  function Reverse<T>(s: seq<T>): (r: seq<T>)
    ensures |r| == |s|
  {
    if |s| == 0 then [] else Reverse(s[1..]) + [s[0]]
  }

  /** Element `i` of the reversal is element `|s| - 1 - i` of `s`. */
  lemma {:induction false} ReverseAt<T>(s: seq<T>, i: int)
    requires 0 <= i < |s|
    ensures Reverse(s)[i] == s[|s| - 1 - i]
    decreases |s|
  {
    if i < |s| - 1 {
      ReverseAt(s[1..], i);
    }
  }
  /** Reversing puts the head last. */
  lemma ReverseCons<T>(x: T, s: seq<T>)
    ensures Reverse([x] + s) == Reverse(s) + [x]
  {
    assert ([x] + s)[1..] == s;
  }

  /** Moving the head of a reversed prefix to the front of what follows it. */
  lemma ReverseConsThen<T>(x: T, s: seq<T>, rest: seq<T>)
    ensures Reverse([x] + s) + rest == Reverse(s) + ([x] + rest)
  {
    ReverseCons(x, s);
    assert Reverse(s) + [x] + rest == Reverse(s) + ([x] + rest);
  }

}
