/**
 * `Array.prototype.sort` with a comparator, as ECMA-262 (since its 2019
 * edition) specifies it: the sort is stable, so elements the comparator ranks
 * equal keep their input order. The sort is modelled as insertion sort; for a
 * consistent comparator SortIsDetermined shows that every sorted, stable
 * result is this one, so the choice of algorithm does not show in the result.
 */
module StableSort {
  import opened Seqs

  /**
   * ECMA-262's "consistent comparator" for a comparator that is a pure
   * function of its operands: the sign flips when the operands are swapped and
   * "at or before" is transitive.
   */
  ghost predicate Consistent<T(!new)>(cmp: (T, T) -> int)
  {
    && (forall a, b :: cmp(a, b) < 0 <==> cmp(b, a) > 0)
    && (forall a, b, c :: cmp(a, b) <= 0 && cmp(b, c) <= 0 ==> cmp(a, c) <= 0)
  }

  /** Every element is at or before every later element. */
  ghost predicate SortedBy<T>(s: seq<T>, cmp: (T, T) -> int)
  {
    forall i, j :: 0 <= i < j < |s| ==> cmp(s[i], s[j]) <= 0
  }

  /** The elements of `s` that the comparator ranks equal to `p`, in their order in `s`. */
  function Peers<T(!new)>(s: seq<T>, p: T, cmp: (T, T) -> int): seq<T>
  {
    Filter(s, x => cmp(x, p) == 0)
  }

  /** Puts `x` in front of the first element it is at or before. */
  function Insert<T>(x: T, s: seq<T>, cmp: (T, T) -> int): (r: seq<T>)
    ensures multiset(r) == multiset(s) + multiset{x}
  {
    if s == [] then [x]
    else if cmp(x, s[0]) <= 0 then [x] + s
    else
      assert s == [s[0]] + s[1..];
      [s[0]] + Insert(x, s[1..], cmp)
  }

  /** Sorts `s` by `cmp`; the result is a permutation of `s` whatever `cmp` is. */
  function Sort<T>(s: seq<T>, cmp: (T, T) -> int): (r: seq<T>)
    ensures multiset(r) == multiset(s)
  {
    if s == [] then []
    else
      assert s == [s[0]] + s[1..];
      Insert(s[0], Sort(s[1..], cmp), cmp)
  }

  /** A consistent comparator ranks every element equal to itself. */
  lemma Reflexive<T(!new)>(cmp: (T, T) -> int, a: T)
    requires Consistent(cmp)
    ensures cmp(a, a) == 0
  {
    assert cmp(a, a) < 0 <==> cmp(a, a) > 0;
  }

  /** Peers of a list with a head element. */
  lemma PeersCons<T(!new)>(x: T, t: seq<T>, p: T, cmp: (T, T) -> int)
    ensures Peers([x] + t, p, cmp) == (if cmp(x, p) == 0 then [x] else []) + Peers(t, p, cmp)
  {
    assert ([x] + t)[1..] == t;
  }

  lemma {:induction false} InsertSorted<T(!new)>(x: T, s: seq<T>, cmp: (T, T) -> int)
    requires Consistent(cmp) && SortedBy(s, cmp)
    ensures SortedBy(Insert(x, s, cmp), cmp)
  {
    if s != [] && cmp(x, s[0]) > 0 {
      InsertSorted(x, s[1..], cmp);
      var r := Insert(x, s, cmp);
      forall i, j | 0 <= i < j < |r| ensures cmp(r[i], r[j]) <= 0 {
        if i == 0 {
          assert r[j] in multiset(Insert(x, s[1..], cmp));
          assert r[j] == x || r[j] in s[1..];
        }
      }
    }
  }

  /** The result of Sort is sorted when the comparator is consistent. */
  lemma {:induction false} SortSorted<T(!new)>(s: seq<T>, cmp: (T, T) -> int)
    requires Consistent(cmp)
    ensures SortedBy(Sort(s, cmp), cmp)
  {
    if s != [] {
      SortSorted(s[1..], cmp);
      InsertSorted(s[0], Sort(s[1..], cmp), cmp);
    }
  }

  /** Inserting `x` places it in front of all its peers. */
  lemma {:induction false} InsertPeers<T(!new)>(x: T, s: seq<T>, p: T, cmp: (T, T) -> int)
    requires Consistent(cmp)
    ensures Peers(Insert(x, s, cmp), p, cmp) == Peers([x] + s, p, cmp)
  {
    if s != [] && cmp(x, s[0]) > 0 {
      InsertPeers(x, s[1..], p, cmp);
      PeersCons(s[0], Insert(x, s[1..], cmp), p, cmp);
      PeersCons(x, s[1..], p, cmp);
      PeersCons(x, s, p, cmp);
      PeersCons(s[0], s[1..], p, cmp);
      assert [s[0]] + s[1..] == s;
      assert !(cmp(x, p) == 0 && cmp(s[0], p) == 0);
    }
  }

  /** Sorting is stable: the peers of any element appear in the result in their input order. */
  lemma {:induction false} SortStable<T(!new)>(s: seq<T>, p: T, cmp: (T, T) -> int)
    requires Consistent(cmp)
    ensures Peers(Sort(s, cmp), p, cmp) == Peers(s, p, cmp)
  {
    if s != [] {
      SortStable(s[1..], p, cmp);
      InsertPeers(s[0], Sort(s[1..], cmp), p, cmp);
      PeersCons(s[0], Sort(s[1..], cmp), p, cmp);
      PeersCons(s[0], s[1..], p, cmp);
      assert [s[0]] + s[1..] == s;
    }
  }

  /** An element is among its own peers in any list that holds it. */
  lemma InOwnPeers<T(!new)>(s: seq<T>, x: T, cmp: (T, T) -> int)
    requires Consistent(cmp) && x in s
    ensures x in Peers(s, x, cmp)
  {
    Reflexive(cmp, x);
  }

  /** The head of a sorted list is at or before each of its elements. */
  lemma HeadFirst<T(!new)>(r: seq<T>, x: T, cmp: (T, T) -> int)
    requires Consistent(cmp) && SortedBy(r, cmp) && x in r
    ensures cmp(r[0], x) <= 0
  {
    var j :| 0 <= j < |r| && r[j] == x;
    if j == 0 {
      Reflexive(cmp, x);
    }
  }

  /** Sorted lists with the same peers everywhere start with the same element. */
  lemma SortedPeersSameHead<T(!new)>(r1: seq<T>, r2: seq<T>, cmp: (T, T) -> int)
    requires Consistent(cmp) && SortedBy(r1, cmp) && SortedBy(r2, cmp) && r1 != [] && r2 != []
    requires forall p :: Peers(r1, p, cmp) == Peers(r2, p, cmp)
    ensures r1[0] == r2[0]
  {
    var a, b := r1[0], r2[0];
    InOwnPeers(r2, b, cmp);
    assert Peers(r1, b, cmp) == Peers(r2, b, cmp);
    assert b in r1;
    HeadFirst(r1, b, cmp);
    InOwnPeers(r1, a, cmp);
    assert Peers(r1, a, cmp) == Peers(r2, a, cmp);
    assert a in r2;
    HeadFirst(r2, a, cmp);
    assert cmp(b, a) == 0;
    Reflexive(cmp, a);
    PeersCons(a, r1[1..], a, cmp);
    PeersCons(b, r2[1..], a, cmp);
    assert [a] + r1[1..] == r1 && [b] + r2[1..] == r2;
    assert Peers(r1, a, cmp)[0] == a;
    assert Peers(r2, a, cmp)[0] == b;
  }

  /** Two sorted lists in which every element has the same peers in the same order are equal. */
  lemma {:induction false} SortedPeersUnique<T(!new)>(r1: seq<T>, r2: seq<T>, cmp: (T, T) -> int)
    requires Consistent(cmp) && SortedBy(r1, cmp) && SortedBy(r2, cmp)
    requires forall p :: Peers(r1, p, cmp) == Peers(r2, p, cmp)
    ensures r1 == r2
    decreases |r1|
  {
    if r1 == [] && r2 != [] {
      InOwnPeers(r2, r2[0], cmp);
    } else if r1 != [] && r2 == [] {
      InOwnPeers(r1, r1[0], cmp);
    } else if r1 != [] {
      SortedPeersSameHead(r1, r2, cmp);
      var a := r1[0];
      forall p ensures Peers(r1[1..], p, cmp) == Peers(r2[1..], p, cmp) {
        PeersCons(a, r1[1..], p, cmp);
        PeersCons(a, r2[1..], p, cmp);
        assert [a] + r1[1..] == r1 && [a] + r2[1..] == r2;
        assert Peers(r1, p, cmp) == Peers(r2, p, cmp);
        var head: seq<T> := if cmp(a, p) == 0 then [a] else [];
        assert Peers(r1[1..], p, cmp) == Peers(r1, p, cmp)[|head|..];
        assert Peers(r2[1..], p, cmp) == Peers(r2, p, cmp)[|head|..];
      }
      SortedPeersUnique(r1[1..], r2[1..], cmp);
      assert r1 == [a] + r1[1..] && r2 == [a] + r2[1..];
    }
  }

  /**
   * The result is fully determined: any sorted list that keeps the input order
   * among peers is the result of Sort.
   */
  lemma SortIsDetermined<T(!new)>(s: seq<T>, r: seq<T>, cmp: (T, T) -> int)
    requires Consistent(cmp) && SortedBy(r, cmp)
    requires forall p :: Peers(r, p, cmp) == Peers(s, p, cmp)
    ensures r == Sort(s, cmp)
  {
    SortSorted(s, cmp);
    forall p ensures Peers(r, p, cmp) == Peers(Sort(s, cmp), p, cmp) {
      SortStable(s, p, cmp);
    }
    SortedPeersUnique(r, Sort(s, cmp), cmp);
  }

  /** Sorting a list that is already sorted leaves it unchanged. */
  lemma SortSortedIsIdentity<T(!new)>(s: seq<T>, cmp: (T, T) -> int)
    requires Consistent(cmp) && SortedBy(s, cmp)
    ensures Sort(s, cmp) == s
  {
    SortIsDetermined(s, s, cmp);
  }

  /** Insert only looks at the comparator on `x` and the elements of `s`. */
  lemma {:induction false} InsertAgrees<T>(x: T, s: seq<T>, cmp1: (T, T) -> int, cmp2: (T, T) -> int)
    requires forall y :: y in s ==> cmp1(x, y) == cmp2(x, y)
    ensures Insert(x, s, cmp1) == Insert(x, s, cmp2)
  {
    if s != [] {
      InsertAgrees(x, s[1..], cmp1, cmp2);
    }
  }

  /** Two comparators that agree on the elements of `s` sort `s` the same way. */
  lemma {:induction false} SortAgrees<T>(s: seq<T>, cmp1: (T, T) -> int, cmp2: (T, T) -> int)
    requires forall a, b :: a in s && b in s ==> cmp1(a, b) == cmp2(a, b)
    ensures Sort(s, cmp1) == Sort(s, cmp2)
  {
    if s != [] {
      SortAgrees(s[1..], cmp1, cmp2);
      var sorted := Sort(s[1..], cmp1);
      forall y | y in sorted ensures cmp1(s[0], y) == cmp2(s[0], y) {
        assert y in multiset(sorted);
      }
      InsertAgrees(s[0], sorted, cmp1, cmp2);
    }
  }

  /** A comparator that puts three values before one another in a cycle is not consistent. */
  lemma NotConsistentOnCycle<T(!new)>(cmp: (T, T) -> int, a: T, b: T, c: T)
    requires cmp(c, a) < 0 && cmp(a, b) < 0 && cmp(b, c) < 0
    ensures !Consistent(cmp)
  {
  }

  /** A sorted pair `b`, `c` with `b` at or before `c` stays as it is. */
  lemma SortTwo<T>(b: T, c: T, cmp: (T, T) -> int)
    requires cmp(b, c) <= 0
    ensures Sort([b, c], cmp) == [b, c]
  {
    assert [b, c][1..] == [c] && [c][1..] == [];
  }

  /** Inserting `a` after `b` and before `c`. */
  lemma InsertMiddle<T>(a: T, b: T, c: T, cmp: (T, T) -> int)
    requires cmp(a, b) > 0 && cmp(a, c) <= 0
    ensures Insert(a, [b, c], cmp) == [b, a, c]
  {
    assert [b, c][1..] == [c];
    assert Insert(a, [c], cmp) == [a, c];
  }

  /** How insertion sort orders three elements `a`, `b`, `c` when `b < c`, `a > b` and `a <= c`. */
  lemma SortThree<T>(a: T, b: T, c: T, cmp: (T, T) -> int)
    requires cmp(b, c) <= 0 && cmp(a, b) > 0 && cmp(a, c) <= 0
    ensures Sort([a, b, c], cmp) == [b, a, c]
  {
    assert [a, b, c][1..] == [b, c];
    SortTwo(b, c, cmp);
    InsertMiddle(a, b, c, cmp);
  }
}
