/** `IPList` from waitfor.go: a list of resolved addresses that compares equal
    to another list when both hold the same addresses, in whatever order.

    An address is modelled by its `net.IP.String()` form. Those forms are never
    empty (a missing address prints as "<nil>") and never contain a comma, which
    is what makes the comma-joined rendering a faithful fingerprint of the list.
 */
module IpList {
  import opened Text

  /** An address, as its `String()` form. */
  type Addr = string

  /** A form that `net.IP.String()` can produce: non-empty, no comma. */
  predicate ValidAddr(a: Addr) {
    a != [] && ',' !in a
  }

  predicate WellFormed(l: seq<Addr>) {
    Separable(l, ',')
  }

  /** IPList.Less: the ordering `sort.Sort` uses, which puts `a` first exactly
      when it sorts before `b` in dictionary order. */
  function Less(a: Addr, b: Addr): (r: bool)
    ensures r <==> Before(a, b)
  {
    CompareNegativeIsBefore(a, b);
    Compare(a, b) < 0
  }

  /** Sorted in the sense of Go's `sort.IsSorted`: no later element is Less
      than an earlier one. */
  predicate Sorted(l: seq<Addr>) {
    forall i, j :: 0 <= i < j < |l| ==> !Less(l[j], l[i])
  }

  /** Less is a strict total order on addresses, so sorting by it is well defined. */
  lemma LessIsStrictTotalOrder(a: Addr, b: Addr, c: Addr)
    ensures !Less(a, a)
    ensures Less(a, b) ==> !Less(b, a)
    ensures Less(a, b) && Less(b, c) ==> Less(a, c)
    ensures a != b ==> Less(a, b) || Less(b, a)
  {
    CompareZeroIsEquality(a, a);
    CompareZeroIsEquality(a, b);
    CompareAntisymmetric(a, b);
    if Less(a, b) && Less(b, c) {
      CompareTransitive(a, b, c);
      CompareZeroIsEquality(a, c);
      CompareAntisymmetric(a, c);
      CompareAntisymmetric(b, c);
      CompareAntisymmetric(b, a);
    }
  }

  /** Sortedness phrased through Compare. */
  lemma SortedCompare(l: seq<Addr>, i: int, j: int)
    requires Sorted(l) && 0 <= i <= j < |l|
    ensures Compare(l[i], l[j]) <= 0
  {
    CompareZeroIsEquality(l[i], l[i]);
    CompareAntisymmetric(l[j], l[i]);
  }

  /** Insert `x` before the first element not Less than it. */
  function Insert(x: Addr, l: seq<Addr>): (r: seq<Addr>)
    ensures multiset(r) == multiset(l) + multiset{x}
    ensures |r| == |l| + 1
  {
    if l == [] then [x]
    else if !Less(l[0], x) then [x] + l
    else
      assert l == [l[0]] + l[1..];
      [l[0]] + Insert(x, l[1..])
  }

  /** The tail of a sorted list is sorted. */
  lemma SortedTail(l: seq<Addr>)
    requires Sorted(l) && l != []
    ensures Sorted(l[1..])
  {
    forall i, j | 0 <= i < j < |l[1..]| ensures !Less(l[1..][j], l[1..][i]) {
      assert l[1..][j] == l[j + 1] && l[1..][i] == l[i + 1];
    }
  }

  /** Putting an address in front of a sorted list that it does not exceed
      keeps the list sorted. */
  lemma {:induction false} InsertAtFront(x: Addr, l: seq<Addr>)
    requires Sorted(l) && l != [] && !Less(l[0], x)
    ensures Sorted([x] + l)
  {
    forall i, j | 0 <= i < j < |[x] + l| ensures !Less(([x] + l)[j], ([x] + l)[i]) {
      if i == 0 {
        SortedCompare(l, 0, j - 1);
        CompareAntisymmetric(l[0], x);
        CompareTransitive(x, l[0], l[j - 1]);
        CompareAntisymmetric(x, l[j - 1]);
      }
    }
  }

  /** Keeping the head of a sorted list in front of a sorted list with the
      same elements as its tail plus an address the head is Less than keeps
      the whole sorted. */
  lemma {:induction false} InsertBehindHead(x: Addr, l: seq<Addr>, rest: seq<Addr>)
    requires Sorted(l) && l != [] && Less(l[0], x)
    requires Sorted(rest) && multiset(rest) == multiset(l[1..]) + multiset{x}
    ensures Sorted([l[0]] + rest)
  {
    forall i, j | 0 <= i < j < |[l[0]] + rest| ensures !Less(([l[0]] + rest)[j], ([l[0]] + rest)[i]) {
      if i == 0 {
        var y := rest[j - 1];
        assert y in multiset(rest);
        if y == x {
          CompareAntisymmetric(l[0], x);
        } else {
          assert y in multiset(l[1..]);
          var k :| 0 <= k < |l[1..]| && l[1..][k] == y;
          assert l[k + 1] == y;
          CompareAntisymmetric(y, l[0]);
        }
      } else {
        assert ([l[0]] + rest)[j] == rest[j - 1] && ([l[0]] + rest)[i] == rest[i - 1];
      }
    }
  }

  /** Inserting into a sorted list keeps it sorted. */
  lemma {:induction false} InsertSorted(x: Addr, l: seq<Addr>)
    requires Sorted(l)
    ensures Sorted(Insert(x, l))
  {
    if l == [] {
    } else if !Less(l[0], x) {
      InsertAtFront(x, l);
    } else {
      SortedTail(l);
      InsertSorted(x, l[1..]);
      InsertBehindHead(x, l, Insert(x, l[1..]));
    }
  }

  /** sort.Sort over IPList.Less, as an insertion sort. Since Less is a strict
      total order the sorted arrangement is unique (SortedUnique), so any
      correct sorting algorithm gives the same list. */
  function Sort(l: seq<Addr>): (r: seq<Addr>)
    ensures multiset(r) == multiset(l)
  {
    if l == [] then []
    else
      assert l == [l[0]] + l[1..];
      Insert(l[0], Sort(l[1..]))
  }

  /** Sort produces a sorted list. */
  lemma {:induction false} SortSorted(l: seq<Addr>)
    ensures Sorted(Sort(l))
  {
    if l != [] {
      SortSorted(l[1..]);
      InsertSorted(l[0], Sort(l[1..]));
    }
  }

  /** The first element of a sorted list sorts no later than any element. */
  lemma {:induction false} SortedHeadIsLeast(l: seq<Addr>, y: Addr)
    requires Sorted(l) && |l| > 0 && y in multiset(l)
    ensures Compare(l[0], y) <= 0
  {
    var k :| 0 <= k < |l| && l[k] == y;
    SortedCompare(l, 0, k);
  }

  /** Two sorted lists with the same elements are the same list: the result of
      sorting does not depend on the algorithm or on the input order. */
  lemma {:induction false} SortedUnique(a: seq<Addr>, b: seq<Addr>)
    requires Sorted(a) && Sorted(b)
    requires multiset(a) == multiset(b)
    ensures a == b
  {
    if a != [] {
      assert |b| == |a| by {
        assert |multiset(a)| == |a| && |multiset(b)| == |b|;
      }
      assert a[0] in multiset(b);
      assert b[0] in multiset(a);
      SortedHeadIsLeast(a, b[0]);
      SortedHeadIsLeast(b, a[0]);
      CompareAntisymmetric(a[0], b[0]);
      CompareZeroIsEquality(a[0], b[0]);
      assert a == [a[0]] + a[1..];
      assert b == [b[0]] + b[1..];
      assert multiset(a) == multiset{a[0]} + multiset(a[1..]);
      assert multiset(b) == multiset{b[0]} + multiset(b[1..]);
      assert a[0] == b[0];
      assert multiset(a[1..]) == multiset(a) - multiset{a[0]};
      assert multiset(b[1..]) == multiset(b) - multiset{b[0]};
      assert Sorted(a[1..]) by {
        forall i, j | 0 <= i < j < |a[1..]| ensures !Less(a[1..][j], a[1..][i]) {
          assert a[1..][j] == a[j + 1] && a[1..][i] == a[i + 1];
        }
      }
      assert Sorted(b[1..]) by {
        forall i, j | 0 <= i < j < |b[1..]| ensures !Less(b[1..][j], b[1..][i]) {
          assert b[1..][j] == b[j + 1] && b[1..][i] == b[i + 1];
        }
      }
      SortedUnique(a[1..], b[1..]);
    } else {
      assert |multiset(b)| == 0;
    }
  }

  /** IPList.String: the addresses in sorted order, joined with commas. Every
      sorted arrangement of the same addresses gives this same string, so it
      does not depend on how `sort.Sort` arranges them. */
  function ToString(l: seq<Addr>): (s: string)
    ensures exists sorted :: Sorted(sorted) && multiset(sorted) == multiset(l) && s == Join(sorted, ",")
    ensures forall sorted :: Sorted(sorted) && multiset(sorted) == multiset(l) ==> s == Join(sorted, ",")
  {
    SortSorted(l);
    assert forall sorted :: Sorted(sorted) && multiset(sorted) == multiset(l) ==> Sort(l) == sorted by {
      forall sorted | Sorted(sorted) && multiset(sorted) == multiset(l) ensures Sort(l) == sorted {
        SortedUnique(Sort(l), sorted);
      }
    }
    Join(Sort(l), ",")
  }

  /** Sorting keeps a list well formed. */
  lemma SortWellFormed(l: seq<Addr>)
    requires WellFormed(l)
    ensures WellFormed(Sort(l))
  {
    var s := Sort(l);
    forall i | 0 <= i < |s| ensures s[i] != [] && ',' !in s[i] {
      assert s[i] in multiset(s);
      assert s[i] in multiset(l);
    }
  }

  /** The rendering of a list of real addresses determines the addresses and
      their multiplicities. */
  lemma {:induction false} RenderingDeterminesAddresses(l: seq<Addr>, r: seq<Addr>)
    ensures WellFormed(l) && WellFormed(r) && ToString(l) == ToString(r) ==> multiset(l) == multiset(r)
  {
    if WellFormed(l) && WellFormed(r) && ToString(l) == ToString(r) {
      SortWellFormed(l);
      SortWellFormed(r);
      JoinInjective(Sort(l), Sort(r), ',');
    }
  }

  /** IPList.Equals: equal renderings. Reordering the same addresses never
      counts as a change; for real address lists, Equals holds only when both
      hold the same addresses with the same multiplicities, so an added,
      removed, substituted or duplicated address is a change. */
  function Equals(l: seq<Addr>, r: seq<Addr>): (b: bool)
    ensures multiset(l) == multiset(r) ==> b
    ensures WellFormed(l) && WellFormed(r) && b ==> multiset(l) == multiset(r)
  {
    SortSorted(r);
    RenderingDeterminesAddresses(l, r);
    ToString(l) == ToString(r)
  }

  /** A duplicated address is a change, even though the set of addresses is the same. */
  lemma DuplicateIsChange(a: Addr)
    requires ValidAddr(a)
    ensures !Equals([a], [a, a])
  {
    assert multiset([a])[a] == 1;
    assert multiset([a, a])[a] == 2;
  }
}
