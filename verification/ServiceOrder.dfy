/**
 The order in which a release's services are started and stopped
 (infrastructure/deployment/release_control.py, `services`): a stable sort on `start_order`,
 descending for stopping.
 */
module ServiceOrder {

  datatype Service = Service(unit: string, startOrder: int, stopTimeoutSeconds: int)

  /** Whether `a` may stand before `b`. */
  predicate Precedes(a: Service, b: Service, descending: bool) {
    if descending then a.startOrder >= b.startOrder else a.startOrder <= b.startOrder
  }

  function Insert(x: Service, s: seq<Service>, descending: bool): seq<Service> {
    if s == [] || Precedes(x, s[0], descending) then [x] + s
    else [s[0]] + Insert(x, s[1..], descending)
  }

  /** Python's `sorted` with `reverse`: stable in both directions. */
  function Sorted(s: seq<Service>, descending: bool): seq<Service> {
    if s == [] then [] else Insert(s[0], Sorted(s[1..], descending), descending)
  }

  /** The services with one given start order, in the order they are listed. */
  function WithOrder(s: seq<Service>, k: int): seq<Service> {
    if s == [] then []
    else (if s[0].startOrder == k then [s[0]] else []) + WithOrder(s[1..], k)
  }

  function Reverse(s: seq<Service>): seq<Service> {
    if s == [] then [] else Reverse(s[1..]) + [s[0]]
  }

  ghost predicate IsSorted(s: seq<Service>, descending: bool) {
    forall i, j | 0 <= i < j < |s| :: Precedes(s[i], s[j], descending)
  }

  lemma {:induction false} InsertIsSorted(x: Service, s: seq<Service>, descending: bool)
    requires IsSorted(s, descending)
    ensures IsSorted(Insert(x, s, descending), descending)
    ensures forall y :: y in Insert(x, s, descending) <==> y == x || y in s
  {
    if s != [] && !Precedes(x, s[0], descending) {
      InsertIsSorted(x, s[1..], descending);
      var tail := Insert(x, s[1..], descending);
      assert s == [s[0]] + s[1..];
      forall y | y in tail
        ensures Precedes(s[0], y, descending)
      {
        if y != x {
          var i :| 0 <= i < |s[1..]| && s[1..][i] == y;
          assert s[i + 1] == y;
        }
      }
    }
  }

  lemma WithOrderCons(x: Service, s: seq<Service>, k: int)
    ensures WithOrder([x] + s, k) == (if x.startOrder == k then [x] else []) + WithOrder(s, k)
  {
    assert ([x] + s)[1..] == s;
  }

  lemma {:induction false} InsertWithOrder(x: Service, s: seq<Service>, k: int, descending: bool)
    ensures WithOrder(Insert(x, s, descending), k) == (if x.startOrder == k then [x] else []) + WithOrder(s, k)
  {
    if s == [] || Precedes(x, s[0], descending) {
      WithOrderCons(x, s, k);
    } else {
      InsertWithOrder(x, s[1..], k, descending);
      WithOrderCons(s[0], Insert(x, s[1..], descending), k);
      assert s[0].startOrder == k ==> x.startOrder != k;
    }
  }

  /** The result is sorted, and services with equal start order keep their listed order. */
  lemma {:induction false} SortedIsStable(s: seq<Service>, k: int, descending: bool)
    ensures IsSorted(Sorted(s, descending), descending)
    ensures WithOrder(Sorted(s, descending), k) == WithOrder(s, k)
  {
    if s != [] {
      SortedIsStable(s[1..], k, descending);
      InsertIsSorted(s[0], Sorted(s[1..], descending), descending);
      InsertWithOrder(s[0], Sorted(s[1..], descending), k, descending);
    }
  }

  lemma {:induction false} SortedHasSame(s: seq<Service>, descending: bool)
    ensures IsSorted(Sorted(s, descending), descending)
    ensures forall y :: y in Sorted(s, descending) <==> y in s
  {
    if s != [] {
      SortedHasSame(s[1..], descending);
      InsertIsSorted(s[0], Sorted(s[1..], descending), descending);
      assert s == [s[0]] + s[1..];
    }
  }

  /** Services stop with start orders going down and start with start orders going up. */
  lemma SortedDirections(s: seq<Service>, i: nat, j: nat)
    requires i < j
    ensures j < |Sorted(s, true)| ==> Sorted(s, true)[i].startOrder >= Sorted(s, true)[j].startOrder
    ensures j < |Sorted(s, false)| ==> Sorted(s, false)[i].startOrder <= Sorted(s, false)[j].startOrder
  {
    SortedHasSame(s, true);
    SortedHasSame(s, false);
    assert j < |Sorted(s, true)| ==> Precedes(Sorted(s, true)[i], Sorted(s, true)[j], true);
    assert j < |Sorted(s, false)| ==> Precedes(Sorted(s, false)[i], Sorted(s, false)[j], false);
  }

  lemma {:induction false} WithOrderContents(s: seq<Service>, k: int)
    ensures forall y :: y in WithOrder(s, k) <==> y in s && y.startOrder == k
    ensures |WithOrder(s, k)| <= |s|
  {
    if s != [] {
      WithOrderContents(s[1..], k);
      assert s == [s[0]] + s[1..];
    }
  }

  lemma {:induction false} WithOrderAppend(s: seq<Service>, x: Service, k: int)
    ensures WithOrder(s + [x], k) == WithOrder(s, k) + if x.startOrder == k then [x] else []
  {
    if s == [] {
      assert s + [x] == [x] && [x][1..] == [];
    } else {
      WithOrderAppend(s[1..], x, k);
      assert (s + [x])[1..] == s[1..] + [x];
    }
  }

  lemma {:induction false} ReverseWithOrder(s: seq<Service>, k: int)
    ensures WithOrder(Reverse(s), k) == Reverse(WithOrder(s, k))
  {
    if s != [] {
      ReverseWithOrder(s[1..], k);
      WithOrderAppend(Reverse(s[1..]), s[0], k);
      var w := WithOrder(s[1..], k);
      if s[0].startOrder == k {
        assert ([s[0]] + w)[1..] == w;
      } else {
        assert [] + w == w;
      }
    }
  }

  lemma {:induction false} ReverseAt(s: seq<Service>)
    ensures |Reverse(s)| == |s|
    ensures forall i | 0 <= i < |s| :: Reverse(s)[i] == s[|s| - 1 - i]
  {
    if s != [] {
      ReverseAt(s[1..]);
    }
  }

  lemma SameHead(a: seq<Service>, b: seq<Service>, descending: bool)
    requires IsSorted(a, descending) && IsSorted(b, descending)
    requires forall k :: WithOrder(a, k) == WithOrder(b, k)
    requires a != []
    ensures b != [] && a[0] == b[0]
  {
    hide WithOrder;
    SameMembers(a, b, a[0]);
    SameMembers(b, a, b[0]);
    var i :| 0 <= i < |b| && b[i] == a[0];
    var j :| 0 <= j < |a| && a[j] == b[0];
    assert a[0].startOrder == b[0].startOrder;
    HeadOfGroup(a);
    HeadOfGroup(b);
  }

  lemma SameMembers(a: seq<Service>, b: seq<Service>, x: Service)
    requires forall k :: WithOrder(a, k) == WithOrder(b, k)
    requires x in a
    ensures x in b
  {
    WithOrderContents(a, x.startOrder);
    WithOrderContents(b, x.startOrder);
  }

  lemma HeadOfGroup(s: seq<Service>)
    requires s != []
    ensures WithOrder(s, s[0].startOrder) != [] && WithOrder(s, s[0].startOrder)[0] == s[0]
  {
  }

  /** A sorted sequence is determined by its groups of equal start order. */
  lemma {:induction false} GroupsDetermine(a: seq<Service>, b: seq<Service>, descending: bool)
    requires IsSorted(a, descending) && IsSorted(b, descending)
    requires forall k :: WithOrder(a, k) == WithOrder(b, k)
    ensures a == b
  {
    if a == [] && b == [] {
    } else if a == [] {
      SameHead(b, a, descending);
    } else {
      SameHead(a, b, descending);
      var x, restA, restB := a[0], a[1..], b[1..];
      assert a == [x] + restA && b == [x] + restB;
      forall k
        ensures WithOrder(restA, k) == WithOrder(restB, k)
      {
        WithOrderCons(x, restA, k);
        WithOrderCons(x, restB, k);
        var head := if x.startOrder == k then [x] else [];
        assert WithOrder(restA, k) == WithOrder(a, k)[|head|..];
        assert WithOrder(restB, k) == WithOrder(b, k)[|head|..];
      }
      GroupsDetermine(restA, restB, descending);
    }
  }

  ghost predicate Distinct(s: seq<Service>) {
    forall i, j | 0 <= i < j < |s| :: s[i] != s[j]
  }

  ghost predicate DistinctOrders(s: seq<Service>) {
    forall i, j | 0 <= i < j < |s| :: s[i].startOrder != s[j].startOrder
  }

  lemma {:induction false} NoGroup(s: seq<Service>, k: int)
    requires forall i | 0 <= i < |s| :: s[i].startOrder != k
    ensures WithOrder(s, k) == []
  {
    if s != [] {
      NoGroup(s[1..], k);
    }
  }

  lemma {:induction false} GroupOfDistinct(s: seq<Service>, k: int)
    ensures Distinct(s) ==> Distinct(WithOrder(s, k))
    ensures DistinctOrders(s) ==> |WithOrder(s, k)| <= 1
    ensures |WithOrder(s, k)| <= 1 ==> forall i, j | 0 <= i < j < |s| :: !(s[i].startOrder == s[j].startOrder == k)
  {
    if s != [] {
      var tail := s[1..];
      GroupOfDistinct(tail, k);
      WithOrderContents(tail, k);
      assert forall i | 0 < i < |s| :: s[i] == tail[i - 1];
      if s[0].startOrder == k {
        assert WithOrder(s, k) == [s[0]] + WithOrder(tail, k);
        if |WithOrder(s, k)| <= 1 {
          forall j | 0 < j < |s|
            ensures s[j].startOrder != k
          {
            assert tail[j - 1] !in WithOrder(tail, k);
          }
        }
        if Distinct(s) {
          assert s[0] !in WithOrder(tail, k);
        }
        if DistinctOrders(s) {
          NoGroup(tail, k);
        }
      }
    }
  }

  /** Every group of services with equal start order reads the same backwards. */
  ghost predicate Symmetric(s: seq<Service>) {
    forall k :: WithOrder(s, k) == Reverse(WithOrder(s, k))
  }

  /** Services stop in exactly the reverse of their start order if and only if their groups are symmetric. */
  lemma StopOrderReversesStartOrder(s: seq<Service>)
    ensures Sorted(s, true) == Reverse(Sorted(s, false)) <==> Symmetric(s)
  {
    hide Sorted, WithOrder, Reverse;
    var down, up := Sorted(s, true), Sorted(s, false);
    forall k
      ensures WithOrder(down, k) == WithOrder(s, k) && WithOrder(Reverse(up), k) == Reverse(WithOrder(s, k))
    {
      SortedIsStable(s, k, true);
      SortedIsStable(s, k, false);
      ReverseWithOrder(up, k);
    }
    if Symmetric(s) {
      SortedHasSame(s, true);
      SortedHasSame(s, false);
      ReverseAt(up);
      GroupsDetermine(down, Reverse(up), true);
    }
  }

  /** For services of which none is listed twice, that means that no two share a start order. */
  lemma SymmetricMeansDistinct(s: seq<Service>)
    requires Distinct(s)
    ensures Symmetric(s) <==> DistinctOrders(s)
  {
    hide WithOrder, Reverse;
    forall k
      ensures Distinct(WithOrder(s, k)) && (DistinctOrders(s) ==> |WithOrder(s, k)| <= 1)
    {
      GroupOfDistinct(s, k);
    }
    if DistinctOrders(s) {
      forall k
        ensures WithOrder(s, k) == Reverse(WithOrder(s, k))
      {
        ReverseAt(WithOrder(s, k));
      }
    }
    if Symmetric(s) {
      forall i, j | 0 <= i < j < |s|
        ensures s[i].startOrder != s[j].startOrder
      {
        var w := WithOrder(s, s[i].startOrder);
        GroupOfDistinct(s, s[i].startOrder);
        ReverseAt(w);
        assert w == [] || w[0] == Reverse(w)[|w| - 1];
      }
    }
  }
}
