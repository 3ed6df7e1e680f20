/** Python's order on strings, by code point, and sorting by it. */
module TextOrder {

  predicate Below(a: string, b: string) {
    b != [] && (a == [] || a[0] < b[0] || (a[0] == b[0] && Below(a[1..], b[1..])))
  }

  /** One string comes before another if it is cut short by it, or has the smaller character where they first differ. */
  ghost predicate DiffersAt(a: string, b: string, n: int) {
    && 0 <= n <= |a| && n < |b| && a[..n] == b[..n]
    && (n == |a| || a[n] < b[n])
  }

  lemma {:induction false} BelowExactly(a: string, b: string)
    ensures Below(a, b) <==> exists n :: DiffersAt(a, b, n)
  {
    if a != [] && b != [] && a[0] == b[0] {
      BelowExactly(a[1..], b[1..]);
      if Below(a[1..], b[1..]) {
        var n :| DiffersAt(a[1..], b[1..], n);
        assert a[..n + 1] == [a[0]] + a[1..][..n] && b[..n + 1] == [b[0]] + b[1..][..n];
        assert DiffersAt(a, b, n + 1);
      }
      if exists n :: DiffersAt(a, b, n) {
        var n :| DiffersAt(a, b, n);
        assert n > 0;
        assert a[1..][..n - 1] == a[..n][1..] && b[1..][..n - 1] == b[..n][1..];
        assert DiffersAt(a[1..], b[1..], n - 1);
      }
    } else if Below(a, b) {
      assert DiffersAt(a, b, 0);
    } else {
      assert forall n :: 0 < n <= |a| && n < |b| ==> a[..n][0] == a[0] && b[..n][0] == b[0];
    }
  }

  lemma {:induction false} BelowIsTotal(a: string, b: string)
    ensures Below(a, b) || a == b || Below(b, a)
    ensures !(Below(a, b) && Below(b, a))
    ensures Below(a, b) ==> a != b
  {
    if a != [] && b != [] && a[0] == b[0] {
      BelowIsTotal(a[1..], b[1..]);
      assert a == [a[0]] + a[1..] && b == [b[0]] + b[1..];
    }
  }

  lemma {:induction false} BelowIsTransitive(a: string, b: string, c: string)
    requires Below(a, b) && Below(b, c)
    ensures Below(a, c)
  {
    if a != [] && a[0] == b[0] == c[0] {
      BelowIsTransitive(a[1..], b[1..], c[1..]);
    }
  }

  ghost predicate Ascending(s: seq<string>) {
    forall i, j | 0 <= i < j < |s| :: Below(s[i], s[j])
  }

  /** A strictly ascending sequence is determined by the set of its elements. */
  lemma {:induction false} AscendingIsUnique(a: seq<string>, b: seq<string>)
    requires Ascending(a) && Ascending(b)
    requires forall x :: x in a <==> x in b
    ensures a == b
    decreases |a|
  {
    if a == [] && b == [] {
    } else if a == [] {
      SameFirst(b, a);
    } else {
      SameFirst(a, b);
      var x, restA, restB := a[0], a[1..], b[1..];
      forall y
        ensures y in restA <==> y in restB
      {
        NotInRest(a, y);
        NotInRest(b, y);
      }
      AscendingIsUnique(restA, restB);
      assert a == [x] + restA && b == [x] + restB;
    }
  }

  lemma SameFirst(a: seq<string>, b: seq<string>)
    requires Ascending(a) && Ascending(b) && a != []
    requires forall x :: x in a <==> x in b
    ensures b != [] && a[0] == b[0]
  {
    assert a[0] in b && b[0] in a;
    var i :| 0 <= i < |b| && b[i] == a[0];
    var j :| 0 <= j < |a| && a[j] == b[0];
    BelowIsTotal(a[0], b[0]);
  }

  lemma NotInRest(a: seq<string>, y: string)
    requires Ascending(a) && a != []
    ensures y in a[1..] <==> y in a && y != a[0]
  {
    assert a == [a[0]] + a[1..];
    forall k | 0 <= k < |a[1..]|
      ensures a[1..][k] != a[0]
    {
      assert Below(a[0], a[k + 1]);
      BelowIsTotal(a[0], a[k + 1]);
    }
  }

  /** Python's `sorted` on distinct keys. */
  method Sort(keys: seq<string>) returns (r: seq<string>)
    requires forall i, j | 0 <= i < j < |keys| :: keys[i] != keys[j]
    ensures Ascending(r) && |r| == |keys|
    ensures forall x :: x in r <==> x in keys
  {
    r := [];
    for n := 0 to |keys|
      invariant Ascending(r) && |r| == n
      invariant forall x :: x in r <==> x in keys[..n]
    {
      var x := keys[n];
      assert x !in keys[..n];
      assert keys[..n + 1] == keys[..n] + [x];
      var i := 0;
      while i < |r| && Below(r[i], x)
        invariant 0 <= i <= |r|
        invariant forall j | 0 <= j < i :: Below(r[j], x)
      {
        i := i + 1;
      }
      InsertAscending(r, i, x);
      r := r[..i] + [x] + r[i..];
    }
    assert keys[..|keys|] == keys;
  }

  lemma InsertAscending(r: seq<string>, i: nat, x: string)
    requires Ascending(r) && i <= |r| && x !in r
    requires forall j | 0 <= j < i :: Below(r[j], x)
    requires i < |r| ==> !Below(r[i], x)
    ensures Ascending(r[..i] + [x] + r[i..])
    ensures forall y :: y in r[..i] + [x] + r[i..] <==> y in r || y == x
  {
    assert r == r[..i] + r[i..];
    forall j | i <= j < |r|
      ensures Below(x, r[j])
    {
      BelowIsTotal(r[i], x);
      if i < j {
        BelowIsTransitive(x, r[i], r[j]);
      }
    }
  }
}
