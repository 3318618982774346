/** Names in the order in which Go compares strings, and sorting by name. */
module Names {

  /** Comparing the UTF-8 bytes of two strings compares their characters. */
  predicate Less(a: string, b: string) {
    b != "" && (a == "" || a[0] < b[0] || (a[0] == b[0] && Less(a[1..], b[1..])))
  }

  /** Both begin with the same `k` characters; then the first ends or has the smaller one. */
  predicate SmallerAt(a: string, b: string, k: nat) {
    k <= |a| && k < |b| && (forall i :: 0 <= i < k ==> a[i] == b[i]) && (k == |a| || a[k] < b[k])
  }

  /** The order is that of the first place where the two differ. */
  lemma {:induction false} LessExactly(a: string, b: string)
    ensures Less(a, b) <==> exists k: nat :: SmallerAt(a, b, k)
  {
    if Less(a, b) {
      if a != "" && a[0] == b[0] {
        LessExactly(a[1..], b[1..]);
        var k: nat :| SmallerAt(a[1..], b[1..], k);
        assert forall i :: 1 <= i < k + 1 ==> a[i] == a[1..][i - 1] && b[i] == b[1..][i - 1];
        assert SmallerAt(a, b, k + 1);
      } else {
        assert SmallerAt(a, b, 0);
      }
    } else if k: nat :| SmallerAt(a, b, k) {
      assert k > 0;
      assert forall i :: 0 <= i < k - 1 ==> a[1..][i] == a[i + 1] && b[1..][i] == b[i + 1];
      assert SmallerAt(a[1..], b[1..], k - 1);
      LessExactly(a[1..], b[1..]);
    }
  }

  lemma {:induction false} LessIsStrict(a: string, b: string)
    requires Less(a, b)
    ensures !Less(b, a) && a != b
  {
    if a != "" && a[0] == b[0] {
      LessIsStrict(a[1..], b[1..]);
    }
  }

  lemma {:induction false} LessIsTransitive(a: string, b: string, c: string)
    requires Less(a, b) && Less(b, c)
    ensures Less(a, c)
  {
    if a != "" && a[0] == b[0] == c[0] {
      LessIsTransitive(a[1..], b[1..], c[1..]);
    }
  }

  lemma {:induction false} LessIsTotal(a: string, b: string)
    requires a != b
    ensures Less(a, b) || Less(b, a)
  {
    if a != "" && b != "" && a[0] == b[0] {
      assert a == [a[0]] + a[1..] && b == [b[0]] + b[1..];
      LessIsTotal(a[1..], b[1..]);
    }
  }

  function Self(name: string): string {
    name
  }

  /** Strictly increasing in the names that `nameOf` gives. */
  predicate Ascending<T>(s: seq<T>, nameOf: T -> string) {
    forall i, j :: 0 <= i < j < |s| ==> Less(nameOf(s[i]), nameOf(s[j]))
  }

  predicate Distinct<T>(s: seq<T>, nameOf: T -> string) {
    forall i, j :: 0 <= i < j < |s| ==> nameOf(s[i]) != nameOf(s[j])
  }

  lemma AscendingIsDistinct<T>(s: seq<T>, nameOf: T -> string)
    requires Ascending(s, nameOf)
    ensures Distinct(s, nameOf)
  {
    forall i, j | 0 <= i < j < |s| ensures nameOf(s[i]) != nameOf(s[j]) {
      LessIsStrict(nameOf(s[i]), nameOf(s[j]));
    }
  }

  lemma EmptyTogether<T>(a: seq<T>, b: seq<T>)
    requires forall x :: x in a <==> x in b
    ensures a == [] <==> b == []
  {
    assert a == [] || a[0] in b;
    assert b == [] || b[0] in a;
  }

  /** A set has one ascending order. */
  lemma {:induction false} AscendingIsUnique<T>(a: seq<T>, b: seq<T>, nameOf: T -> string)
    requires Ascending(a, nameOf) && Ascending(b, nameOf)
    requires forall x :: x in a <==> x in b
    ensures a == b
  {
    if a == [] || b == [] {
      EmptyTogether(a, b);
    } else {
      SameHead(a, b, nameOf);
      AscendingIsDistinct(a, nameOf);
      AscendingIsDistinct(b, nameOf);
      var x := a[0];
      assert a == [x] + a[1..] && b == [x] + b[1..];
      forall y ensures y in a[1..] <==> y in b[1..] {
        assert y in a <==> y == x || y in a[1..];
        assert y in b <==> y == x || y in b[1..];
      }
      AscendingIsUnique(a[1..], b[1..], nameOf);
    }
  }

  lemma SameHead<T>(a: seq<T>, b: seq<T>, nameOf: T -> string)
    requires Ascending(a, nameOf) && Ascending(b, nameOf) && a != [] && b != []
    requires forall x :: x in a <==> x in b
    ensures a[0] == b[0]
  {
    assert a[0] in b && b[0] in a;
    var j :| 0 <= j < |b| && b[j] == a[0];
    var i :| 0 <= i < |a| && a[i] == b[0];
    if 0 < i && 0 < j {
      LessIsStrict(nameOf(a[0]), nameOf(a[i]));
    }
  }

  /** Sorts by name; names must differ, so no order among equals is left open. */
  method Sort<T>(s: seq<T>, nameOf: T -> string) returns (r: seq<T>)
    requires Distinct(s, nameOf)
    ensures Ascending(r, nameOf)
    ensures forall x :: x in r <==> x in s
  {
    r := [];
    for n := 0 to |s|
      invariant Ascending(r, nameOf)
      invariant forall x :: x in r <==> x in s[..n]
    {
      var x := s[n];
      forall k | 0 <= k < |r| ensures nameOf(r[k]) != nameOf(x) {
        assert r[k] in s[..n];
      }
      var i := 0;
      while i < |r| && Less(nameOf(r[i]), nameOf(x))
        invariant 0 <= i <= |r|
        invariant forall k :: 0 <= k < i ==> Less(nameOf(r[k]), nameOf(x))
      {
        i := i + 1;
      }
      InsertKeepsOrder(r, i, x, nameOf);
      assert s[..n + 1] == s[..n] + [x];
      assert r == r[..i] + r[i..];
      r := r[..i] + [x] + r[i..];
    }
    assert s[..|s|] == s;
  }

  lemma InsertKeepsOrder<T>(r: seq<T>, i: nat, x: T, nameOf: T -> string)
    requires Ascending(r, nameOf) && i <= |r|
    requires forall k :: 0 <= k < i ==> Less(nameOf(r[k]), nameOf(x))
    requires i < |r| ==> !Less(nameOf(r[i]), nameOf(x)) && nameOf(r[i]) != nameOf(x)
    ensures Ascending(r[..i] + [x] + r[i..], nameOf)
  {
    forall k | i <= k < |r| ensures Less(nameOf(x), nameOf(r[k])) {
      LessIsTotal(nameOf(x), nameOf(r[i]));
      if i < k {
        LessIsTransitive(nameOf(x), nameOf(r[i]), nameOf(r[k]));
      }
    }
  }
}
