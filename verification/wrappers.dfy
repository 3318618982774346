/** The optional value shared by every module of the model. */
module Wrappers {

  datatype Option<+T> = None | Some(value: T)
}

/** Bytes, as files and keys hold them. */
module Bytes {

  newtype byte = b: int | 0 <= b < 256
}

/** Searching in sequences, and a fact that the solver is better given than left to find. */
module Seqs {

  lemma HeadAndTail<T>(s: seq<T>)
    requires s != []
    ensures s == [s[0]] + s[1..]
  {
  }

  predicate FirstAt<T(==)>(s: seq<T>, x: T, i: nat, k: nat) {
    i <= k <= |s| && (forall j :: i <= j < k ==> s[j] != x) && (k < |s| ==> s[k] == x)
  }

  lemma FirstExists<T>(s: seq<T>, x: T, i: nat)
    requires i <= |s|
    ensures exists k: nat :: FirstAt(s, x, i, k)
    decreases |s| - i
  {
    if i == |s| || s[i] == x {
      assert FirstAt(s, x, i, i);
    } else {
      FirstExists(s, x, i + 1);
      var k: nat :| FirstAt(s, x, i + 1, k);
      assert FirstAt(s, x, i, k);
    }
  }

  /** The position of the first `x` at or after `i`; the length when there is none. */
  function IndexOf<T(==)>(s: seq<T>, x: T, i: nat := 0): (k: nat)
    requires i <= |s|
    ensures i <= k <= |s|
    ensures k < |s| ==> s[k] == x
    ensures forall j :: i <= j < k ==> s[j] != x
  {
    FirstExists(s, x, i);
    var k: nat :| k <= |s| && FirstAt(s, x, i, k);
    k
  }

  lemma Assoc<T>(a: seq<T>, b: seq<T>, c: seq<T>)
    ensures a + (b + c) == a + b + c
  {
  }
}
