/** Sequences without repetition, and the products that bound quotients. */
module Sequences {

  ghost predicate Unequal<T>(s: seq<T>, i: int, j: int) {
    0 <= i < |s| && 0 <= j < |s| ==> s[i] != s[j]
  }

  ghost predicate NoTwice<T>(s: seq<T>) {
    forall i, j :: 0 <= i < j < |s| ==> Unequal(s, i, j)
  }

  lemma Apart<T>(s: seq<T>, i: nat, j: nat)
    requires NoTwice(s) && i < |s| && j < |s| && i != j
    ensures s[i] != s[j]
  {
    assert if i < j then Unequal(s, i, j) else Unequal(s, j, i);
  }

  lemma NoTwicePush<T>(s: seq<T>, x: T)
    requires NoTwice(s) && x !in s
    ensures NoTwice(s + [x])
  {
    forall i, j | 0 <= i < j < |s| + 1
      ensures Unequal(s + [x], i, j)
    {
      assert j < |s| ==> Unequal(s, i, j);
    }
  }

  /** s without its element k. */
  function Cut<T>(s: seq<T>, k: nat): (r: seq<T>)
    requires k < |s|
    ensures |r| == |s| - 1
  {
    s[..k] + s[k + 1..]
  }

  lemma CutAt<T>(s: seq<T>, k: nat, i: nat)
    requires k < |s| && i < |s| - 1
    ensures Cut(s, k)[i] == s[if i < k then i else i + 1]
  {
  }

  lemma NoTwiceCut<T>(s: seq<T>, k: nat)
    requires NoTwice(s) && k < |s|
    ensures NoTwice(Cut(s, k)) && s[k] !in Cut(s, k)
  {
    var r := Cut(s, k);
    forall i, j | 0 <= i < j < |r|
      ensures Unequal(r, i, j)
    {
      CutAt(s, k, i);
      CutAt(s, k, j);
      assert Unequal(s, if i < k then i else i + 1, if j < k then j else j + 1);
    }
    forall i | 0 <= i < |r|
      ensures r[i] != s[k]
    {
      CutAt(s, k, i);
      Apart(s, if i < k then i else i + 1, k);
    }
  }

  lemma TimesMonotone(a: nat, b: nat, d: nat)
    requires a <= b
    ensures a * d <= b * d
  {
  }
}
