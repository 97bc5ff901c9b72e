/** Small definitions that several modules share. */
module Wrappers {

  datatype Option<+T> = None | Some(value: T)

  ghost predicate Distinct<T>(s: seq<T>) {
    forall i, j :: 0 <= i < j < |s| ==> s[i] != s[j]
  }

  function Max(a: nat, b: nat): nat { if a < b then b else a }

  function Min(a: nat, b: nat): nat { if b < a then b else a }

  lemma JoinedDistinct<T>(s: seq<T>, t: seq<T>, k: nat)
    requires Distinct(s) && Distinct(t) && k <= |s| && forall x :: x in s ==> x !in t
    ensures Distinct(s[..k] + t + s[k..])
  {
    var u := s[..k] + t + s[k..];
    assert forall i :: k <= i < k + |t| ==> u[i] in t;
    assert forall i :: 0 <= i < k ==> u[i] in s;
    assert forall i :: k + |t| <= i < |u| ==> u[i] in s;
  }
}
