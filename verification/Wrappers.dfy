// Values shared by the other modules.
module Wrappers {
  datatype Option<+T> = None | Some(value: T)

  // Reading a map where the key may be missing.
  function Get<K, V>(m: map<K, V>, k: K): Option<V> {
    if k in m then Some(m[k]) else None
  }

  // The position after i in a ring of n.
  function Succ(n: nat, i: nat): (j: nat)
    requires i < n
    ensures j < n
  {
    if i == n - 1 then 0 else i + 1
  }

  ghost predicate Distinct<T>(s: seq<T>) {
    forall i, j :: 0 <= i < j < |s| ==> s[i] != s[j]
  }

  lemma ConcatAssoc<T>(a: seq<T>, b: seq<T>, c: seq<T>)
    ensures a + (b + c) == (a + b) + c
  {
  }

  // A sequence cut in two behind another one.
  lemma CutJoins<T>(a: seq<T>, s: seq<T>, n: nat)
    requires n <= |s|
    ensures a + s[..n] + s[n..] == a + s
  {
    assert s == s[..n] + s[n..];
    ConcatAssoc(a, s[..n], s[n..]);
  }

  function Reverse<T>(s: seq<T>): (r: seq<T>)
    ensures |r| == |s|
    ensures forall i :: 0 <= i < |s| ==> r[i] == s[|s| - 1 - i]
  {
    if s == [] then [] else Reverse(s[1..]) + [s[0]]
  }

  lemma {:induction false} ReverseLast<T>(s: seq<T>)
    requires s != []
    ensures Reverse(s) == [s[|s| - 1]] + Reverse(s[..|s| - 1])
  {
    if |s| > 1 {
      var n := |s| - 1;
      ReverseLast(s[1..]);
      assert s[1..][..n-1] == s[1..n];
      assert s[..n][1..] == s[1..n];
      assert s[..n][0] == s[0];
    }
  }
}
