/** What several models share: optional values, the machine word and counting. */
module Basics {

  datatype Option<T> = None | Some(value: T)

  const WORD: int := 0x1_0000_0000_0000_0000

  type Word = x: int | 0 <= x < WORD

  /** How many elements have the property. */
  function Count<T>(s: seq<T>, f: T -> bool): nat {
    if s == [] then 0 else Count(s[..|s| - 1], f) + if f(s[|s| - 1]) then 1 else 0
  }

  lemma {:induction false} CountSet<T>(s: seq<T>, i: nat, y: T, f: T -> bool)
    requires i < |s|
    ensures Count(s[i := y], f) == Count(s, f) - (if f(s[i]) then 1 else 0) + if f(y) then 1 else 0
  {
    var n := |s| - 1;
    if i < n {
      assert s[i := y][..n] == s[..n][i := y];
      CountSet(s[..n], i, y, f);
    } else {
      assert s[i := y][..n] == s[..n];
    }
  }

  lemma {:induction false} CountBounds<T>(s: seq<T>, f: T -> bool)
    ensures Count(s, f) <= |s|
    ensures Count(s, f) == 0 <==> forall i :: 0 <= i < |s| ==> !f(s[i])
    ensures Count(s, f) == |s| <==> forall i :: 0 <= i < |s| ==> f(s[i])
  {
    if s != [] {
      CountBounds(s[..|s| - 1], f);
      assert forall i :: 0 <= i < |s| - 1 ==> s[..|s| - 1][i] == s[i];
    }
  }
}
