/** The kernel's hlists as sequences: insertion at the head, deletion by node. */
module Lists {

  predicate NoDup<T(==, !new)>(l: seq<T>) {
    l == [] || (l[0] !in l[1..] && NoDup(l[1..]))
  }

  /** hlist_del_init; a node that is not on the list is left alone. */
  function Del<T(==, !new)>(l: seq<T>, x: T): (r: seq<T>)
    ensures NoDup(l) ==> x !in r && NoDup(r)
    ensures forall y :: y in r ==> y in l
    ensures forall y :: y in l && y != x ==> y in r
    ensures x !in l ==> r == l
    ensures x in l ==> |r| == |l| - 1
  {
    if l == [] then [] else if l[0] == x then l[1..] else [l[0]] + Del(l[1..], x)
  }

  /** hlist_add_head */
  function AddHead<T(==, !new)>(l: seq<T>, x: T): (r: seq<T>)
    ensures forall y :: y in r <==> y == x || y in l
    ensures NoDup(l) && x !in l ==> NoDup(r)
    ensures r[0] == x
  {
    [x] + l
  }

  /** Deletion keeps the order of the other nodes. */
  lemma {:induction false} DelAt<T(!new)>(l: seq<T>, i: nat)
    requires NoDup(l) && i < |l|
    ensures Del(l, l[i]) == l[..i] + l[i + 1..]
  {
    if i > 0 {
      assert l[1..][i - 1] in l[1..];
      DelAt(l[1..], i - 1);
    }
  }

  /** Inserting a node and deleting it again leaves the list as it was. */
  lemma DelAddHead<T(!new)>(l: seq<T>, x: T)
    ensures Del(AddHead(l, x), x) == l
  {
  }

  /** A map without the entries that hold c. */
  function Without<K, V(==)>(m: map<K, V>, c: V): map<K, V> {
    map k | k in m && m[k] != c :: m[k]
  }

  lemma WithoutKeeps<K, V(!new)>(m: map<K, V>, c: V, k: K)
    ensures k in Without(m, c) <==> k in m && m[k] != c
    ensures k in Without(m, c) ==> Without(m, c)[k] == m[k]
  {
  }

  /** A node occurs once: not among the nodes before it. */
  lemma {:induction false} NoDupAt<T(!new)>(l: seq<T>, i: nat)
    requires NoDup(l) && i < |l|
    ensures l[i] !in l[..i]
  {
    if i > 0 {
      NoDupAt(l[1..], i - 1);
      assert l[..i] == [l[0]] + l[1..][..i - 1];
    }
  }
}
