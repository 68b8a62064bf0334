/** Counting occurrences in a sequence, to follow a closure from one place to another. */
module Occurrences {

  function Count<T(==)>(s: seq<T>, x: T): nat {
    multiset(s)[x]
  }

  function Without<T>(s: seq<T>, k: nat): seq<T>
    requires k < |s|
  {
    s[..k] + s[k + 1..]
  }

  lemma CountAppend<T>(s: seq<T>, t: seq<T>, x: T)
    ensures Count(s + t, x) == Count(s, x) + Count(t, x)
  {}

  lemma CountSnoc<T>(s: seq<T>, y: T, x: T)
    ensures Count(s + [y], x) == Count(s, x) + (if y == x then 1 else 0)
  {}

  lemma CountFirst<T>(s: seq<T>, x: T)
    requires s != []
    ensures Count(s, x) == Count(s[1..], x) + (if s[0] == x then 1 else 0)
  {
    assert s == [s[0]] + s[1..];
  }

  lemma CountWithout<T>(s: seq<T>, k: nat, x: T)
    requires k < |s|
    ensures Count(s, x) == Count(Without(s, k), x) + (if s[k] == x then 1 else 0)
  {
    assert s == s[..k] + [s[k]] + s[k + 1..];
  }
}
