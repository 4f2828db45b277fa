/** Facts about rearranged sequences and blank text, shared across the modules. */
module Sequences {

  function Without<T>(s: seq<T>, k: nat): seq<T>
    requires k < |s|
  {
    s[..k] + s[k + 1..]
  }

  /** A sequence with one element put in at a position. */
  function WithInserted<T>(s: seq<T>, k: nat, x: T): seq<T>
    requires k <= |s|
  {
    s[..k] + [x] + s[k..]
  }

  lemma MultisetWithInserted<T>(s: seq<T>, k: nat, x: T)
    requires k <= |s|
    ensures multiset(WithInserted(s, k, x)) == multiset(s) + multiset{x}
  {
    assert s == s[..k] + s[k..];
  }

  lemma MultisetOfLast<T>(s: seq<T>)
    requires s != []
    ensures multiset(s) == multiset(s[..|s| - 1]) + multiset{s[|s| - 1]}
  {
    assert s == s[..|s| - 1] + [s[|s| - 1]];
  }

  lemma InsertedFurther<T>(s: seq<T>, k: nat, x: T)
    requires s != [] && k <= |s| - 1
    ensures [s[0]] + WithInserted(s[1..], k, x) == WithInserted(s, k + 1, x)
  {
    assert s[..k + 1] == [s[0]] + s[1..][..k] && s[k + 1..] == s[1..][k..];
  }

  lemma MultisetWithout<T>(s: seq<T>, k: nat)
    requires k < |s|
    ensures multiset(s) == multiset(Without(s, k)) + multiset{s[k]}
  {
    assert s == s[..k] + [s[k]] + s[k + 1..];
  }

  /** In a rearrangement every element has its counterpart, and the rest rearrange the rest. */
  lemma Counterpart<T>(a: seq<T>, i: nat, b: seq<T>) returns (k: nat)
    requires i < |a| && multiset(a) == multiset(b)
    ensures k < |b| && b[k] == a[i] && multiset(Without(a, i)) == multiset(Without(b, k))
  {
    assert a[i] in multiset(b);
    k :| 0 <= k < |b| && b[k] == a[i];
    MultisetWithout(a, i);
    MultisetWithout(b, k);
    assert multiset(Without(a, i)) == multiset(a) - multiset{a[i]};
    assert multiset(Without(b, k)) == multiset(b) - multiset{b[k]};
  }

  function MapBy<A, B>(f: A -> B, s: seq<A>): seq<B> {
    if s == [] then [] else [f(s[0])] + MapBy(f, s[1..])
  }

  lemma {:induction false} MapByAt<A, B>(f: A -> B, s: seq<A>)
    ensures |MapBy(f, s)| == |s| && forall i :: 0 <= i < |s| ==> MapBy(f, s)[i] == f(s[i])
  {
    if s != [] {
      MapByAt(f, s[1..]);
    }
  }

  lemma MapByAppend<A, B>(f: A -> B, s: seq<A>, x: A)
    ensures MapBy(f, s + [x]) == MapBy(f, s) + [f(x)]
  {
    MapByAt(f, s);
    MapByAt(f, s + [x]);
  }

  lemma MapByWithout<A, B>(f: A -> B, s: seq<A>, k: nat)
    requires k < |s|
    ensures |MapBy(f, s)| == |s| && MapBy(f, Without(s, k)) == Without(MapBy(f, s), k)
  {
    MapByAt(f, s);
    MapByAt(f, Without(s, k));
  }

  lemma {:induction false} MapByRearranges<A, B>(f: A -> B, a: seq<A>, b: seq<A>)
    requires multiset(a) == multiset(b)
    ensures multiset(MapBy(f, a)) == multiset(MapBy(f, b))
    decreases |a|
  {
    if a == [] {
      assert |multiset(b)| == 0;
    } else {
      var k := Counterpart(a, 0, b);
      MapByRearranges(f, Without(a, 0), Without(b, k));
      MapByWithout(f, a, 0);
      MapByWithout(f, b, k);
      MapByAt(f, a);
      MapByAt(f, b);
      MultisetWithout(MapBy(f, a), 0);
      MultisetWithout(MapBy(f, b), k);
    }
  }

  /** Text that `strip` leaves nothing of. */
  predicate Blank(text: string) {
    forall i :: 0 <= i < |text| ==> text[i] in {' ', '\t', '\n', '\r'}
  }
}
