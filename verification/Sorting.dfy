/**
 The in-place insertion sort that utils/execution/checkpoint_session.c and
 utils/ime/airy_ime.c use: each element is held aside while larger ones move up.
 */
module Sorting {

  /** A strict order: `before(x, y)` says that x must stand in front of y. */
  ghost predicate StrictOrder<T(!new)>(before: (T, T) -> bool) {
    && (forall x, y :: before(x, y) ==> !before(y, x))
    && (forall x, y, z :: !before(x, y) && !before(y, z) ==> !before(x, z))
  }

  /** No element must stand in front of an earlier one. */
  ghost predicate Sorted<T(!new)>(s: seq<T>, before: (T, T) -> bool) {
    forall i, j :: 0 <= i < j < |s| ==> !before(s[j], s[i])
  }

  /** The element at `i` taken out and put back at `j`. */
  function Moved<T>(s: seq<T>, j: nat, i: nat): seq<T>
    requires j <= i < |s|
  {
    s[..j] + [s[i]] + s[j..i] + s[i + 1..]
  }

  lemma MovedSame<T>(s: seq<T>, j: nat, i: nat)
    requires j <= i < |s|
    ensures multiset(Moved(s, j, i)) == multiset(s)
  {
    var a, b, c, d := s[..j], s[j..i], [s[i]], s[i + 1..];
    assert s == a + b + c + d;
    assert multiset(a + b + c + d) == multiset(a) + multiset(b) + multiset(c) + multiset(d);
    assert multiset(a + c + b + d) == multiset(a) + multiset(c) + multiset(b) + multiset(d);
  }

  /** Moves a[i] down into the sorted prefix. */
  method InsertAt<T(!new)>(a: array<T>, i: nat, before: (T, T) -> bool)
    requires i < a.Length && StrictOrder(before) && Sorted(a[..i], before)
    modifies a
    ensures Sorted(a[..i + 1], before) && multiset(a[..]) == multiset(old(a[..]))
  {
    hide StrictOrder, Sorted, Moved;
    ghost var s := a[..];
    var key := a[i];
    var j := i;
    while j > 0 && before(key, a[j - 1])
      invariant 0 <= j <= i && Shifted(a[..], s, j, i)
      invariant AllBehind(a[..], j, i, key, before)
    {
      ghost var t := a[..];
      ShiftOne(t, s, j, i, key, before);
      a[j] := a[j - 1];
      assert a[..] == t[j := t[j - 1]];
      j := j - 1;
    }
    ghost var t := a[..];
    assert j > 0 ==> a[j - 1] == t[j - 1];
    a[j] := key;
    assert a[..] == t[j := key];
    ShiftDone(t, s, j, i, before);
    assert a[..i + 1] == Moved(s, j, i)[..i + 1];
    MovedSame(s, j, i);
  }

  /** The elements from `j` up to `i` have moved up by one; position `j` is free. */
  ghost predicate Shifted<T>(t: seq<T>, s: seq<T>, j: nat, i: nat) {
    && j <= i < |s| && |t| == |s|
    && forall k {:trigger t[k]} :: 0 <= k < |t| ==> t[k] == s[if j < k <= i then k - 1 else k]
  }

  /** The elements moved up belong behind `key`. */
  ghost predicate AllBehind<T(!new)>(t: seq<T>, j: nat, i: nat, key: T, before: (T, T) -> bool) {
    i < |t| && forall k :: j < k <= i ==> before(key, t[k])
  }

  lemma ShiftOne<T(!new)>(t: seq<T>, s: seq<T>, j: nat, i: nat, key: T, before: (T, T) -> bool)
    requires Shifted(t, s, j, i) && j > 0 && before(key, t[j - 1])
    requires AllBehind(t, j, i, key, before)
    ensures Shifted(t[j := t[j - 1]], s, j - 1, i) && AllBehind(t[j := t[j - 1]], j - 1, i, key, before)
  {
  }

  lemma ShiftDone<T(!new)>(t: seq<T>, s: seq<T>, j: nat, i: nat, before: (T, T) -> bool)
    requires Shifted(t, s, j, i) && StrictOrder(before) && Sorted(s[..i], before)
    requires AllBehind(t, j, i, s[i], before)
    requires j > 0 ==> !before(s[i], t[j - 1])
    ensures t[j := s[i]] == Moved(s, j, i) && Sorted(Moved(s, j, i)[..i + 1], before)
  {
    var m := Moved(s, j, i);
    assert m == t[j := s[i]];
    Inserted(s[..i], m[..i + 1], j, s[i], before);
  }

  lemma Inserted<T(!new)>(s: seq<T>, t: seq<T>, j: nat, key: T, before: (T, T) -> bool)
    requires StrictOrder(before) && Sorted(s, before) && |t| == |s| + 1 && j <= |s| && t[j] == key
    requires forall k :: 0 <= k < j ==> t[k] == s[k]
    requires forall k :: j < k <= |s| ==> t[k] == s[k - 1] && before(key, t[k])
    requires j > 0 ==> !before(key, s[j - 1])
    ensures Sorted(t, before)
  {
    forall x, y | 0 <= x < y < |t| ensures !before(t[y], t[x]) {
      if y < j {
      } else if x > j {
        assert t[x] == s[x - 1] && t[y] == s[y - 1];
      } else if y > j && x < j {
        assert t[x] == s[x] && t[y] == s[y - 1];
      } else if y == j && x < j - 1 {
        assert !before(s[j - 1], s[x]) && !before(key, s[j - 1]);
      }
    }
  }

  method InsertionSort<T(!new)>(a: array<T>, before: (T, T) -> bool)
    requires StrictOrder(before)
    modifies a
    ensures Sorted(a[..], before) && multiset(a[..]) == multiset(old(a[..]))
  {
    var i := 1;
    while i < a.Length
      invariant 1 <= i && (i <= a.Length || a.Length == 0)
      invariant Sorted(a[..if i <= a.Length then i else 0], before) && multiset(a[..]) == multiset(old(a[..]))
    {
      InsertAt(a, i, before);
      i := i + 1;
    }
    assert a.Length > 0 ==> a[..i] == a[..];
  }
}
