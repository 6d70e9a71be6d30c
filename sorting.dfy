/** `Array.prototype.sort` with a comparator, which JavaScript guarantees to be stable:
    modelled as insertion sort, with the three facts that pin its result down — it is a
    permutation of the input, it is ordered by the comparator, and elements the
    comparator calls equal keep their input order. */
module StableSort {

  /** A consistent comparator: its sign is antisymmetric and `<= 0` is transitive,
      so it orders values totally up to ties. */
  ghost predicate IsTotalPreorder<T(!new)>(cmp: (T, T) -> int) {
    (forall a, b :: cmp(a, b) < 0 <==> cmp(b, a) > 0)
    && (forall a, b, c :: cmp(a, b) <= 0 && cmp(b, c) <= 0 ==> cmp(a, c) <= 0)
  }

  /** No element has to move behind a later one. */
  ghost predicate Sorted<T>(s: seq<T>, cmp: (T, T) -> int) {
    forall i, j :: 0 <= i < j < |s| ==> cmp(s[i], s[j]) <= 0
  }

  /** `x` placed before the first element of `r` that it does not compare above. */
  function Insert<T>(x: T, r: seq<T>, cmp: (T, T) -> int): (out: seq<T>)
    ensures multiset(out) == multiset(r) + multiset{x}
  {
    if r == [] || cmp(x, r[0]) <= 0 then [x] + r
    else
      var out := [r[0]] + Insert(x, r[1..], cmp);
      assert r == [r[0]] + r[1..];
      out
  }

  /** The stable sort of `s` by `cmp`; it rearranges `s` and nothing more. */
  function Sort<T>(s: seq<T>, cmp: (T, T) -> int): (out: seq<T>)
    ensures multiset(out) == multiset(s)
  {
    if s == [] then []
    else
      var out := Insert(s[0], Sort(s[1..], cmp), cmp);
      assert s == [s[0]] + s[1..];
      out
  }

  /** A lower bound on `r` and on `x` is a lower bound on `Insert(x, r)`. */
  lemma {:induction false} InsertBelow<T>(h: T, x: T, r: seq<T>, cmp: (T, T) -> int)
    requires cmp(h, x) <= 0
    requires forall j :: 0 <= j < |r| ==> cmp(h, r[j]) <= 0
    ensures forall j :: 0 <= j < |Insert(x, r, cmp)| ==> cmp(h, Insert(x, r, cmp)[j]) <= 0
  {
    if r != [] && cmp(x, r[0]) > 0 {
      InsertBelow(h, x, r[1..], cmp);
    }
  }

  lemma ConsSorted<T>(h: T, t: seq<T>, cmp: (T, T) -> int)
    requires Sorted(t, cmp)
    requires forall j :: 0 <= j < |t| ==> cmp(h, t[j]) <= 0
    ensures Sorted([h] + t, cmp)
  {
  }

  lemma {:induction false} InsertSorted<T(!new)>(x: T, r: seq<T>, cmp: (T, T) -> int)
    requires IsTotalPreorder(cmp) && Sorted(r, cmp)
    ensures Sorted(Insert(x, r, cmp), cmp)
  {
    if r != [] && cmp(x, r[0]) > 0 {
      assert cmp(r[0], x) < 0;
      InsertBelow(r[0], x, r[1..], cmp);
      InsertSorted(x, r[1..], cmp);
      ConsSorted(r[0], Insert(x, r[1..], cmp), cmp);
    }
  }

  /** The output of the sort is ordered by a consistent comparator. */
  lemma {:induction false} SortSorted<T(!new)>(s: seq<T>, cmp: (T, T) -> int)
    requires IsTotalPreorder(cmp)
    ensures Sorted(Sort(s, cmp), cmp)
  {
    if s != [] {
      SortSorted(s[1..], cmp);
      InsertSorted(s[0], Sort(s[1..], cmp), cmp);
    }
  }

  /** The elements of `s` that `cmp` ties with `x`, in their order in `s`. */
  function Alike<T>(s: seq<T>, x: T, cmp: (T, T) -> int): seq<T> {
    if s == [] then []
    else (if cmp(s[0], x) == 0 then [s[0]] else []) + Alike(s[1..], x, cmp)
  }

  /** Two elements tied with the same `x` are tied with each other. */
  lemma TiedWithSame<T(!new)>(a: T, b: T, x: T, cmp: (T, T) -> int)
    requires IsTotalPreorder(cmp)
    requires cmp(a, x) == 0 && cmp(b, x) == 0
    ensures cmp(a, b) <= 0
  {
    assert cmp(x, b) <= 0;
  }

  lemma {:induction false} InsertAlike<T(!new)>(y: T, r: seq<T>, x: T, cmp: (T, T) -> int)
    requires forall b :: cmp(y, x) == 0 && cmp(b, x) == 0 ==> cmp(y, b) <= 0
    ensures Alike(Insert(y, r, cmp), x, cmp) == (if cmp(y, x) == 0 then [y] else []) + Alike(r, x, cmp)
  {
    var Y := if cmp(y, x) == 0 then [y] else [];
    if r == [] || cmp(y, r[0]) <= 0 {
      assert ([y] + r)[1..] == r;
    } else {
      var R := if cmp(r[0], x) == 0 then [r[0]] else [];
      var tail := Insert(y, r[1..], cmp);
      InsertAlike(y, r[1..], x, cmp);
      assert Alike(tail, x, cmp) == Y + Alike(r[1..], x, cmp);
      var out := [r[0]] + tail;
      assert out[0] == r[0] && out[1..] == tail;
      assert Alike(out, x, cmp) == R + Alike(tail, x, cmp);
      assert Alike(r, x, cmp) == R + Alike(r[1..], x, cmp);
      assert !(R != [] && Y != []);
      assert R + (Y + Alike(r[1..], x, cmp)) == Y + (R + Alike(r[1..], x, cmp));
    }
  }

  /** Stability: among the elements tied with any `x`, the sort keeps the input order. */
  lemma {:induction false} SortStable<T(!new)>(s: seq<T>, x: T, cmp: (T, T) -> int)
    requires IsTotalPreorder(cmp)
    ensures Alike(Sort(s, cmp), x, cmp) == Alike(s, x, cmp)
  {
    if s != [] {
      SortStable(s[1..], x, cmp);
      forall b | cmp(s[0], x) == 0 && cmp(b, x) == 0
        ensures cmp(s[0], b) <= 0
      {
        TiedWithSame(s[0], b, x, cmp);
      }
      InsertAlike(s[0], Sort(s[1..], cmp), x, cmp);
    }
  }

  /** A list the comparator already accepts comes back unchanged; in particular a
      comparator that ties everything leaves the order alone. */
  lemma {:induction false} SortOfSorted<T>(s: seq<T>, cmp: (T, T) -> int)
    requires Sorted(s, cmp)
    ensures Sort(s, cmp) == s
  {
    if s != [] {
      assert Sorted(s[1..], cmp);
      SortOfSorted(s[1..], cmp);
      assert s == [s[0]] + s[1..];
    }
  }
}
