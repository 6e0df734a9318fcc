/**
 * The part of lodash that the food-item reducer relies on: `union(a, b)`,
 * which flattens its arguments and keeps the first occurrence of every value
 * (lodash's `uniq` over `a` followed by `b`).
 */
module LodashUnion {

  /** No value occurs twice in `s`. */
  predicate Distinct<T(==,!new)>(s: seq<T>) {
    forall i, j :: 0 <= i < j < |s| ==> s[i] != s[j]
  }

  /** The values of `s`, each at the position of its first occurrence. */
  function Uniq<T(==,!new)>(s: seq<T>): (r: seq<T>)
    ensures Distinct(r)
    ensures forall x :: x in r <==> x in s
    ensures |r| <= |s|
  {
    if s == [] then []
    else
      var init, last := s[..|s| - 1], s[|s| - 1];
      assert s == init + [last];
      if last in init then Uniq(init) else Uniq(init) + [last]
  }

  /** The values of `s` that do not occur in `t`, in their order in `s`. */
  function Minus<T(==,!new)>(s: seq<T>, t: seq<T>): (r: seq<T>)
    ensures forall x :: x in r <==> x in s && x !in t
    ensures |r| <= |s|
  {
    if s == [] then []
    else
      var init, last := s[..|s| - 1], s[|s| - 1];
      assert s == init + [last];
      if last in t then Minus(init, t) else Minus(init, t) + [last]
  }

  /** lodash `union(a, b)`: every value of `a` or `b`, once, in order of first occurrence. */
  function Union<T(==,!new)>(a: seq<T>, b: seq<T>): (r: seq<T>)
    ensures Distinct(r)
    ensures forall x :: x in r <==> x in a || x in b
  {
    Uniq(a + b)
  }

  /** A sequence without duplicates is its own `uniq`. */
  lemma {:induction false} UniqOfDistinct<T(!new)>(s: seq<T>)
    requires Distinct(s)
    ensures Uniq(s) == s
  {
    if s != [] {
      var init, last := s[..|s| - 1], s[|s| - 1];
      assert s == init + [last];
      assert Distinct(init);
      assert last !in init by {
        forall i | 0 <= i < |init| ensures init[i] != last {
          assert s[i] == init[i] && s[|s| - 1] == last;
        }
      }
      UniqOfDistinct(init);
    }
  }

  /** Filtering distributes over concatenation. */
  lemma {:induction false} MinusAppend<T(!new)>(s1: seq<T>, s2: seq<T>, t: seq<T>)
    ensures Minus(s1 + s2, t) == Minus(s1, t) + Minus(s2, t)
  {
    if s2 == [] {
      assert s1 + s2 == s1;
    } else {
      var init, last := s2[..|s2| - 1], s2[|s2| - 1];
      assert s1 + s2 == (s1 + init) + [last];
      assert (s1 + s2)[..|s1 + s2| - 1] == s1 + init;
      MinusAppend(s1, init, t);
    }
  }

  /** Filtering out values that do not occur changes nothing. */
  lemma {:induction false} MinusOfDisjoint<T(!new)>(s: seq<T>, t: seq<T>)
    requires forall x :: x in s ==> x !in t
    ensures Minus(s, t) == s
  {
    if s != [] {
      var init, last := s[..|s| - 1], s[|s| - 1];
      assert s == init + [last];
      MinusOfDisjoint(init, t);
    }
  }

  /** Filtering out every value of a sequence leaves nothing. */
  lemma {:induction false} MinusOfCovered<T(!new)>(s: seq<T>, t: seq<T>)
    requires forall x :: x in s ==> x in t
    ensures Minus(s, t) == []
  {
    if s != [] {
      var init, last := s[..|s| - 1], s[|s| - 1];
      assert s == init + [last];
      MinusOfCovered(init, t);
    }
  }

  /** Concatenation is associative. */
  lemma ConcatAssoc<T>(x: seq<T>, y: seq<T>, z: seq<T>)
    ensures (x + y) + z == x + (y + z)
  {
  }

  /** Appending one value to the input of `uniq`. */
  lemma UniqSnoc<T(!new)>(s: seq<T>, y: T)
    ensures Uniq(s + [y]) == if y in s then Uniq(s) else Uniq(s) + [y]
  {
    assert (s + [y])[..|s + [y]| - 1] == s;
  }

  /** Appending one value to the input of `Minus`. */
  lemma MinusSnoc<T(!new)>(s: seq<T>, y: T, t: seq<T>)
    ensures Minus(s + [y], t) == if y in t then Minus(s, t) else Minus(s, t) + [y]
  {
    assert (s + [y])[..|s + [y]| - 1] == s;
  }

  /** `uniq` of a concatenation: the `uniq` of the front, then the new values of the back. */
  lemma {:induction false} UniqAppend<T(!new)>(a: seq<T>, b: seq<T>)
    ensures Uniq(a + b) == Uniq(a) + Minus(Uniq(b), a)
  {
    if b == [] {
      assert a + b == a;
    } else {
      var init, y := b[..|b| - 1], b[|b| - 1];
      assert b == init + [y];
      assert a + b == (a + init) + [y];
      UniqAppend(a, init);
      UniqSnoc(a + init, y);
      UniqSnoc(init, y);
      MinusSnoc(Uniq(init), y, a);
      if y in a + init {
        calc {
          Uniq(a + b);
          Uniq(a + init);
          Uniq(a) + Minus(Uniq(init), a);
          { assert y in init || y in a; }
          Uniq(a) + Minus(Uniq(b), a);
        }
      } else {
        calc {
          Uniq(a + b);
          Uniq(a + init) + [y];
          (Uniq(a) + Minus(Uniq(init), a)) + [y];
          { ConcatAssoc(Uniq(a), Minus(Uniq(init), a), [y]); }
          Uniq(a) + (Minus(Uniq(init), a) + [y]);
          Uniq(a) + Minus(Uniq(b), a);
        }
      }
    }
  }

  /**
   * For duplicate-free arguments, `union(a, b)` is `a` unchanged, followed by
   * the values of `b` missing from `a` in their order in `b`.
   */
  lemma UnionOfDistinct<T(!new)>(a: seq<T>, b: seq<T>)
    requires Distinct(a)
    ensures Union(a, b) == a + Minus(Uniq(b), a)
    ensures Distinct(b) ==> Union(a, b) == a + Minus(b, a)
  {
    UniqAppend(a, b);
    UniqOfDistinct(a);
    if Distinct(b) {
      UniqOfDistinct(b);
    }
  }

  /** Taking the union with the same first argument twice changes nothing more. */
  lemma UnionIdempotent<T(!new)>(a: seq<T>, b: seq<T>)
    ensures Union(a, Union(a, b)) == Union(a, b)
  {
    var ua, m := Uniq(a), Minus(Uniq(b), a);
    var u := Union(a, b);
    UniqAppend(a, b);
    UniqAppend(a, u);
    UniqOfDistinct(u);
    MinusOfCoveredThenDisjoint(ua, m, a);
  }

  /** Filtering `t` out of values all in `t` followed by values all outside it. */
  lemma MinusOfCoveredThenDisjoint<T(!new)>(s: seq<T>, m: seq<T>, t: seq<T>)
    requires forall x :: x in s ==> x in t
    requires forall x :: x in m ==> x !in t
    ensures Minus(s + m, t) == m
  {
    MinusAppend(s, m, t);
    MinusOfCovered(s, t);
    MinusOfDisjoint(m, t);
    assert [] + m == m;
  }

  /** With nothing in front, `union` only removes duplicates. */
  lemma UnionWithNothing<T(!new)>(b: seq<T>)
    ensures Union([], b) == Uniq(b)
  {
    assert [] + b == b;
  }

  /** `union([x, y], [x, z])` is `[x, y, z]` for three different values. */
  lemma UnionExample<T(!new)>(x: T, y: T, z: T)
    requires x != y && x != z && y != z
    ensures Union([x, y], [x, z]) == [x, y, z]
  {
    MinusOfPair([x, y], x, z);
    UnionOfDistinct([x, y], [x, z]);
    assert [x, y] + [z] == [x, y, z];
  }

  /** Filtering a pair whose first value is removed and second kept. */
  lemma MinusOfPair<T(!new)>(t: seq<T>, x: T, z: T)
    requires x in t && z !in t
    ensures Minus([x, z], t) == [z]
  {
    MinusSnoc([], x, t);
    assert [] + [x] == [x];
    MinusSnoc([x], z, t);
    assert [x] + [z] == [x, z];
  }
}
