/** `Array.prototype.sort()` called without a comparator on an array of
    strings: the strings are compared by their UTF-16 code units (no locale,
    no case folding), and the array is rearranged into ascending order. */
module JsSort {

  /** The UTF-16 encoding of one code point: one code unit below 0x10000,
      otherwise a high surrogate followed by a low surrogate. */
  function CodeUnits(c: char): (u: seq<int>)
    ensures 1 <= |u| <= 2
  {
    var v := c as int;
    if v < 0x1_0000 then [v]
    else [0xD800 + (v - 0x1_0000) / 0x400, 0xDC00 + (v - 0x1_0000) % 0x400]
  }

  /** The UTF-16 encoding of a string: the code units a JavaScript string holds. */
  function Utf16(s: string): (u: seq<int>)
    ensures |s| <= |u| <= 2 * |s|
  {
    if s == [] then [] else CodeUnits(s[0]) + Utf16(s[1..])
  }

  /** Lexicographic order on code-unit sequences, a proper prefix coming first:
      the order in which the default sort comparison places two strings. */
  predicate UnitsLess(x: seq<int>, y: seq<int>)
  {
    if x == [] then y != []
    else y != [] && (x[0] < y[0] || (x[0] == y[0] && UnitsLess(x[1..], y[1..])))
  }

  /** The position of a code point's first code unit in code-unit order,
      made one-to-one: code points below 0xD800 keep their value, code points
      from 0x10000 up (whose first unit is a high surrogate) come next in
      code point order, and 0xE000..0xFFFF come last. */
  function Rank(c: char): (k: int)
  {
    var v := c as int;
    if v < 0xD800 then v
    else if v < 0x1_0000 then v + 0x10_0000
    else v - 0x1_0000 + 0xD800
  }

  /** The default sort comparison on strings, one code point at a time. */
  predicate Less(a: string, b: string)
  {
    if a == [] then b != []
    else b != [] && (Rank(a[0]) < Rank(b[0]) || (a[0] == b[0] && Less(a[1..], b[1..])))
  }

  /** Comparing code points by rank is comparing their UTF-16 encodings:
      either the first code units differ, or both are surrogate pairs with the
      same high surrogate and the low surrogates differ, in the order of rank. */
  lemma CodeUnitsOrder(c: char, d: char)
    requires c != d
    ensures var u, w := CodeUnits(c), CodeUnits(d);
      (u[0] != w[0] && (u[0] < w[0] <==> Rank(c) < Rank(d)))
      || (|u| == |w| == 2 && u[0] == w[0] && u[1] != w[1] && (u[1] < w[1] <==> Rank(c) < Rank(d)))
  {
    var v, x := c as int, d as int;
    if v >= 0x1_0000 && x >= 0x1_0000 {
      var p, q := v - 0x1_0000, x - 0x1_0000;
      if p / 0x400 == q / 0x400 {
        assert p == p / 0x400 * 0x400 + p % 0x400;
        assert q == q / 0x400 * 0x400 + q % 0x400;
      } else if p / 0x400 < q / 0x400 {
        assert p < q;
      } else {
        assert q < p;
      }
    }
  }

  /** A shared prefix of code units does not change the order. */
  lemma {:induction false} UnitsLessCommonPrefix(p: seq<int>, x: seq<int>, y: seq<int>)
    ensures UnitsLess(p + x, p + y) == UnitsLess(x, y)
  {
    if p == [] {
      assert p + x == x && p + y == y;
    } else {
      assert (p + x)[1..] == p[1..] + x;
      assert (p + y)[1..] == p[1..] + y;
      UnitsLessCommonPrefix(p[1..], x, y);
    }
  }

  /** `Less` is exactly the comparison of UTF-16 encodings that JavaScript
      performs. */
  lemma {:induction false} LessIsCodeUnitOrder(a: string, b: string)
    ensures Less(a, b) <==> UnitsLess(Utf16(a), Utf16(b))
  {
    if a == [] || b == [] {
    } else if a[0] == b[0] {
      UnitsLessCommonPrefix(CodeUnits(a[0]), Utf16(a[1..]), Utf16(b[1..]));
      LessIsCodeUnitOrder(a[1..], b[1..]);
    } else {
      var u, w := CodeUnits(a[0]), CodeUnits(b[0]);
      var x, y := u + Utf16(a[1..]), w + Utf16(b[1..]);
      CodeUnitsOrder(a[0], b[0]);
      assert x[0] == u[0] && y[0] == w[0];
      if u[0] == w[0] {
        assert x[1..][0] == u[1] && y[1..][0] == w[1];
      }
    }
  }

  lemma RankInjective(c: char, d: char)
    ensures Rank(c) == Rank(d) ==> c == d
  {
  }

  lemma {:induction false} LessIrreflexive(a: string)
    ensures !Less(a, a)
  {
    if a != [] {
      LessIrreflexive(a[1..]);
    }
  }

  lemma {:induction false} LessTransitive(a: string, b: string, c: string)
    requires Less(a, b) && Less(b, c)
    ensures Less(a, c)
  {
    if a != [] && a[0] == b[0] && b[0] == c[0] {
      LessTransitive(a[1..], b[1..], c[1..]);
    }
  }

  /** Two different strings are always ordered one way or the other, so the
      comparison never reports a tie between distinct strings. */
  lemma {:induction false} LessTotal(a: string, b: string)
    requires a != b
    ensures Less(a, b) || Less(b, a)
  {
    if a != [] && b != [] {
      if a[0] == b[0] {
        assert a == [a[0]] + a[1..] && b == [b[0]] + b[1..];
        LessTotal(a[1..], b[1..]);
      } else {
        RankInjective(a[0], b[0]);
      }
    }
  }

  lemma LessAsymmetric(a: string, b: string)
    requires Less(a, b)
    ensures !Less(b, a)
  {
    if Less(b, a) {
      LessTransitive(a, b, a);
      LessIrreflexive(a);
    }
  }

  /** Ascending in the default sort order. */
  predicate Sorted(s: seq<string>)
  {
    forall i, j :: 0 <= i < j < |s| ==> !Less(s[j], s[i])
  }

  /** A sorted sequence stays sorted when an element that no entry sorts
      below is put in front of it. */
  lemma SortedCons(x: string, s: seq<string>)
    requires Sorted(s)
    requires forall j :: 0 <= j < |s| ==> !Less(s[j], x)
    ensures Sorted([x] + s)
  {
    var r := [x] + s;
    forall i, j | 0 <= i < j < |r| ensures !Less(r[j], r[i]) {
      if i > 0 {
        assert r[i] == s[i - 1] && r[j] == s[j - 1];
      } else {
        assert r[j] == s[j - 1];
      }
    }
  }

  /** Inserts `x` before the first element that does not sort below it. */
  function Insert(x: string, s: seq<string>): (r: seq<string>)
    requires Sorted(s)
    ensures Sorted(r)
    ensures multiset(r) == multiset(s) + multiset{x}
  {
    if s == [] then [x]
    else if !Less(s[0], x) then
      assert Sorted([x] + s) by {
        forall j | 0 <= j < |s| ensures !Less(s[j], x) {
          if Less(s[j], x) {
            if j > 0 {
              assert !Less(s[j], s[0]);
              if s[j] != s[0] {
                LessTotal(s[0], s[j]);
                LessTransitive(s[0], s[j], x);
              }
            }
          }
        }
        SortedCons(x, s);
      }
      [x] + s
    else
      var t := Insert(x, s[1..]);
      assert s == [s[0]] + s[1..];
      assert Sorted([s[0]] + t) by {
        forall j | 0 <= j < |t| ensures !Less(t[j], s[0]) {
          var e := t[j];
          assert e in multiset(t);
          if e == x {
            LessAsymmetric(s[0], x);
          } else {
            assert e in multiset(s[1..]);
            var k :| 0 <= k < |s[1..]| && s[1..][k] == e;
            assert s[k + 1] == e;
          }
        }
        SortedCons(s[0], t);
      }
      [s[0]] + t
  }

  /** A sorted rearrangement of `s` (insertion sort). Any algorithm the
      JavaScript engine uses yields the same array: see SortedPermutationUnique. */
  function SortedCopy(s: seq<string>): (r: seq<string>)
    ensures Sorted(r)
    ensures multiset(r) == multiset(s)
  {
    if s == [] then []
    else
      assert s == s[..|s| - 1] + [s[|s| - 1]];
      Insert(s[|s| - 1], SortedCopy(s[..|s| - 1]))
  }

  /** The first element of a sorted sequence sorts below none of the others. */
  lemma SortedHeadIsLeast(s: seq<string>, x: string)
    requires Sorted(s) && x in s
    ensures !Less(x, s[0])
  {
    var k :| 0 <= k < |s| && s[k] == x;
    if k == 0 {
      LessIrreflexive(x);
    }
  }

  /** Two sorted rearrangements of one multiset start with the same string. */
  lemma SortedHeadsAgree(a: seq<string>, b: seq<string>)
    requires Sorted(a) && Sorted(b) && a != [] && b != []
    requires multiset(a) == multiset(b)
    ensures a[0] == b[0]
  {
    assert a[0] in multiset(b) && b[0] in multiset(a);
    SortedHeadIsLeast(b, a[0]);
    SortedHeadIsLeast(a, b[0]);
    if a[0] != b[0] {
      LessTotal(a[0], b[0]);
    }
  }

  /** Dropping equal heads leaves equal multisets. */
  lemma TailsSameMultiset(a: seq<string>, b: seq<string>)
    requires a != [] && b != [] && a[0] == b[0]
    requires multiset(a) == multiset(b)
    ensures multiset(a[1..]) == multiset(b[1..])
  {
    assert a == [a[0]] + a[1..] && b == [b[0]] + b[1..];
    assert multiset(a[1..]) == multiset(a) - multiset{a[0]};
    assert multiset(b[1..]) == multiset(b) - multiset{b[0]};
  }

  /** A sorted permutation is unique: the default comparison is a strict total
      order, so the sort's result does not depend on the algorithm. */
  lemma {:induction false} SortedPermutationUnique(a: seq<string>, b: seq<string>)
    requires Sorted(a) && Sorted(b)
    requires multiset(a) == multiset(b)
    ensures a == b
  {
    if a == [] || b == [] {
      assert |a| == |multiset(a)| == |multiset(b)| == |b|;
    } else {
      SortedHeadsAgree(a, b);
      TailsSameMultiset(a, b);
      SortedPermutationUnique(a[1..], b[1..]);
      assert a == [a[0]] + a[1..] && b == [b[0]] + b[1..];
    }
  }
}
