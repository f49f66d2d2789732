/**
 * String and sequence utilities that the codec relies on: Python's string
 * ordering, `str.split(",")` / `",".join(...)`, `str.replace`, a duplicate-free
 * view of a sequence (what `set(...)` keeps), and the stable sort behind
 * Python's `sorted`.
 */
module Strs {

  /** Python's `a < b` on `str`: lexicographic by code point, a proper prefix first. */
  predicate Less(a: string, b: string)
    decreases |a|
  {
    |b| > 0 && (|a| == 0 || a[0] < b[0] || (a[0] == b[0] && Less(a[1..], b[1..])))
  }

  lemma {:induction false} LessIrreflexive(a: string)
    ensures !Less(a, a)
    decreases |a|
  {
    if |a| > 0 {
      LessIrreflexive(a[1..]);
    }
  }

  lemma {:induction false} LessTransitive(a: string, b: string, c: string)
    requires Less(a, b) && Less(b, c)
    ensures Less(a, c)
    decreases |a|
  {
    if |a| > 0 && a[0] == b[0] && b[0] == c[0] {
      LessTransitive(a[1..], b[1..], c[1..]);
    }
  }

  lemma {:induction false} LessTotal(a: string, b: string)
    ensures a == b || Less(a, b) || Less(b, a)
    decreases |a|
  {
    if |a| > 0 && |b| > 0 && a[0] == b[0] {
      LessTotal(a[1..], b[1..]);
      if a[1..] == b[1..] {
        assert a == [a[0]] + a[1..] && b == [b[0]] + b[1..];
      }
    }
  }

  lemma LessAsymmetric(a: string, b: string)
    requires Less(a, b)
    ensures !Less(b, a)
  {
    if Less(b, a) {
      LessTransitive(a, b, a);
      LessIrreflexive(a);
    }
  }

  /** Neither string is below the other only when they are equal. */
  lemma LessEquivalentMeansEqual(a: string, b: string)
    requires !Less(a, b) && !Less(b, a)
    ensures a == b
  {
    LessTotal(a, b);
  }

  // ------------------------------------------------------------------
  // Ordering relations over arbitrary elements

  /** `less` is a strict weak order: asymmetric, and "not less" is transitive. */
  ghost predicate StrictWeakOrder<T(!new)>(less: (T, T) -> bool)
  {
    && (forall a, b :: less(a, b) ==> !less(b, a))
    && (forall a, b, c :: !less(a, b) && !less(b, c) ==> !less(a, c))
  }

  /** No element is below an earlier one. */
  ghost predicate SortedBy<T>(s: seq<T>, less: (T, T) -> bool)
  {
    forall i, j :: 0 <= i < j < |s| ==> !less(s[j], s[i])
  }

  /** Python's string order lifted through a key function. */
  function KeyLess<T>(key: T -> string): (T, T) -> bool
  {
    (a: T, b: T) => Less(key(a), key(b))
  }

  lemma KeyLessIsStrictWeakOrder<T(!new)>(key: T -> string)
    ensures StrictWeakOrder(KeyLess(key))
  {
    var less := KeyLess(key);
    forall a, b | less(a, b) ensures !less(b, a) {
      LessAsymmetric(key(a), key(b));
    }
    forall a, b, c | !less(a, b) && !less(b, c) ensures !less(a, c) {
      LessTotal(key(a), key(b));
      LessTotal(key(b), key(c));
      if Less(key(a), key(c)) {
        if key(b) != key(a) {
          LessTransitive(key(b), key(a), key(c));
          if key(c) != key(b) {
            LessAsymmetric(key(c), key(b));
          } else {
            LessIrreflexive(key(b));
          }
        } else if key(c) != key(b) {
          LessAsymmetric(key(c), key(b));
        } else {
          LessIrreflexive(key(a));
        }
      }
    }
  }

  /** The numeric order on `nat`. */
  function NatLess(): (nat, nat) -> bool
  {
    (a: nat, b: nat) => a < b
  }

  lemma NatLessIsStrictWeakOrder()
    ensures StrictWeakOrder(NatLess())
  {
  }

  // ------------------------------------------------------------------
  // Stable insertion sort, the model of Python's `sorted`

  /** Puts `x` in front of the first element that is not below it. */
  function Insert<T>(x: T, s: seq<T>, less: (T, T) -> bool): (r: seq<T>)
    ensures multiset(r) == multiset(s) + multiset{x}
    ensures |r| == |s| + 1
  {
    if s == [] then [x]
    else if less(s[0], x) then
      assert s == [s[0]] + s[1..];
      [s[0]] + Insert(x, s[1..], less)
    else [x] + s
  }

  /** Sorts `s` by `less`, keeping equivalent elements in their input order. */
  function SortBy<T>(s: seq<T>, less: (T, T) -> bool): (r: seq<T>)
    ensures multiset(r) == multiset(s)
    ensures |r| == |s|
  {
    if s == [] then []
    else
      assert s == [s[0]] + s[1..];
      Insert(s[0], SortBy(s[1..], less), less)
  }

  lemma {:induction false} InsertSorted<T(!new)>(x: T, s: seq<T>, less: (T, T) -> bool)
    requires StrictWeakOrder(less) && SortedBy(s, less)
    ensures SortedBy(Insert(x, s, less), less)
  {
    if s != [] {
      if less(s[0], x) {
        InsertSorted(x, s[1..], less);
        var r := Insert(x, s[1..], less);
        forall k | 0 <= k < |r| ensures !less(r[k], s[0]) {
          assert r[k] in multiset(r);
          assert r[k] in multiset(s[1..]) + multiset{x};
          if r[k] != x {
            assert r[k] in s[1..];
            var m :| 0 <= m < |s[1..]| && s[1..][m] == r[k];
            assert s[m + 1] == r[k];
          }
        }
      } else {
        forall k | 0 <= k < |s| ensures !less(s[k], x) {
          if k > 0 {
            assert !less(s[k], s[0]);
          }
        }
      }
    }
  }

  lemma {:induction false} SortBySorted<T(!new)>(s: seq<T>, less: (T, T) -> bool)
    requires StrictWeakOrder(less)
    ensures SortedBy(SortBy(s, less), less)
  {
    if s != [] {
      SortBySorted(s[1..], less);
      InsertSorted(s[0], SortBy(s[1..], less), less);
    }
  }

  lemma {:induction false} InsertDistinct<T>(x: T, s: seq<T>, less: (T, T) -> bool)
    requires Distinct(s) && x !in s
    ensures Distinct(Insert(x, s, less))
  {
    if s != [] && less(s[0], x) {
      assert s == [s[0]] + s[1..];
      InsertDistinct(x, s[1..], less);
      assert s[0] !in multiset(Insert(x, s[1..], less));
    }
  }

  /** Sorting never makes two elements equal. */
  lemma {:induction false} DistinctSortBy<T>(s: seq<T>, less: (T, T) -> bool)
    requires Distinct(s)
    ensures Distinct(SortBy(s, less))
  {
    if s != [] {
      assert s == [s[0]] + s[1..];
      DistinctSortBy(s[1..], less);
      assert s[0] !in multiset(SortBy(s[1..], less));
      InsertDistinct(s[0], SortBy(s[1..], less), less);
    }
  }

  /** The elements of `s` equivalent to `c` under `less`, in order. */
  function Equivalents<T>(s: seq<T>, c: T, less: (T, T) -> bool): seq<T>
  {
    if s == [] then []
    else (if !less(s[0], c) && !less(c, s[0]) then [s[0]] else []) + Equivalents(s[1..], c, less)
  }

  /** Under a strict weak order, of two elements one below the other at most one is equivalent to `c`. */
  lemma BelowNotBothEquivalent<T(!new)>(less: (T, T) -> bool, a: T, b: T, c: T)
    requires StrictWeakOrder(less) && less(a, b)
    ensures (less(a, c) || less(c, a)) || (less(b, c) || less(c, b))
  {
    assert !less(a, c) && !less(c, b) ==> !less(a, b);
  }

  /**
   * Inserting `x` adds it to the class of `c` exactly when it is equivalent
   * to `c`, at the place that keeps the class in order: every element it
   * passes is below it, so not in the class whenever `x` is.
   */
  lemma {:induction false} InsertStable<T(!new)>(x: T, s: seq<T>, c: T, less: (T, T) -> bool)
    requires forall k :: 0 <= k < |s| && less(s[k], x) ==>
      (less(s[k], c) || less(c, s[k])) || (less(x, c) || less(c, x))
    ensures Equivalents(Insert(x, s, less), c, less)
         == (if !less(x, c) && !less(c, x) then [x] else []) + Equivalents(s, c, less)
  {
    if s != [] {
      var r := Insert(x, s, less);
      var h := s[0];
      var ex := if !less(x, c) && !less(c, x) then [x] else [];
      var eh := if !less(h, c) && !less(c, h) then [h] else [];
      assert Equivalents(s, c, less) == eh + Equivalents(s[1..], c, less);
      if less(h, x) {
        assert forall k :: 0 <= k < |s[1..]| ==> s[1..][k] == s[k + 1];
        InsertStable(x, s[1..], c, less);
        assert r[1..] == Insert(x, s[1..], less);
        assert Equivalents(r, c, less) == eh + Equivalents(r[1..], c, less);
        if ex == [] {
          assert ex + Equivalents(s[1..], c, less) == Equivalents(s[1..], c, less);
          assert ex + Equivalents(s, c, less) == Equivalents(s, c, less);
        } else {
          assert eh == [];
          assert eh + Equivalents(r[1..], c, less) == Equivalents(r[1..], c, less);
          assert eh + Equivalents(s[1..], c, less) == Equivalents(s[1..], c, less);
        }
      } else {
        assert r[1..] == s;
        assert Equivalents(r, c, less) == ex + Equivalents(s, c, less);
      }
    }
  }

  /** `SortBy` is stable: every class of equivalent elements keeps its input order. */
  lemma {:induction false} SortByStable<T(!new)>(s: seq<T>, c: T, less: (T, T) -> bool)
    requires StrictWeakOrder(less)
    ensures Equivalents(SortBy(s, less), c, less) == Equivalents(s, c, less)
  {
    if s != [] {
      SortByStable(s[1..], c, less);
      var r := SortBy(s[1..], less);
      forall k | 0 <= k < |r| && less(r[k], s[0])
        ensures (less(r[k], c) || less(c, r[k])) || (less(s[0], c) || less(c, s[0]))
      {
        BelowNotBothEquivalent(less, r[k], s[0], c);
      }
      InsertStable(s[0], r, c, less);
    }
  }

  // ------------------------------------------------------------------
  // Sums over sequences

  function Sum<T>(s: seq<T>, f: T -> nat): nat
  {
    if s == [] then 0 else Sum(s[..|s| - 1], f) + f(s[|s| - 1])
  }

  lemma {:induction false} SumAppend<T>(a: seq<T>, b: seq<T>, f: T -> nat)
    ensures Sum(a + b, f) == Sum(a, f) + Sum(b, f)
    decreases |b|
  {
    if b != [] {
      assert (a + b)[..|a + b| - 1] == a + b[..|b| - 1];
      SumAppend(a, b[..|b| - 1], f);
    } else {
      assert a + b == a;
    }
  }

  lemma SumCons<T>(x: T, s: seq<T>, f: T -> nat)
    ensures Sum([x] + s, f) == f(x) + Sum(s, f)
  {
    SumAppend([x], s, f);
    assert [x][..0] == [];
  }

  lemma {:induction false} SumInsert<T>(x: T, s: seq<T>, less: (T, T) -> bool, f: T -> nat)
    ensures Sum(Insert(x, s, less), f) == f(x) + Sum(s, f)
  {
    if s == [] {
      SumCons(x, s, f);
    } else if less(s[0], x) {
      SumInsert(x, s[1..], less, f);
      SumCons(s[0], Insert(x, s[1..], less), f);
      SumCons(s[0], s[1..], f);
      assert s == [s[0]] + s[1..];
    } else {
      SumCons(x, s, f);
    }
  }

  /** Sorting does not change a sum over the elements. */
  lemma {:induction false} SumSortBy<T>(s: seq<T>, less: (T, T) -> bool, f: T -> nat)
    ensures Sum(SortBy(s, less), f) == Sum(s, f)
  {
    if s != [] {
      SumSortBy(s[1..], less, f);
      SumInsert(s[0], SortBy(s[1..], less), less, f);
      SumCons(s[0], s[1..], f);
      assert s == [s[0]] + s[1..];
    }
  }

  /** Sums agree when the summands agree on every element. */
  lemma {:induction false} SumCongruent<T>(s: seq<T>, f: T -> nat, g: T -> nat)
    requires forall k :: 0 <= k < |s| ==> f(s[k]) == g(s[k])
    ensures Sum(s, f) == Sum(s, g)
  {
    if s != [] {
      SumCongruent(s[..|s| - 1], f, g);
    }
  }

  /** Raising the summand of one element that occurs once raises the sum by one. */
  lemma {:induction false} SumBump<T>(s: seq<T>, x: T, f: T -> nat, g: T -> nat)
    requires Distinct(s) && x in s
    requires g(x) == f(x) + 1
    requires forall k :: 0 <= k < |s| && s[k] != x ==> f(s[k]) == g(s[k])
    ensures Sum(s, g) == Sum(s, f) + 1
  {
    var init := s[..|s| - 1];
    if s[|s| - 1] == x {
      assert x !in init;
      SumCongruent(init, f, g);
    } else {
      assert x in init;
      SumBump(init, x, f, g);
    }
  }

  // ------------------------------------------------------------------
  // Duplicate-free sequences

  ghost predicate Distinct<T>(s: seq<T>)
  {
    forall i, j :: 0 <= i < j < |s| ==> s[i] != s[j]
  }

  /** A duplicate-free sequence has as many elements as the set of its elements. */
  lemma {:induction false} DistinctCardinality<T>(s: seq<T>)
    requires Distinct(s)
    ensures |set x | x in s| == |s|
  {
    if s != [] {
      var init := s[..|s| - 1];
      DistinctCardinality(init);
      assert (set x | x in s) == (set x | x in init) + {s[|s| - 1]};
      forall i | 0 <= i < |init| ensures init[i] != s[|s| - 1] {
        assert init[i] == s[i];
      }
    }
  }

  /** Keeps the first occurrence of every element, in order. */
  function Dedup(s: seq<string>): (r: seq<string>)
    ensures Distinct(r)
    ensures forall x :: x in r <==> x in s
  {
    if s == [] then []
    else
      var d := Dedup(s[..|s| - 1]);
      if s[|s| - 1] in d then d else d + [s[|s| - 1]]
  }

  lemma {:induction false} DedupOfDistinct(s: seq<string>)
    requires Distinct(s)
    ensures Dedup(s) == s
  {
    if s != [] {
      DedupOfDistinct(s[..|s| - 1]);
      assert s[|s| - 1] !in s[..|s| - 1];
      assert s[..|s| - 1] + [s[|s| - 1]] == s;
    }
  }

  /**
   * The position `list.index(x)` reports: the first occurrence.
   */
  function IndexOf<T(==)>(s: seq<T>, x: T): (i: nat)
    requires x in s
    ensures i < |s| && s[i] == x && x !in s[..i]
  {
    if s[0] == x then 0 else 1 + IndexOf(s[1..], x)
  }

  /** The linear scan behind `x in list` and `list.index(x)`: -1 when absent. */
  method Find<T(==)>(s: seq<T>, x: T) returns (i: int)
    ensures -1 <= i < |s|
    ensures i == -1 <==> x !in s
    ensures 0 <= i ==> i == IndexOf(s, x)
  {
    i := 0;
    while i < |s|
      invariant 0 <= i <= |s|
      invariant x !in s[..i]
    {
      if s[i] == x {
        IndexOfUnique(s, x, i);
        return;
      }
      i := i + 1;
    }
    assert s[..i] == s;
    i := -1;
  }

  lemma {:induction false} IndexOfUnique<T>(s: seq<T>, x: T, i: nat)
    requires i < |s| && s[i] == x && x !in s[..i]
    ensures IndexOf(s, x) == i
  {
    if i > 0 {
      assert s[1..][..i - 1] == s[1..i];
      assert s[0] == s[..i][0];
      IndexOfUnique(s[1..], x, i - 1);
    }
  }

  lemma DistinctIndexOf<T>(s: seq<T>, i: nat)
    requires Distinct(s) && i < |s|
    ensures IndexOf(s, s[i]) == i
  {
    assert s[i] !in s[..i];
    IndexOfUnique(s, s[i], i);
  }

  // ------------------------------------------------------------------
  // Comma-separated labels

  /** Python's `s.split(",")`: never empty; `""` gives `[""]`. */
  function Split(s: string): (r: seq<string>)
    ensures |r| > 0
    ensures forall k :: 0 <= k < |r| ==> ',' !in r[k]
  {
    if |s| == 0 then [""]
    else if s[0] == ',' then [""] + Split(s[1..])
    else
      var rest := Split(s[1..]);
      [[s[0]] + rest[0]] + rest[1..]
  }

  /** Python's `",".join(parts)`. */
  function Join(parts: seq<string>): string
  {
    if |parts| == 0 then ""
    else if |parts| == 1 then parts[0]
    else parts[0] + "," + Join(parts[1..])
  }

  lemma {:induction false} JoinSplit(s: string)
    ensures Join(Split(s)) == s
  {
    if |s| > 0 {
      JoinSplit(s[1..]);
      var rest := Split(s[1..]);
      if s[0] == ',' {
        assert Split(s)[1..] == rest;
        assert s == [','] + s[1..];
      } else if |rest| == 1 {
        assert s == [s[0]] + s[1..];
      } else {
        assert ([s[0]] + rest[0]) + "," + Join(rest[1..]) == [s[0]] + (rest[0] + "," + Join(rest[1..]));
        assert s == [s[0]] + s[1..];
      }
    }
  }

  lemma {:induction false} SplitJoin(parts: seq<string>)
    requires |parts| > 0
    requires forall k :: 0 <= k < |parts| ==> ',' !in parts[k]
    ensures Split(Join(parts)) == parts
    decreases |parts|, |parts[0]|
  {
    if |parts[0]| > 0 {
      var tail := [parts[0][1..]] + parts[1..];
      SplitJoin(tail);
      var j := Join(parts);
      if |parts| == 1 {
        assert j[1..] == Join(tail);
      } else {
        assert j == parts[0] + "," + Join(parts[1..]);
        assert j[1..] == parts[0][1..] + "," + Join(parts[1..]);
        assert Join(tail) == parts[0][1..] + "," + Join(tail[1..]);
        assert tail[1..] == parts[1..];
      }
      assert parts[0] == [parts[0][0]] + parts[0][1..];
      assert j[0] == parts[0][0];
      assert parts == [parts[0]] + parts[1..];
    } else if |parts| > 1 {
      SplitJoin(parts[1..]);
      var j := Join(parts);
      assert j == "," + Join(parts[1..]);
      assert j[1..] == Join(parts[1..]);
      assert parts == [parts[0]] + parts[1..];
    }
  }

  // ------------------------------------------------------------------
  // Python's str.replace

  /** `s.replace(pat, rep)`: left to right, non-overlapping. */
  function Replace(s: string, pat: string, rep: string): (r: string)
    requires |pat| > 0
    ensures |s| > 0 && |rep| > 0 ==> |r| > 0
    ensures |s| > 0 && s[0] != pat[0] ==> |r| > 0 && r[0] == s[0]
    decreases |s|
  {
    if |s| < |pat| then s
    else if s[..|pat|] == pat then rep + Replace(s[|pat|..], pat, rep)
    else [s[0]] + Replace(s[1..], pat, rep)
  }

  /** A prefix free of the pattern's first character is copied unchanged. */
  lemma {:induction false} ReplaceSkip(a: string, b: string, pat: string, rep: string)
    requires |pat| > 0 && pat[0] !in a
    ensures Replace(a + b, pat, rep) == a + Replace(b, pat, rep)
    decreases |a|
  {
    if a != [] {
      var s := a + b;
      assert s[0] == a[0] && s[1..] == a[1..] + b;
      if |s| >= |pat| {
        assert s[..|pat|][0] != pat[0];
      }
      ReplaceSkip(a[1..], b, pat, rep);
      assert [s[0]] + (a[1..] + Replace(b, pat, rep)) == a + Replace(b, pat, rep);
    } else {
      assert a + b == b;
    }
  }

  /** A string free of the pattern's first character has nothing to replace. */
  lemma ReplaceFree(a: string, pat: string, rep: string)
    requires |pat| > 0 && pat[0] !in a
    ensures Replace(a, pat, rep) == a
  {
    ReplaceSkip(a, [], pat, rep);
    assert a + [] == a;
  }

  /** A front that is not a match is copied and the scan moves on by one character. */
  lemma ReplaceKeep(s: string, pat: string, rep: string)
    requires |pat| > 0 && |s| > 0 && (|s| >= |pat| ==> s[..|pat|] != pat)
    ensures Replace(s, pat, rep) == [s[0]] + Replace(s[1..], pat, rep)
  {
  }

  /** A match at the front is rewritten and the rest is scanned after it. */
  lemma ReplaceMatch(b: string, pat: string, rep: string)
    requires |pat| > 0
    ensures Replace(pat + b, pat, rep) == rep + Replace(b, pat, rep)
  {
    assert (pat + b)[..|pat|] == pat && (pat + b)[|pat|..] == b;
  }
}
