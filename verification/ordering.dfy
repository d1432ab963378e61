/** Orders and sorting as the scripts use them: Python's `<` on strings and on
    lists of path parts (lexicographic), and the stable `sorted`. */
module Ordering {

  // ---------------------------------------------------------------------------
  // strict orders

  ghost predicate StrictTotalOrder<T(!new)>(less: (T, T) -> bool) {
    && (forall x :: !less(x, x))
    && (forall x, y, z :: less(x, y) && less(y, z) ==> less(x, z))
    && (forall x, y :: x != y ==> less(x, y) || less(y, x))
  }

  /** Lexicographic order on sequences, from a strict order on elements: a
      proper prefix comes first, otherwise the first differing element decides. */
  predicate LexLess<T(==)>(a: seq<T>, b: seq<T>, less: (T, T) -> bool) {
    if |a| == 0 then |b| > 0
    else if |b| == 0 then false
    else less(a[0], b[0]) || (a[0] == b[0] && LexLess(a[1..], b[1..], less))
  }

  lemma {:induction false} LexIrreflexive<T(!new)>(a: seq<T>, less: (T, T) -> bool)
    requires StrictTotalOrder(less)
    ensures !LexLess(a, a, less)
    decreases |a|
  {
    if |a| > 0 {
      LexIrreflexive(a[1..], less);
    }
  }

  lemma {:induction false} LexTransitive<T(!new)>(a: seq<T>, b: seq<T>, c: seq<T>, less: (T, T) -> bool)
    requires StrictTotalOrder(less)
    requires LexLess(a, b, less) && LexLess(b, c, less)
    ensures LexLess(a, c, less)
    decreases |a|
  {
    if |a| > 0 && a[0] == b[0] && b[0] == c[0] {
      LexTransitive(a[1..], b[1..], c[1..], less);
    }
  }

  lemma {:induction false} LexTotal<T(!new)>(a: seq<T>, b: seq<T>, less: (T, T) -> bool)
    requires StrictTotalOrder(less)
    requires a != b
    ensures LexLess(a, b, less) || LexLess(b, a, less)
    decreases |a|
  {
    if |a| > 0 && |b| > 0 && a[0] == b[0] {
      assert a == [a[0]] + a[1..] && b == [b[0]] + b[1..];
      LexTotal(a[1..], b[1..], less);
    }
  }

  /** The lexicographic extension of a strict total order is one. */
  lemma LexStrictTotal<T(!new)>(less: (T, T) -> bool)
    requires StrictTotalOrder(less)
    ensures StrictTotalOrder((a: seq<T>, b: seq<T>) => LexLess(a, b, less))
  {
    forall a: seq<T> ensures !LexLess(a, a, less) {
      LexIrreflexive(a, less);
    }
    forall a: seq<T>, b: seq<T>, c: seq<T> | LexLess(a, b, less) && LexLess(b, c, less)
      ensures LexLess(a, c, less)
    {
      LexTransitive(a, b, c, less);
    }
    forall a: seq<T>, b: seq<T> | a != b
      ensures LexLess(a, b, less) || LexLess(b, a, less)
    {
      LexTotal(a, b, less);
    }
  }

  predicate CharLess(x: char, y: char) { x < y }

  /** Python's `<` on `str`: code-point lexicographic order. */
  predicate StrLess(a: string, b: string) {
    LexLess(a, b, CharLess)
  }

  predicate StrLessEq(a: string, b: string) {
    a == b || StrLess(a, b)
  }

  /** Python's `<` on `pathlib` paths: lexicographic on the list of parts. */
  predicate PartsLess(a: seq<string>, b: seq<string>) {
    LexLess(a, b, StrLess)
  }

  lemma StrLessIsStrictTotal()
    ensures StrictTotalOrder(StrLess)
  {
    assert StrictTotalOrder(CharLess);
    LexStrictTotal(CharLess);
    assert forall a, b :: StrLess(a, b) == ((a: string, b: string) => LexLess(a, b, CharLess))(a, b);
  }

  lemma PartsLessIsStrictTotal()
    ensures StrictTotalOrder(PartsLess)
  {
    StrLessIsStrictTotal();
    LexStrictTotal(StrLess);
    assert forall a, b :: PartsLess(a, b) == ((a: seq<string>, b: seq<string>) => LexLess(a, b, StrLess))(a, b);
  }

  // ---------------------------------------------------------------------------
  // strictly sorted sequences without duplicates

  predicate StrictlySorted<T>(xs: seq<T>, less: (T, T) -> bool) {
    forall i, j :: 0 <= i < j < |xs| ==> less(xs[i], xs[j])
  }

  /** Inserts `x` into a strictly sorted list, unless it is already there. */
  function InsertUnique<T(!new, ==)>(xs: seq<T>, x: T, less: (T, T) -> bool): (r: seq<T>)
    requires StrictTotalOrder(less)
    requires StrictlySorted(xs, less)
    ensures StrictlySorted(r, less)
    ensures forall y :: y in r <==> y in xs || y == x
  {
    if |xs| == 0 then [x]
    else if x == xs[0] then xs
    else if less(x, xs[0]) then [x] + xs
    else
      var rest := InsertUnique(xs[1..], x, less);
      assert forall y :: y in xs <==> y == xs[0] || y in xs[1..];
      assert less(xs[0], x);
      HeadBelowTail(xs, less);
      assert forall j :: 0 <= j < |rest| ==> rest[j] in rest && less(xs[0], rest[j]);
      [xs[0]] + rest
  }

  /** In a sorted list the head is below every later element. */
  lemma HeadBelowTail<T>(xs: seq<T>, less: (T, T) -> bool)
    requires |xs| > 0
    requires StrictlySorted(xs, less) || SortedBy(xs, less)
    ensures forall y :: y in xs[1..] ==> less(xs[0], y)
  {
    forall y | y in xs[1..] ensures less(xs[0], y) {
      var k :| 0 <= k < |xs[1..]| && xs[1..][k] == y;
      assert xs[k + 1] == y;
    }
  }

  /** The strictly sorted list of the elements of `s` (Python's
      `sorted(set(...))`). */
  function SortedSet<T(!new, ==)>(s: seq<T>, less: (T, T) -> bool): (r: seq<T>)
    requires StrictTotalOrder(less)
    ensures StrictlySorted(r, less)
    ensures forall y :: y in r <==> y in s
  {
    if |s| == 0 then []
    else
      var r := InsertUnique(SortedSet(s[..|s| - 1], less), s[|s| - 1], less);
      assert s == s[..|s| - 1] + [s[|s| - 1]];
      r
  }

  /** A strictly sorted list holds no element twice. */
  lemma StrictlySortedDistinct<T(!new)>(xs: seq<T>, less: (T, T) -> bool)
    requires StrictTotalOrder(less)
    requires StrictlySorted(xs, less)
    ensures forall i, j :: 0 <= i < j < |xs| ==> xs[i] != xs[j]
  {
  }

  /** Two strictly sorted lists with the same elements are equal: the sorted
      order of a set does not depend on how it was produced. */
  lemma {:induction false} StrictlySortedUnique<T(!new)>(xs: seq<T>, ys: seq<T>, less: (T, T) -> bool)
    requires StrictTotalOrder(less)
    requires StrictlySorted(xs, less) && StrictlySorted(ys, less)
    requires forall y :: y in xs <==> y in ys
    ensures xs == ys
    decreases |xs|
  {
    if |xs| > 0 {
      assert xs[0] in ys;
    }
    if |ys| > 0 {
      assert ys[0] in xs;
    }
    if |xs| > 0 && |ys| > 0 {
      var k1 :| 0 <= k1 < |ys| && ys[k1] == xs[0];
      var k2 :| 0 <= k2 < |xs| && xs[k2] == ys[0];
      assert k1 == 0;
      forall y ensures y in xs[1..] <==> y in ys[1..] {
        if y in xs[1..] {
          var k :| 1 <= k < |xs| && xs[k] == y;
          assert less(xs[0], y);
          assert y in ys;
        }
        if y in ys[1..] {
          var k :| 1 <= k < |ys| && ys[k] == y;
          assert less(ys[0], y);
          assert y in xs;
        }
      }
      StrictlySortedUnique(xs[1..], ys[1..], less);
      assert xs == [xs[0]] + xs[1..] && ys == [ys[0]] + ys[1..];
    }
  }

  // ---------------------------------------------------------------------------
  // stable sorting by a total preorder

  ghost predicate TotalPreorder<T(!new)>(le: (T, T) -> bool) {
    && (forall x, y :: le(x, y) || le(y, x))
    && (forall x, y, z :: le(x, y) && le(y, z) ==> le(x, z))
  }

  predicate SortedBy<T>(xs: seq<T>, le: (T, T) -> bool) {
    forall i, j :: 0 <= i < j < |xs| ==> le(xs[i], xs[j])
  }

  /** Inserts `x` after every element that is `le` it: later equal elements stay
      behind earlier ones (InsertByTies), which makes the sort stable
      (SortByStable). */
  function InsertBy<T(!new)>(xs: seq<T>, x: T, le: (T, T) -> bool): (r: seq<T>)
    requires TotalPreorder(le)
    requires SortedBy(xs, le)
    ensures SortedBy(r, le)
    ensures multiset(r) == multiset(xs) + multiset{x}
  {
    if |xs| == 0 then [x]
    else if le(xs[0], x) then
      var rest := InsertBy(xs[1..], x, le);
      assert xs == [xs[0]] + xs[1..];
      HeadBelowInsert(xs, x, rest, le);
      ConsSorted(xs[0], rest, le);
      [xs[0]] + rest
    else
      assert le(x, xs[0]);
      assert forall j :: 0 <= j < |xs| ==> le(x, xs[j]);
      ConsSorted(x, xs, le);
      [x] + xs
  }

  /** An element below every element of a sorted sequence can go in front. */
  lemma ConsSorted<T>(h: T, xs: seq<T>, le: (T, T) -> bool)
    requires SortedBy(xs, le) && forall j :: 0 <= j < |xs| ==> le(h, xs[j])
    ensures SortedBy([h] + xs, le)
  {
    var r := [h] + xs;
    forall i, j | 0 <= i < j < |r| ensures le(r[i], r[j]) {
      assert r[j] == xs[j - 1];
      if i > 0 {
        assert r[i] == xs[i - 1];
      }
    }
  }

  /** The head of a sorted sequence is below what inserting a larger element
      into its tail gives. */
  lemma HeadBelowInsert<T>(xs: seq<T>, x: T, rest: seq<T>, le: (T, T) -> bool)
    requires |xs| > 0 && SortedBy(xs, le) && le(xs[0], x)
    requires multiset(rest) == multiset(xs[1..]) + multiset{x}
    ensures forall j :: 0 <= j < |rest| ==> le(xs[0], rest[j])
  {
    HeadBelowTail(xs, le);
    forall j | 0 <= j < |rest| ensures le(xs[0], rest[j]) {
      assert rest[j] in multiset(rest);
    }
  }

  /** Python's stable `sorted` under the order `le`. */
  function SortBy<T(!new)>(xs: seq<T>, le: (T, T) -> bool): (r: seq<T>)
    requires TotalPreorder(le)
    ensures SortedBy(r, le)
    ensures multiset(r) == multiset(xs)
  {
    if |xs| == 0 then []
    else
      assert xs == xs[..|xs| - 1] + [xs[|xs| - 1]];
      InsertBy(SortBy(xs[..|xs| - 1], le), xs[|xs| - 1], le)
  }

  /** `x` and `y` are equivalent under `le`: neither comes strictly first. */
  predicate Tied<T>(x: T, y: T, le: (T, T) -> bool) {
    le(x, y) && le(y, x)
  }

  /** The elements of `xs` tied with `y`, in their order in `xs`. */
  function Ties<T>(xs: seq<T>, y: T, le: (T, T) -> bool): seq<T> {
    if |xs| == 0 then []
    else (if Tied(xs[0], y, le) then [xs[0]] else []) + Ties(xs[1..], y, le)
  }

  lemma {:induction false} TiesAppend<T>(a: seq<T>, b: seq<T>, y: T, le: (T, T) -> bool)
    ensures Ties(a + b, y, le) == Ties(a, y, le) + Ties(b, y, le)
    decreases |a|
  {
    if |a| == 0 {
      assert a + b == b;
    } else {
      assert (a + b)[0] == a[0] && (a + b)[1..] == a[1..] + b;
      TiesAppend(a[1..], b, y, le);
    }
  }

  /** Nothing in a sorted sequence whose head comes strictly after `x` is
      tied with anything `x` is tied with. */
  lemma NoTiesAfter<T(!new)>(xs: seq<T>, x: T, y: T, le: (T, T) -> bool)
    requires TotalPreorder(le) && SortedBy(xs, le)
    requires |xs| > 0 && !le(xs[0], x) && Tied(x, y, le)
    ensures Ties(xs, y, le) == []
    decreases |xs|
  {
    if |xs| > 1 {
      assert SortedBy(xs[1..], le);
      assert le(xs[0], xs[1]);
      NoTiesAfter(xs[1..], x, y, le);
    }
  }

  /** Inserting `x` puts it after every element it is tied with: within each
      class of tied elements, `x` comes last. */
  lemma {:induction false} InsertByTies<T(!new)>(xs: seq<T>, x: T, y: T, le: (T, T) -> bool)
    requires TotalPreorder(le) && SortedBy(xs, le)
    ensures Ties(InsertBy(xs, x, le), y, le) == Ties(xs, y, le) + (if Tied(x, y, le) then [x] else [])
    decreases |xs|, 1
  {
    if |xs| == 0 {
      assert InsertBy(xs, x, le) == [x];
      TiesAppend([], [x], y, le);
    } else if le(xs[0], x) {
      InsertByTiesSkip(xs, x, y, le);
    } else {
      InsertByTiesFront(xs, x, y, le);
    }
  }

  lemma {:induction false} InsertByTiesSkip<T(!new)>(xs: seq<T>, x: T, y: T, le: (T, T) -> bool)
    requires TotalPreorder(le) && SortedBy(xs, le) && |xs| > 0 && le(xs[0], x)
    ensures Ties(InsertBy(xs, x, le), y, le) == Ties(xs, y, le) + (if Tied(x, y, le) then [x] else [])
    decreases |xs|, 0
  {
    InsertBySkip(xs, x, le);
    InsertByTies(xs[1..], x, y, le);
    TiesPrepend(xs[0], InsertBy(xs[1..], x, le), xs[1..], if Tied(x, y, le) then [x] else [], y, le);
    assert xs == [xs[0]] + xs[1..];
  }

  /** Putting the same element in front of two sequences keeps an equation
      between their tied elements. */
  lemma TiesPrepend<T>(h: T, a: seq<T>, b: seq<T>, extra: seq<T>, y: T, le: (T, T) -> bool)
    requires Ties(a, y, le) == Ties(b, y, le) + extra
    ensures Ties([h] + a, y, le) == Ties([h] + b, y, le) + extra
  {
    TiesAppend([h], a, y, le);
    TiesAppend([h], b, y, le);
  }

  lemma InsertBySkip<T(!new)>(xs: seq<T>, x: T, le: (T, T) -> bool)
    requires TotalPreorder(le) && SortedBy(xs, le) && |xs| > 0 && le(xs[0], x)
    ensures SortedBy(xs[1..], le)
    ensures InsertBy(xs, x, le) == [xs[0]] + InsertBy(xs[1..], x, le)
  {
  }

  lemma InsertByTiesFront<T(!new)>(xs: seq<T>, x: T, y: T, le: (T, T) -> bool)
    requires TotalPreorder(le) && SortedBy(xs, le) && |xs| > 0 && !le(xs[0], x)
    ensures Ties(InsertBy(xs, x, le), y, le) == Ties(xs, y, le) + (if Tied(x, y, le) then [x] else [])
  {
    assert InsertBy(xs, x, le) == [x] + xs;
    TiesAppend([x], xs, y, le);
    if Tied(x, y, le) {
      NoTiesAfter(xs, x, y, le);
    }
  }

  /** The sort is stable: the elements of every class of tied elements keep
      their relative order. */
  lemma {:induction false} SortByStable<T(!new)>(xs: seq<T>, y: T, le: (T, T) -> bool)
    requires TotalPreorder(le)
    ensures Ties(SortBy(xs, le), y, le) == Ties(xs, y, le)
    decreases |xs|
  {
    if |xs| > 0 {
      var init, last := xs[..|xs| - 1], xs[|xs| - 1];
      assert xs == init + [last];
      SortByStable(init, y, le);
      InsertByTies(SortBy(init, le), last, y, le);
      TiesAppend(init, [last], y, le);
      assert [last][1..] == [];
    }
  }

  /** A prefix's tied elements are a prefix of the whole sequence's. */
  lemma TiesOfPrefix<T>(xs: seq<T>, m: nat, y: T, le: (T, T) -> bool)
    requires m <= |xs|
    ensures Ties(xs[..m], y, le) <= Ties(xs, y, le)
  {
    assert xs == xs[..m] + xs[m..];
    TiesAppend(xs[..m], xs[m..], y, le);
  }
}
