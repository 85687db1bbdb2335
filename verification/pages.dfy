/**
 * The page walks of resample_pages_modn (src/sample.c): with m threads,
 * thread s visits the pages s, s + m, s + 2m, ... below the page count,
 * either upwards or downwards from the last such page. Each page belongs
 * to exactly one thread.
 */
module Pages {
  import opened Arith

  /** The pages thread s of m visits going forwards: s, s + m, ... below n. */
  function ForwardPages(n: int, s: int, m: int): (pages: seq<int>)
    requires 0 <= s && m >= 1
    ensures forall i | 0 <= i < |pages| :: s <= pages[i] < n
    decreases n - s
  {
    if s >= n then [] else [s] + ForwardPages(n, s + m, m)
  }

  /** The first page of a backward walk, computed as the source does: round n down to a multiple of m, add s, step back once if that reaches n. */
  function BackwardStart(n: int, s: int, m: int): (start: int)
    requires n >= 0 && 0 <= s < m
    ensures start < n
  {
    var start := n - n % m + s;
    if start >= n then start - m else start
  }

  /** The pages thread s visits going backwards from `start`, stopping below s. */
  function BackwardPages(start: int, s: int, m: int): (pages: seq<int>)
    requires m >= 1
    ensures forall i | 0 <= i < |pages| :: s <= pages[i] <= start
    decreases start - s + m
  {
    if start < s then [] else [start] + BackwardPages(start - m, s, m)
  }

  function Reverse<T>(s: seq<T>): (r: seq<T>)
    ensures |r| == |s| && forall i | 0 <= i < |s| :: r[i] == s[|s| - 1 - i]
  {
    if |s| == 0 then [] else Reverse(s[1..]) + [s[0]]
  }

  lemma ReverseCons<T>(x: T, s: seq<T>)
    ensures Reverse([x] + s) == Reverse(s) + [x]
  {
    assert ([x] + s)[1..] == s;
  }

  /** A forward walk holds exactly the pages from s up to n that are congruent to s modulo m. */
  lemma {:induction false} ForwardPagesMembers(n: int, s: int, m: int, page: int)
    requires 0 <= s && m >= 1
    ensures page in ForwardPages(n, s, m) <==> s <= page < n && (page - s) % m == 0
    decreases n - s
  {
    if s < n {
      ForwardPagesMembers(n, s + m, m, page);
      assert page in ForwardPages(n, s, m) <==> page == s || page in ForwardPages(n, s + m, m);
      ModShift(page - (s + m), m);
      assert (page - s) % m == (page - (s + m)) % m;
      if page == s {
        DivModOfRow(m, 0, 0);
      } else if s < page < s + m {
        DivModOfRow(m, 0, page - s);
      }
    }
  }

  /** A non-empty forward walk ends on a page congruent to s within m below n. */
  lemma {:induction false} ForwardPagesLast(n: int, s: int, m: int)
    requires 0 <= s < n && m >= 1
    ensures |ForwardPages(n, s, m)| > 0
    ensures var f := ForwardPages(n, s, m); n - m <= f[|f| - 1] < n && (f[|f| - 1] - s) % m == 0
    decreases n - s
  {
    if s + m < n {
      ForwardPagesLast(n, s + m, m);
      var f := ForwardPages(n, s + m, m);
      ModShift(f[|f| - 1] - (s + m), m);
    }
  }

  /** The backward start is congruent to s and within m below n. */
  lemma BackwardStartBounds(n: int, s: int, m: int)
    requires n >= 0 && 0 <= s < m
    ensures var start := BackwardStart(n, s, m); n - m <= start < n && (start - s) % m == 0
  {
    var base := n - n % m;
    RoundDown(n, m);
    ModShift(base - m, m);
  }

  /** A backward walk from a page congruent to s and at least s + m ends with s + m, then s. */
  lemma {:induction false} BackwardAppend(start: int, s: int, m: int)
    requires m >= 1 && start >= s + m && (start - s) % m == 0
    ensures BackwardPages(start, s, m) == BackwardPages(start, s + m, m) + [s]
    decreases start - s
  {
    ModShift(start - s - m, m);
    if start - m >= s + m {
      BackwardAppend(start - m, s, m);
    } else {
      CongruentClose(start - s - m, 0, m);
      assert BackwardPages(s, s, m) == [s] + BackwardPages(s - m, s, m);
      assert BackwardPages(s + m, s + m, m) == [s + m] + BackwardPages(s, s + m, m);
    }
  }

  /** The backward walk from a forward walk's last page is that walk reversed. */
  lemma {:induction false} BackwardOfForward(n: int, s: int, m: int)
    requires 0 <= s < n && m >= 1
    ensures |ForwardPages(n, s, m)| > 0
    ensures var f := ForwardPages(n, s, m); BackwardPages(f[|f| - 1], s, m) == Reverse(f)
    decreases n - s
  {
    var f := ForwardPages(n, s, m);
    if s + m >= n {
      assert ForwardPages(n, s + m, m) == [];
    } else {
      var g := ForwardPages(n, s + m, m);
      var last := BackwardTail(n, s, m);
      assert f == [s] + g;
      assert f[|f| - 1] == last;
      BackwardAppend(last, s, m);
      ReverseCons(s, g);
    }
  }

  /** The step of BackwardOfForward: the tail walk's last page, whose backward walk down to s + m is the tail reversed. */
  lemma {:induction false} BackwardTail(n: int, s: int, m: int) returns (last: int)
    requires 0 <= s && s + m < n && m >= 1
    ensures var g := ForwardPages(n, s + m, m);
            && |g| > 0 && last == g[|g| - 1] && last >= s + m && (last - s) % m == 0
            && BackwardPages(last, s + m, m) == Reverse(g)
    decreases n - s, 0
  {
    last := TailLast(n, s, m);
    BackwardOfForward(n, s + m, m);
  }

  /** The tail walk's last page is congruent to s. */
  lemma TailLast(n: int, s: int, m: int) returns (last: int)
    requires 0 <= s && s + m < n && m >= 1
    ensures var g := ForwardPages(n, s + m, m);
            && |g| > 0 && last == g[|g| - 1] && last >= s + m && (last - s) % m == 0
  {
    ForwardPagesLast(n, s + m, m);
    var g := ForwardPages(n, s + m, m);
    last := g[|g| - 1];
    ModStep(last - (s + m), last - s, m);
  }

  /**
   * The backward walk resample_pages_modn starts from BackwardStart visits
   * exactly the forward walk's pages in reverse order.
   */
  lemma BackwardIsReverse(n: int, s: int, m: int)
    requires n >= 0 && 0 <= s < m
    ensures BackwardPages(BackwardStart(n, s, m), s, m) == Reverse(ForwardPages(n, s, m))
  {
    BackwardStartBounds(n, s, m);
    if s < n {
      ForwardPagesLast(n, s, m);
      BackwardOfForward(n, s, m);
      var f := ForwardPages(n, s, m);
      CongruentClose(f[|f| - 1] - s, BackwardStart(n, s, m) - s, m);
    }
  }

  /**
   * The m threads split the pages: a page below n is on the walk of thread
   * page mod m and on no other thread's walk.
   */
  lemma ThreadsPartitionPages(n: int, m: int, page: int)
    requires m >= 1 && 0 <= page < n
    ensures page in ForwardPages(n, page % m, m)
    ensures forall s | 0 <= s < m && page in ForwardPages(n, s, m) :: s == page % m
  {
    OwnThread(n, m, page);
    forall s | 0 <= s < m && page in ForwardPages(n, s, m)
      ensures s == page % m
    {
      OnlyThread(n, m, s, page);
    }
  }

  lemma OwnThread(n: int, m: int, page: int)
    requires m >= 1 && 0 <= page < n
    ensures page in ForwardPages(n, page % m, m)
  {
    ForwardPagesMembers(n, page % m, m, page);
    RoundDown(page, m);
  }

  lemma OnlyThread(n: int, m: int, s: int, page: int)
    requires 0 <= s < m && page in ForwardPages(n, s, m)
    ensures s == page % m
  {
    ForwardPagesMembers(n, s, m, page);
    var q := (page - s) / m;
    assert page - s == m * q + 0;
    DivModOfRow(m, q, s);
  }

  /** With one thread the forward walk is every page in order. */
  lemma {:induction false} SingleThreadWalk(n: int, s: int)
    requires 0 <= s
    ensures |ForwardPages(n, s, 1)| == if s < n then n - s else 0
    ensures forall i | 0 <= i < |ForwardPages(n, s, 1)| :: ForwardPages(n, s, 1)[i] == s + i
    decreases n - s
  {
    if s < n {
      SingleThreadWalk(n, s + 1);
    }
  }

  // ------------------------------------------------- revision orders

  /**
   * resample_page over a sequence of pages: each page's revision list in
   * file order going forwards, or from its end going backwards.
   */
  function Visit(lists: seq<seq<int>>, pages: seq<int>, forward: bool): (order: seq<int>)
    requires forall i | 0 <= i < |pages| :: 0 <= pages[i] < |lists|
  {
    if |pages| == 0 then []
    else (if forward then lists[pages[0]] else Reverse(lists[pages[0]])) + Visit(lists, pages[1..], forward)
  }

  /** The revisions thread s of m visits: its page walk, each page in the sweep's direction. */
  function ThreadOrder(lists: seq<seq<int>>, s: int, m: int, forward: bool): seq<int>
    requires 0 <= s < m
  {
    var n := |lists|;
    if forward then Visit(lists, ForwardPages(n, s, m), true)
    else Visit(lists, BackwardPages(BackwardStart(n, s, m), s, m), false)
  }

  /** Every page list, forwards, in page order. */
  function Flatten(lists: seq<seq<int>>): seq<int>
  {
    if |lists| == 0 then [] else lists[0] + Flatten(lists[1..])
  }

  lemma ReverseAppend<T>(a: seq<T>, b: seq<T>)
    ensures Reverse(a + b) == Reverse(b) + Reverse(a)
  {
    var r, l := Reverse(a + b), Reverse(b) + Reverse(a);
    assert |r| == |l|;
    forall i | 0 <= i < |r|
      ensures r[i] == l[i]
    {
      if i < |b| {
        assert r[i] == (a + b)[|a| + |b| - 1 - i];
      } else {
        assert r[i] == (a + b)[|a| + |b| - 1 - i];
      }
    }
  }

  lemma {:induction false} VisitAppend(lists: seq<seq<int>>, xs: seq<int>, ys: seq<int>, forward: bool)
    requires forall i | 0 <= i < |xs| :: 0 <= xs[i] < |lists|
    requires forall i | 0 <= i < |ys| :: 0 <= ys[i] < |lists|
    ensures forall i | 0 <= i < |xs + ys| :: 0 <= (xs + ys)[i] < |lists|
    ensures Visit(lists, xs + ys, forward) == Visit(lists, xs, forward) + Visit(lists, ys, forward)
  {
    if |xs| > 0 {
      assert (xs + ys)[1..] == xs[1..] + ys;
      VisitAppend(lists, xs[1..], ys, forward);
    } else {
      assert xs + ys == ys;
    }
  }

  /** Visiting the pages in reverse order, each list backwards, is the forward visit reversed. */
  lemma {:induction false} VisitReversed(lists: seq<seq<int>>, pages: seq<int>)
    requires forall i | 0 <= i < |pages| :: 0 <= pages[i] < |lists|
    ensures forall i | 0 <= i < |Reverse(pages)| :: 0 <= Reverse(pages)[i] < |lists|
    ensures Visit(lists, Reverse(pages), false) == Reverse(Visit(lists, pages, true))
  {
    if |pages| > 0 {
      var rest := pages[1..];
      VisitReversed(lists, rest);
      assert Reverse(pages) == Reverse(rest) + [pages[0]];
      VisitAppend(lists, Reverse(rest), [pages[0]], false);
      assert Visit(lists, [pages[0]], false) == Reverse(lists[pages[0]]);
      ReverseAppend(lists[pages[0]], Visit(lists, rest, true));
    }
  }

  /**
   * resample_reverse and resample_zero visit exactly the revisions a
   * forward sweep of the same thread visits, in the opposite order.
   */
  lemma ThreadOrderReversed(lists: seq<seq<int>>, s: int, m: int)
    requires 0 <= s < m
    ensures ThreadOrder(lists, s, m, false) == Reverse(ThreadOrder(lists, s, m, true))
  {
    var n := |lists|;
    BackwardIsReverse(n, s, m);
    VisitReversed(lists, ForwardPages(n, s, m));
  }

  /** With one thread a forward sweep visits every page list in page order. */
  lemma SingleThreadOrder(lists: seq<seq<int>>)
    ensures ThreadOrder(lists, 0, 1, true) == Flatten(lists)
  {
    VisitFrom(lists, 0);
    assert lists[0..] == lists;
  }

  /** Visiting pages s, s + 1, ... in order is the flattening of the lists from s on. */
  lemma {:induction false} VisitFrom(lists: seq<seq<int>>, s: int)
    requires 0 <= s <= |lists|
    ensures Visit(lists, ForwardPages(|lists|, s, 1), true) == Flatten(lists[s..])
    decreases |lists| - s
  {
    if s < |lists| {
      VisitFrom(lists, s + 1);
      var pages := ForwardPages(|lists|, s, 1);
      assert pages[1..] == ForwardPages(|lists|, s + 1, 1);
      assert lists[s..][1..] == lists[s + 1..];
    }
  }

  // ------------------------------------------------------ distinct ids

  /** No entry repeats. */
  predicate Distinct(order: seq<int>) {
    forall i, j | 0 <= i < j < |order| :: order[i] != order[j]
  }

  function Entries(order: seq<int>): set<int> {
    set i | 0 <= i < |order| :: order[i]
  }

  lemma {:induction false} DistinctEntries(order: seq<int>)
    requires Distinct(order)
    ensures |Entries(order)| == |order|
  {
    if |order| > 0 {
      var front := order[..|order| - 1];
      DistinctEntries(front);
      assert Entries(order) == Entries(front) + {order[|order| - 1]};
      assert order[|order| - 1] !in Entries(front);
    }
  }

  lemma SubsetSize(a: set<int>, b: set<int>)
    requires a <= b
    ensures |a| <= |b|
  {
    assert b == a + (b - a);
    assert a * (b - a) == {};
  }

  /** The ids 0 .. n - 1. */
  function Ids(n: nat): (ids: set<int>)
    ensures |ids| == n && forall x :: x in ids <==> 0 <= x < n
  {
    if n == 0 then {} else Ids(n - 1) + {n - 1}
  }

  /** A sequence of distinct ids below n has at most n entries. */
  lemma DistinctBound(order: seq<int>, n: nat)
    requires Distinct(order) && forall i | 0 <= i < |order| :: 0 <= order[i] < n
    ensures |order| <= n
  {
    DistinctEntries(order);
    SubsetSize(Entries(order), Ids(n));
  }

  /** Reversing keeps the entries and their distinctness. */
  lemma ReverseEntries(order: seq<int>)
    ensures forall x :: x in Reverse(order) <==> x in order
    ensures Distinct(order) ==> Distinct(Reverse(order))
  {
    var r := Reverse(order);
    forall x | x in order
      ensures x in r
    {
      var i :| 0 <= i < |order| && order[i] == x;
      assert r[|order| - 1 - i] == x;
    }
  }
}
