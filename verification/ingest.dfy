/**
 * Ingestion (src/store_revisions.c): building the revision records and
 * the page and user adjacency lists from the tab-separated revision
 * stream. Parsing is out of scope: the stream arrives as a sequence of
 * already-scanned records.
 *
 * get_file_stats is a pass computing the record count and the largest
 * ids; fill_mmaps links each revision to its parent (and the parent back
 * to its first reverting child), tallies each page's and user's records,
 * and in a second pass lays every list out contiguously in the order its
 * page or user is first seen.
 */
module Ingest {
  import opened Records
  import opened Layout

  /** One input record: page_id, timestamp, user_id, revision_id, parent_revision_id and the flag character. */
  datatype Line = Line(page: int, timestamp: int, user: int, id: int, parent: int, flag: char)

  /** struct revision_stats. */
  datatype Stats = Stats(totalRevisions: int, maxRevisionId: int, maxUserId: int, maxPageId: int)

  /** The three id columns get_file_stats maximises. */
  datatype Column = PageColumn | UserColumn | IdColumn

  function Field(line: Line, c: Column): int {
    match c
    case PageColumn => line.page
    case UserColumn => line.user
    case IdColumn => line.id
  }

  /** m is the larger of -1 and every value in column c: the running maximum starts at -1. */
  predicate MaxOf(lines: seq<Line>, c: Column, m: int) {
    && m >= -1
    && (forall j | 0 <= j < |lines| :: Field(lines[j], c) <= m)
    && (m == -1 || exists j | 0 <= j < |lines| :: Field(lines[j], c) == m)
  }

  /** get_file_stats: count the records and keep the largest page, user and revision id. */
  method GetFileStats(lines: seq<Line>) returns (st: Stats)
    ensures st.totalRevisions == |lines|
    ensures MaxOf(lines, PageColumn, st.maxPageId)
    ensures MaxOf(lines, UserColumn, st.maxUserId)
    ensures MaxOf(lines, IdColumn, st.maxRevisionId)
  {
    st := Stats(0, -1, -1, -1);
    var i := 0;
    while i < |lines|
      invariant i <= |lines| && st.totalRevisions == i
      invariant MaxOf(lines[..i], PageColumn, st.maxPageId)
      invariant MaxOf(lines[..i], UserColumn, st.maxUserId)
      invariant MaxOf(lines[..i], IdColumn, st.maxRevisionId)
    {
      var line := lines[i];
      var maxUser := if line.user > st.maxUserId then line.user else st.maxUserId;
      var maxPage := if line.page > st.maxPageId then line.page else st.maxPageId;
      var maxId := if line.id > st.maxRevisionId then line.id else st.maxRevisionId;
      MaxStep(lines, i, PageColumn, st.maxPageId);
      MaxStep(lines, i, UserColumn, st.maxUserId);
      MaxStep(lines, i, IdColumn, st.maxRevisionId);
      st := Stats(st.totalRevisions + 1, maxId, maxUser, maxPage);
      i := i + 1;
    }
    assert lines[..i] == lines;
  }

  /** One more record keeps the running maximum exact. */
  lemma MaxStep(lines: seq<Line>, i: int, c: Column, m: int)
    requires 0 <= i < |lines| && MaxOf(lines[..i], c, m)
    ensures MaxOf(lines[..i + 1], c, if Field(lines[i], c) > m then Field(lines[i], c) else m)
  {
    var m' := if Field(lines[i], c) > m then Field(lines[i], c) else m;
    assert lines[..i + 1] == lines[..i] + [lines[i]];
    if m' != -1 {
      if Field(lines[i], c) > m {
        assert Field(lines[..i + 1][i], c) == m';
      } else {
        var j :| 0 <= j < i && Field(lines[..i][j], c) == m;
        assert Field(lines[..i + 1][j], c) == m';
      }
    }
  }

  /** user_index_mmap_size: header, one list header per user id up to the largest, one id per record. */
  function UserIndexMmapSize(st: Stats): int {
    UserHeaderSize + ListIndexSize * (st.maxUserId + 1) + WordSize * st.totalRevisions
  }

  /** page_index_mmap_size: header, one list header per page id up to the largest, one id per record. */
  function PageIndexMmapSize(st: Stats): int {
    PageHeaderSize + ListIndexSize * (st.maxPageId + 1) + WordSize * st.totalRevisions
  }

  /** revision_mmap_size: header and one record per revision id up to the largest. */
  function RevisionMmapSize(st: Stats): int {
    RevisionHeaderSize + RevisionSize * (st.maxRevisionId + 1)
  }

  /**
   * The revision region before the first pass: created zeroed, then every
   * child set to -1 (src/store_revisions.c:87-89). `article` is the page
   * an unread revision appears to be on; the source leaves it 0.
   */
  function Blank(count: nat, article: int): (revs: seq<Revision>)
    ensures |revs| == count
  {
    seq(count, _ => Revision(article, 0, 0, 0, NoId, false))
  }

  /**
   * One record of fill_mmaps' first pass, as far as the revision region
   * goes: store the record, then keep the parent link only if the parent
   * is on the same page and no earlier record claimed it, in which case
   * the parent's child becomes this revision. Writing outside the region
   * is an OutOfRange failure.
   */
  function LinkOne(revs: seq<Revision>, line: Line): (res: Result<seq<Revision>>)
    ensures res.Success? ==> |res.value| == |revs|
  {
    var x, q := line.id, line.parent;
    if !(0 <= x < |revs|) || q >= |revs| then Failure(OutOfRange)
    else
      var stored := revs[x := Revision(line.page, line.timestamp, line.user, q, revs[x].child, line.flag == 't')];
      var dropped := revs[x := Revision(line.page, line.timestamp, line.user, NoId, revs[x].child, line.flag == 't')];
      if q < 0 then Success(stored)
      else if stored[q].article != line.page then Success(dropped)
      else if stored[q].child != NoId then Success(dropped)
      else Success(stored[q := stored[q].(child := x)])
  }

  /** The first pass over every record, in input order. */
  function LinkAll(revs: seq<Revision>, lines: seq<Line>): (res: Result<seq<Revision>>)
    ensures res.Success? ==> |res.value| == |revs|
  {
    if |lines| == 0 then Success(revs)
    else
      var before :- LinkAll(revs, lines[..|lines| - 1]);
      LinkOne(before, lines[|lines| - 1])
  }

  /** The revision ids the records name. */
  function Named(lines: seq<Line>): set<int> {
    if |lines| == 0 then {} else Named(lines[..|lines| - 1]) + {lines[|lines| - 1].id}
  }

  /** No revision id occurs in two records. */
  predicate DistinctIds(lines: seq<Line>) {
    forall i, j | 0 <= i < j < |lines| :: lines[i].id != lines[j].id
  }

  /**
   * Parent and child links agree: a revision's child names it as parent,
   * and a named revision's parent names it as child (the check of
   * src/verify_mmaps.c:48-53).
   */
  predicate Symmetric(revs: seq<Revision>, named: set<int>) {
    && (forall r | 0 <= r < |revs| && revs[r].child >= 0 ::
          revs[r].child < |revs| && revs[r].child in named && revs[revs[r].child].parent == r)
    && (forall r | r in named && 0 <= r < |revs| && revs[r].parent >= 0 ::
          revs[r].parent < |revs| && revs[revs[r].parent].child == r)
  }

  predicate NoChildren(revs: seq<Revision>) {
    forall r | 0 <= r < |revs| :: revs[r].child == NoId
  }

  /** One record keeps the links symmetric when its id is new. */
  lemma LinkOneSymmetric(revs: seq<Revision>, line: Line, named: set<int>)
    requires Symmetric(revs, named) && line.id !in named && LinkOne(revs, line).Success?
    ensures Symmetric(LinkOne(revs, line).value, named + {line.id})
  {
    var x, q := line.id, line.parent;
    var kept := Revision(line.page, line.timestamp, line.user, q, revs[x].child, line.flag == 't');
    var dropped := Revision(line.page, line.timestamp, line.user, NoId, revs[x].child, line.flag == 't');
    var stored := revs[x := kept];
    if q < 0 {
      StoreSymmetric(revs, named, x, kept);
    } else if stored[q].article != line.page || stored[q].child != NoId {
      StoreSymmetric(revs, named, x, dropped);
    } else {
      LinkSymmetric(revs, named, x, kept);
    }
  }

  /** Storing a new record without a parent link keeps the links symmetric. */
  lemma StoreSymmetric(revs: seq<Revision>, named: set<int>, x: int, rec: Revision)
    requires Symmetric(revs, named) && x !in named && 0 <= x < |revs| && rec.child == revs[x].child && rec.parent < 0
    ensures Symmetric(revs[x := rec], named + {x})
  {
    var res := revs[x := rec];
    forall r | 0 <= r < |res| && res[r].child >= 0
      ensures res[r].child < |res| && res[r].child in named + {x} && res[res[r].child].parent == r
    {
      assert res[r].child == revs[r].child != x;
    }
  }

  /** Storing a new record and making it its parent's child keeps the links symmetric. */
  lemma LinkSymmetric(revs: seq<Revision>, named: set<int>, x: int, rec: Revision)
    requires Symmetric(revs, named) && x !in named && 0 <= x < |revs| && rec.child == revs[x].child
    requires 0 <= rec.parent < |revs| && revs[x := rec][rec.parent].child == NoId
    ensures var stored := revs[x := rec]; Symmetric(stored[rec.parent := stored[rec.parent].(child := x)], named + {x})
  {
    var q, stored := rec.parent, revs[x := rec];
    var res := stored[q := stored[q].(child := x)];
    forall r | 0 <= r < |res| && res[r].child >= 0
      ensures res[r].child < |res| && res[r].child in named + {x} && res[res[r].child].parent == r
    {
      if r != q {
        assert res[r].child == revs[r].child != x;
      }
    }
    forall r | r in named + {x} && 0 <= r < |res| && res[r].parent >= 0
      ensures res[r].parent < |res| && res[res[r].parent].child == r
    {
      if r != x {
        assert res[r].parent == revs[r].parent && revs[revs[r].parent].child == r;
      }
    }
  }

  /**
   * After the first pass over records with distinct ids, parent and child
   * links are symmetric.
   */
  lemma {:induction false} LinkAllSymmetric(init: seq<Revision>, lines: seq<Line>)
    requires NoChildren(init) && DistinctIds(lines) && LinkAll(init, lines).Success?
    ensures Symmetric(LinkAll(init, lines).value, Named(lines))
  {
    if |lines| > 0 {
      var front := lines[..|lines| - 1];
      assert DistinctIds(front);
      LinkAllSymmetric(init, front);
      NotYetNamed(lines);
      LinkOneSymmetric(LinkAll(init, front).value, lines[|lines| - 1], Named(front));
    }
  }

  /** With distinct ids, the last record's id was not named before it. */
  lemma {:induction false} NotYetNamed(lines: seq<Line>)
    requires |lines| > 0 && DistinctIds(lines)
    ensures lines[|lines| - 1].id !in Named(lines[..|lines| - 1])
  {
    var front := lines[..|lines| - 1];
    NamedAt(front);
  }

  /** Named(lines) is exactly the set of ids in the records. */
  lemma {:induction false} NamedAt(lines: seq<Line>)
    ensures forall r :: r in Named(lines) <==> exists j | 0 <= j < |lines| :: lines[j].id == r
  {
    if |lines| > 0 {
      var front := lines[..|lines| - 1];
      NamedAt(front);
      forall r | r in Named(lines)
        ensures exists j | 0 <= j < |lines| :: lines[j].id == r
      {
        if r in Named(front) {
          var j :| 0 <= j < |front| && front[j].id == r;
          assert lines[j].id == r;
        } else {
          assert lines[|lines| - 1].id == r;
        }
      }
      forall r | exists j | 0 <= j < |lines| :: lines[j].id == r
        ensures r in Named(lines)
      {
        var j :| 0 <= j < |lines| && lines[j].id == r;
        if j < |lines| - 1 {
          assert front[j].id == r;
        }
      }
    }
  }
  /**
   * Every record is on a real page, and the revisions not yet read still
   * sit on the page `unread` they started on: 0 in the zeroed region of
   * the source, -1 in the corrected starting state.
   */
  predicate PagesKnown(revs: seq<Revision>, named: set<int>, unread: int) {
    forall r | 0 <= r < |revs| :: if r in named then revs[r].article >= 0 else revs[r].article == unread
  }

  /** Every kept parent link stays within one page. */
  predicate SamePage(revs: seq<Revision>, named: set<int>) {
    forall r | r in named && 0 <= r < |revs| && revs[r].parent >= 0 ::
      revs[r].parent < |revs| && revs[revs[r].parent].article == revs[r].article
  }

  /**
   * Every kept parent link stays within one page, except that a record
   * on the page `unread` may be linked to a parent whose record had not
   * been read when the link was made.
   */
  predicate LinkedPages(revs: seq<Revision>, named: set<int>, unread: int) {
    forall r | r in named && 0 <= r < |revs| && revs[r].parent >= 0 ::
      revs[r].parent < |revs| && (revs[revs[r].parent].article == revs[r].article || revs[r].article == unread)
  }

  /** Page ids are non-negative (they index the page array). */
  predicate PagesNonNegative(lines: seq<Line>) {
    forall j | 0 <= j < |lines| :: lines[j].page >= 0
  }

  lemma LinkOnePages(revs: seq<Revision>, line: Line, named: set<int>, unread: int)
    requires PagesKnown(revs, named, unread) && LinkedPages(revs, named, unread) && line.id !in named && line.page >= 0
    requires LinkOne(revs, line).Success?
    ensures PagesKnown(LinkOne(revs, line).value, named + {line.id}, unread)
    ensures LinkedPages(LinkOne(revs, line).value, named + {line.id}, unread)
  {
    var x, q := line.id, line.parent;
    var res := LinkOne(revs, line).value;
    var named' := named + {x};
    assert forall r | 0 <= r < |res| && r != x :: res[r].article == revs[r].article;
    assert res[x].article == line.page;
    forall r | r in named' && 0 <= r < |res| && res[r].parent >= 0
      ensures res[r].parent < |res| && (res[res[r].parent].article == res[r].article || res[r].article == unread)
    {
      if r != x {
        assert res[r].parent == revs[r].parent;
        if revs[r].parent == x {
          assert revs[x].article == unread;
        }
      }
    }
  }

  /**
   * The first pass from a region whose unread revisions sit on page
   * `unread`: every kept parent link joins two revisions of one page,
   * unless the child is on page `unread`.
   */
  lemma {:induction false} LinkAllPages(count: nat, unread: int, lines: seq<Line>)
    requires DistinctIds(lines) && PagesNonNegative(lines) && LinkAll(Blank(count, unread), lines).Success?
    ensures PagesKnown(LinkAll(Blank(count, unread), lines).value, Named(lines), unread)
    ensures LinkedPages(LinkAll(Blank(count, unread), lines).value, Named(lines), unread)
  {
    if |lines| > 0 {
      var front := lines[..|lines| - 1];
      assert DistinctIds(front) && PagesNonNegative(front);
      LinkAllPages(count, unread, front);
      NotYetNamed(lines);
      LinkOnePages(LinkAll(Blank(count, unread), front).value, lines[|lines| - 1], Named(front), unread);
    }
  }

  /**
   * With unread revisions starting on page -1 instead of 0, every parent
   * link the first pass keeps joins two revisions of the same page.
   */
  lemma LinkAllSamePage(count: nat, lines: seq<Line>)
    requires DistinctIds(lines) && PagesNonNegative(lines) && LinkAll(Blank(count, NoId), lines).Success?
    ensures SamePage(LinkAll(Blank(count, NoId), lines).value, Named(lines))
  {
    LinkAllPages(count, NoId, lines);
  }

  /**
   * As written, an unread revision looks as if it were on page 0: a record
   * on page 0 naming a parent whose own record comes later (on page 5)
   * keeps the link, and the two ends of it are on different pages.
   */
  lemma CrossPageLink()
    ensures var lines := [Line(0, 0, 0, 1, 0, 't'), Line(5, 0, 0, 0, NoId, 'f')];
            var res := LinkAll(Blank(2, 0), lines);
            && res.Success? && res.value[1].parent == 0 && res.value[0].child == 1
            && res.value[0].article == 5 && res.value[1].article == 0
  {
    var lines := [Line(0, 0, 0, 1, 0, 't'), Line(5, 0, 0, 0, NoId, 'f')];
    var blank := Blank(2, 0);
    assert blank == [Revision(0, 0, 0, 0, NoId, false), Revision(0, 0, 0, 0, NoId, false)];
    assert lines[..1][..0] == [] && lines[..1] == [lines[0]];
    var first := [Revision(0, 0, 0, 0, 1, false), Revision(0, 0, 0, 0, NoId, true)];
    var stored := blank[1 := Revision(0, 0, 0, 0, NoId, true)];
    assert stored[0].article == 0 && stored[0].child == NoId;
    assert stored[0 := stored[0].(child := 1)] == first;
    assert LinkAll(blank, lines[..1]) == Success(first);
    var last := first[0 := Revision(5, 0, 0, NoId, 1, false)];
    assert LinkOne(first, lines[1]) == Success(last);
  }
  /** On the same two records, starting unread revisions on page -1 drops the link. */
  lemma CrossPageLinkDropped()
    ensures var lines := [Line(0, 0, 0, 1, 0, 't'), Line(5, 0, 0, 0, NoId, 'f')];
            var res := LinkAll(Blank(2, NoId), lines);
            res.Success? && res.value[1].parent == NoId && res.value[0].child == NoId
  {
    var lines := [Line(0, 0, 0, 1, 0, 't'), Line(5, 0, 0, 0, NoId, 'f')];
    var blank := Blank(2, NoId);
    assert blank == [Revision(NoId, 0, 0, 0, NoId, false), Revision(NoId, 0, 0, 0, NoId, false)];
    assert lines[..1][..0] == [] && lines[..1] == [lines[0]];
    var first := blank[1 := Revision(0, 0, 0, NoId, NoId, true)];
    assert LinkAll(blank, lines[..1]) == Success(first);
    var last := first[0 := Revision(5, 0, 0, NoId, NoId, false)];
    assert LinkOne(first, lines[1]) == Success(last);
  }

  /** How many records have key k (a page or user id). */
  function Occ(keys: seq<int>, k: int): nat {
    if |keys| == 0 then 0 else Occ(keys[..|keys| - 1], k) + (if keys[|keys| - 1] == k then 1 else 0)
  }

  /** The revision ids of the records with key k, in input order: what k's list must hold. */
  function IdsWith(keys: seq<int>, ids: seq<int>, k: int): (list: seq<int>)
    requires |keys| == |ids|
    ensures |list| == Occ(keys, k)
  {
    if |keys| == 0 then []
    else
      var front := IdsWith(keys[..|keys| - 1], ids[..|ids| - 1], k);
      if keys[|keys| - 1] == k then front + [ids[|ids| - 1]] else front
  }

  /** Every key indexes one of n list headers. */
  predicate KeysBelow(keys: seq<int>, n: int) {
    forall j | 0 <= j < |keys| :: 0 <= keys[j] < n
  }

  lemma OccPush(keys: seq<int>, i: int, k: int)
    requires 0 <= i < |keys|
    ensures Occ(keys[..i + 1], k) == Occ(keys[..i], k) + (if keys[i] == k then 1 else 0)
  {
    assert keys[..i + 1][..i] == keys[..i];
  }

  /** A prefix has no more records of a key than the whole input. */
  lemma {:induction false} OccPrefix(keys: seq<int>, i: int, k: int)
    requires 0 <= i <= |keys|
    ensures Occ(keys[..i], k) <= Occ(keys, k)
    decreases |keys|
  {
    if i < |keys| {
      var front := keys[..|keys| - 1];
      assert keys[..i] == front[..i];
      OccPrefix(front, i, k);
    } else {
      assert keys[..i] == keys;
    }
  }

  /**
   * fill_mmaps' tally (src/store_revisions.c:111-112) over one kind of
   * list: each header's count becomes its key's number of records; the
   * offsets stay 0.
   */
  method CountLists(keys: seq<int>, n: nat) returns (index: seq<ListIndex>)
    requires KeysBelow(keys, n)
    ensures |index| == n
    ensures forall k | 0 <= k < n :: index[k] == ListIndex(Occ(keys, k), 0)
  {
    index := seq(n, _ => ListIndex(0, 0));
    var i := 0;
    while i < |keys|
      invariant i <= |keys| && |index| == n
      invariant forall k | 0 <= k < n :: index[k] == ListIndex(Occ(keys[..i], k), 0)
    {
      var key := keys[i];
      forall k | 0 <= k < n
        ensures Occ(keys[..i + 1], k) == Occ(keys[..i], k) + (if key == k then 1 else 0)
      {
        OccPush(keys, i, k);
      }
      index := index[key := ListIndex(index[key].countRevisions + 1, 0)];
      i := i + 1;
    }
    assert keys[..i] == keys;
  }
  /**
   * One kind of adjacency region during the second pass: the list
   * headers, the id words written so far (keyed by byte offset in the
   * region) and the offset the next new list will start at.
   */
  datatype Lists = Lists(index: seq<ListIndex>, store: map<int, int>, cursor: int)

  /**
   * One record of the second pass (src/store_revisions.c:124-131 for
   * pages, 133-140 for users): a list whose offset is still 0 is given
   * the next free block, sized by its tally, and restarts its count; the
   * id is then written at the list's next slot.
   */
  function PlaceOne(L: Lists, key: int, id: int): Lists
    requires 0 <= key < |L.index|
  {
    var e := L.index[key];
    if e.revisionsOffset == 0 then
      Lists(L.index[key := ListIndex(1, L.cursor)], L.store[L.cursor := id], L.cursor + WordSize * e.countRevisions)
    else
      Lists(L.index[key := ListIndex(e.countRevisions + 1, e.revisionsOffset)],
            L.store[e.revisionsOffset + WordSize * e.countRevisions := id], L.cursor)
  }

  /** Blocks of c1 and c2 words at o1 and o2 do not overlap. */
  predicate Apart(o1: int, c1: int, o2: int, c2: int) {
    o1 + WordSize * c1 <= o2 || o2 + WordSize * c2 <= o1
  }

  /** Among the first m records, how many have a key already seen in the first i. */
  function SeenLines(keys: seq<int>, i: int, m: int): nat
    requires 0 <= i <= |keys| && 0 <= m <= |keys|
  {
    if m == 0 then 0 else SeenLines(keys, i, m - 1) + (if Occ(keys[..i], keys[m - 1]) > 0 then 1 else 0)
  }

  lemma {:induction false} SeenLinesBound(keys: seq<int>, i: int, m: int)
    requires 0 <= i <= |keys| && 0 <= m <= |keys|
    ensures SeenLines(keys, i, m) <= m
  {
    if m > 0 {
      SeenLinesBound(keys, i, m - 1);
    }
  }

  /** Seeing a new key adds all of its records to the seen ones; seeing an old one adds none. */
  lemma {:induction false} SeenLinesStep(keys: seq<int>, i: int, m: int)
    requires 0 <= i < |keys| && 0 <= m <= |keys|
    ensures SeenLines(keys, i + 1, m)
            == SeenLines(keys, i, m) + (if Occ(keys[..i], keys[i]) == 0 then Occ(keys[..m], keys[i]) else 0)
  {
    if m > 0 {
      SeenLinesStep(keys, i, m - 1);
      OccPush(keys, i, keys[m - 1]);
      OccPush(keys, m - 1, keys[i]);
    }
  }

  lemma IdsPush(keys: seq<int>, ids: seq<int>, i: int, k: int)
    requires 0 <= i < |keys| == |ids|
    ensures IdsWith(keys[..i + 1], ids[..i + 1], k)
            == IdsWith(keys[..i], ids[..i], k) + (if keys[i] == k then [ids[i]] else [])
  {
    assert keys[..i + 1][..i] == keys[..i] && ids[..i + 1][..i] == ids[..i];
  }

  /** Headers: unseen lists keep their tally and offset 0; seen ones count their records so far inside their block. */
  ghost predicate Headers(keys: seq<int>, i: int, base: int, L: Lists)
    requires 0 <= i <= |keys|
  {
    forall k | 0 <= k < |L.index| ::
      if Occ(keys[..i], k) == 0 then L.index[k] == ListIndex(Occ(keys, k), 0)
      else && L.index[k].countRevisions == Occ(keys[..i], k)
           && base <= L.index[k].revisionsOffset
           && L.index[k].revisionsOffset + WordSize * Occ(keys, k) <= L.cursor
  }

  /** The blocks of the lists seen so far, each sized by its full tally, do not overlap. */
  ghost predicate Disjoint(keys: seq<int>, i: int, L: Lists)
    requires 0 <= i <= |keys|
  {
    forall k1, k2 | 0 <= k1 < |L.index| && 0 <= k2 < |L.index| && k1 != k2 && Occ(keys[..i], k1) > 0 && Occ(keys[..i], k2) > 0 ::
      Apart(L.index[k1].revisionsOffset, Occ(keys, k1), L.index[k2].revisionsOffset, Occ(keys, k2))
  }

  /** Each seen list holds the ids of its records so far, in input order. */
  ghost predicate Stored(keys: seq<int>, ids: seq<int>, i: int, L: Lists)
    requires 0 <= i <= |keys| == |ids|
  {
    forall k, j | 0 <= k < |L.index| && 0 <= j < Occ(keys[..i], k) ::
      Slot(L.index, k, j) in L.store && L.store[Slot(L.index, k, j)] == IdsWith(keys[..i], ids[..i], k)[j]
  }

  /** Byte offset of the j-th id of list k. */
  function Slot(index: seq<ListIndex>, k: int, j: int): int
    requires 0 <= k < |index|
  {
    index[k].revisionsOffset + WordSize * j
  }

  /** The second pass after i records. */
  ghost predicate Placing(keys: seq<int>, ids: seq<int>, base: int, i: int, L: Lists) {
    && 0 <= i <= |keys| == |ids| && base > 0 && KeysBelow(keys, |L.index|)
    && L.cursor == base + WordSize * SeenLines(keys, i, |keys|)
    && Headers(keys, i, base, L) && Disjoint(keys, i, L) && Stored(keys, ids, i, L)
  }
  /** One record of the second pass keeps the invariant. */
  lemma PlaceStep(keys: seq<int>, ids: seq<int>, base: int, i: int, L: Lists)
    requires Placing(keys, ids, base, i, L) && i < |keys|
    ensures Placing(keys, ids, base, i + 1, PlaceOne(L, keys[i], ids[i]))
  {
    SeenLinesStep(keys, i, |keys|);
    assert keys[..|keys|] == keys;
    PlaceHeaders(keys, ids, base, i, L);
    PlaceDisjoint(keys, ids, base, i, L);
    PlaceStored(keys, ids, base, i, L);
  }

  lemma PlaceHeaders(keys: seq<int>, ids: seq<int>, base: int, i: int, L: Lists)
    requires Placing(keys, ids, base, i, L) && i < |keys|
    ensures Headers(keys, i + 1, base, PlaceOne(L, keys[i], ids[i]))
  {
    var k := keys[i];
    var L' := PlaceOne(L, k, ids[i]);
    OccPrefix(keys, i + 1, k);
    OccPush(keys, i, k);
    SeenLinesBound(keys, i, |keys|);
    forall k' | 0 <= k' < |L'.index|
      ensures if Occ(keys[..i + 1], k') == 0 then L'.index[k'] == ListIndex(Occ(keys, k'), 0)
              else && L'.index[k'].countRevisions == Occ(keys[..i + 1], k')
                   && base <= L'.index[k'].revisionsOffset
                   && L'.index[k'].revisionsOffset + WordSize * Occ(keys, k') <= L'.cursor
    {
      OccPush(keys, i, k');
    }
  }

  lemma PlaceDisjoint(keys: seq<int>, ids: seq<int>, base: int, i: int, L: Lists)
    requires Placing(keys, ids, base, i, L) && i < |keys|
    ensures Disjoint(keys, i + 1, PlaceOne(L, keys[i], ids[i]))
  {
    var k := keys[i];
    var L' := PlaceOne(L, k, ids[i]);
    OccPush(keys, i, k);
    forall k1, k2 | 0 <= k1 < |L'.index| && 0 <= k2 < |L'.index| && k1 != k2 && Occ(keys[..i + 1], k1) > 0 && Occ(keys[..i + 1], k2) > 0
      ensures Apart(L'.index[k1].revisionsOffset, Occ(keys, k1), L'.index[k2].revisionsOffset, Occ(keys, k2))
    {
      OccPush(keys, i, k1);
      OccPush(keys, i, k2);
    }
  }

  lemma PlaceStored(keys: seq<int>, ids: seq<int>, base: int, i: int, L: Lists)
    requires Placing(keys, ids, base, i, L) && i < |keys|
    ensures Stored(keys, ids, i + 1, PlaceOne(L, keys[i], ids[i]))
  {
    var k, id := keys[i], ids[i];
    var L' := PlaceOne(L, k, id);
    OccPrefix(keys, i + 1, k);
    OccPush(keys, i, k);
    var slot := Slot(L'.index, k, Occ(keys[..i], k));
    assert L'.store == L.store[slot := id];
    forall k', j | 0 <= k' < |L'.index| && 0 <= j < Occ(keys[..i + 1], k')
      ensures Slot(L'.index, k', j) in L'.store && L'.store[Slot(L'.index, k', j)] == IdsWith(keys[..i + 1], ids[..i + 1], k')[j]
    {
      OccPush(keys, i, k');
      IdsPush(keys, ids, i, k');
      var before := IdsWith(keys[..i], ids[..i], k');
      if k' != k {
        assert L'.index[k'] == L.index[k'] && Slot(L'.index, k', j) == Slot(L.index, k', j);
        OccPrefix(keys, i, k');
        if Occ(keys[..i], k) > 0 {
          assert Apart(L.index[k'].revisionsOffset, Occ(keys, k'), L.index[k].revisionsOffset, Occ(keys, k));
        } else {
          assert slot == L.cursor;
        }
        assert L.store[Slot(L.index, k', j)] == before[j];
      } else if j < Occ(keys[..i], k) {
        assert Slot(L'.index, k', j) == Slot(L.index, k', j) < slot;
        assert L.store[Slot(L.index, k', j)] == before[j] == (before + [id])[j];
      } else {
        assert Slot(L'.index, k', j) == slot && (before + [id])[j] == id;
      }
    }
  }
  /**
   * The adjacency region after the second pass: every list counts its
   * records, its offset is 0 exactly when it has none (0 means "unset"),
   * its block lies between the headers and the end of the region without
   * overlapping another, and it holds its records' ids in input order
   * (the check of src/verify_mmaps.c:63-70).
   */
  ghost predicate Filled(keys: seq<int>, ids: seq<int>, base: int, L: Lists)
    requires |keys| == |ids|
  {
    && (forall k | 0 <= k < |L.index| :: L.index[k].countRevisions == Occ(keys, k))
    && (forall k | 0 <= k < |L.index| :: L.index[k].revisionsOffset == 0 <==> Occ(keys, k) == 0)
    && (forall k | 0 <= k < |L.index| && Occ(keys, k) > 0 ::
          base <= L.index[k].revisionsOffset && L.index[k].revisionsOffset + WordSize * Occ(keys, k) <= base + WordSize * |keys|)
    && (forall k1, k2 | 0 <= k1 < |L.index| && 0 <= k2 < |L.index| && k1 != k2 && Occ(keys, k1) > 0 && Occ(keys, k2) > 0 ::
          Apart(L.index[k1].revisionsOffset, Occ(keys, k1), L.index[k2].revisionsOffset, Occ(keys, k2)))
    && (forall k, j | 0 <= k < |L.index| && 0 <= j < Occ(keys, k) ::
          Slot(L.index, k, j) in L.store && L.store[Slot(L.index, k, j)] == IdsWith(keys, ids, k)[j])
  }

  /**
   * fill_mmaps' second pass over one kind of list, starting from the
   * tallies of the first: base is the offset just past the list headers.
   */
  method PlaceLists(keys: seq<int>, ids: seq<int>, index: seq<ListIndex>, base: int) returns (L: Lists)
    requires |keys| == |ids| && base > 0 && KeysBelow(keys, |index|)
    requires forall k | 0 <= k < |index| :: index[k] == ListIndex(Occ(keys, k), 0)
    ensures |L.index| == |index| && Filled(keys, ids, base, L)
  {
    L := Lists(index, map[], base);
    NothingSeen(keys, |keys|);
    var i := 0;
    while i < |keys|
      invariant Placing(keys, ids, base, i, L) && |L.index| == |index|
    {
      PlaceStep(keys, ids, base, i, L);
      L := PlaceOne(L, keys[i], ids[i]);
      i := i + 1;
    }
    PlacedFilled(keys, ids, base, L);
  }

  lemma {:induction false} NothingSeen(keys: seq<int>, m: int)
    requires 0 <= m <= |keys|
    ensures SeenLines(keys, 0, m) == 0
  {
    if m > 0 {
      NothingSeen(keys, m - 1);
    }
  }

  lemma PlacedFilled(keys: seq<int>, ids: seq<int>, base: int, L: Lists)
    requires Placing(keys, ids, base, |keys|, L)
    ensures Filled(keys, ids, base, L)
  {
    assert keys[..|keys|] == keys && ids[..|ids|] == ids;
    SeenLinesBound(keys, |keys|, |keys|);
  }
  /** What fill_mmaps builds: the revision region and the page and user adjacency regions. */
  datatype Ingested = Ingested(revisions: seq<Revision>, pages: Lists, users: Lists)

  function PageKeys(lines: seq<Line>): (keys: seq<int>)
    ensures |keys| == |lines| && forall j | 0 <= j < |lines| :: keys[j] == Field(lines[j], PageColumn)
  {
    seq(|lines|, j requires 0 <= j < |lines| => lines[j].page)
  }

  function UserKeys(lines: seq<Line>): (keys: seq<int>)
    ensures |keys| == |lines| && forall j | 0 <= j < |lines| :: keys[j] == Field(lines[j], UserColumn)
  {
    seq(|lines|, j requires 0 <= j < |lines| => lines[j].user)
  }

  function RevisionIds(lines: seq<Line>): (ids: seq<int>)
    ensures |ids| == |lines| && forall j | 0 <= j < |lines| :: ids[j] == Field(lines[j], IdColumn)
  {
    seq(|lines|, j requires 0 <= j < |lines| => lines[j].id)
  }

  /** The first pass succeeds exactly when every record's revision and parent ids are inside the region. */
  lemma {:induction false} LinkAllSucceeds(revs: seq<Revision>, lines: seq<Line>)
    ensures LinkAll(revs, lines).Success?
            <==> forall j | 0 <= j < |lines| :: 0 <= lines[j].id < |revs| && lines[j].parent < |revs|
  {
    if |lines| > 0 {
      var front := lines[..|lines| - 1];
      LinkAllSucceeds(revs, front);
      assert forall j | 0 <= j < |front| :: front[j] == lines[j];
    }
  }

  /** A stored record carries its line's fields; its parent is the line's or, when dropped, none. */
  predicate Holds(r: Revision, line: Line) {
    && r.article == line.page && r.timestamp == line.timestamp && r.user == line.user
    && (r.parent == line.parent || r.parent == NoId)
    && (r.disagrees <==> line.flag == 't')
  }

  /** With distinct ids, every record ends up stored at its id. */
  lemma {:induction false} LinkAllStores(init: seq<Revision>, lines: seq<Line>)
    requires DistinctIds(lines) && LinkAll(init, lines).Success?
    ensures forall j | 0 <= j < |lines| :: 0 <= lines[j].id < |init| && Holds(LinkAll(init, lines).value[lines[j].id], lines[j])
  {
    if |lines| > 0 {
      var front, last := lines[..|lines| - 1], lines[|lines| - 1];
      assert DistinctIds(front);
      LinkAllStores(init, front);
      var before := LinkAll(init, front).value;
      var after := LinkAll(init, lines).value;
      assert after == LinkOne(before, last).value;
      forall j | 0 <= j < |lines|
        ensures 0 <= lines[j].id < |init| && Holds(after[lines[j].id], lines[j])
      {
        if j < |lines| - 1 {
          assert front[j] == lines[j] && lines[j].id != last.id;
          assert after[lines[j].id].(child := 0) == before[lines[j].id].(child := 0);
        }
      }
    }
  }

  /**
   * The whole of src/store_revisions.c's main: the statistics pass, the
   * header counts and region sizes from them, then fill_mmaps' two passes.
   * Records whose ids would be written outside the regions are an
   * OutOfRange failure. The revision region starts zeroed, so a kept
   * link can cross pages when its child is on page 0 (see CrossPageLink).
   */
  method Ingest(lines: seq<Line>) returns (st: Stats, res: Result<Ingested>)
    ensures st.totalRevisions == |lines|
    ensures MaxOf(lines, PageColumn, st.maxPageId) && MaxOf(lines, UserColumn, st.maxUserId)
    ensures MaxOf(lines, IdColumn, st.maxRevisionId)
    ensures res.Failure? <==> exists j | 0 <= j < |lines| ::
                                lines[j].page < 0 || lines[j].user < 0 || lines[j].id < 0 || lines[j].parent > st.maxRevisionId
    ensures res.Success? ==>
              var revs := res.value.revisions;
              && |revs| == st.maxRevisionId + 1 && RevisionMmapSize(st) == RevisionHeaderSize + RevisionSize * |revs|
              && (DistinctIds(lines) ==>
                    && (forall j | 0 <= j < |lines| :: Holds(revs[lines[j].id], lines[j]))
                    && Symmetric(revs, Named(lines)) && LinkedPages(revs, Named(lines), 0))
    ensures res.Success? ==>
              var pages, base := res.value.pages, PageHeaderSize + ListIndexSize * (st.maxPageId + 1);
              && |pages.index| == st.maxPageId + 1 && base + WordSize * |lines| == PageIndexMmapSize(st)
              && Filled(PageKeys(lines), RevisionIds(lines), base, pages)
    ensures res.Success? ==>
              var users, base := res.value.users, UserHeaderSize + ListIndexSize * (st.maxUserId + 1);
              && |users.index| == st.maxUserId + 1 && base + WordSize * |lines| == UserIndexMmapSize(st)
              && Filled(UserKeys(lines), RevisionIds(lines), base, users)
  {
    st := GetFileStats(lines);
    var bad := exists j | 0 <= j < |lines| :: lines[j].page < 0 || lines[j].user < 0 || lines[j].id < 0 || lines[j].parent > st.maxRevisionId;
    if bad {
      return st, Failure(OutOfRange);
    }
    var revs := LinkRevisions(lines, st.maxRevisionId);
    var ids := RevisionIds(lines);
    var pages := BuildLists(PageKeys(lines), ids, st.maxPageId + 1, PageHeaderSize + ListIndexSize * (st.maxPageId + 1));
    var users := BuildLists(UserKeys(lines), ids, st.maxUserId + 1, UserHeaderSize + ListIndexSize * (st.maxUserId + 1));
    res := Success(Ingested(revs, pages, users));
  }

  /**
   * fill_mmaps' first pass over records whose ids all lie in [0, maxId],
   * in the zeroed region the source creates: a revision whose record has
   * not been read yet looks as if it were on page 0, so a record on page
   * 0 can keep a link to a parent on another page (CrossPageLink).
   */
  function LinkRevisions(lines: seq<Line>, maxId: int): (revs: seq<Revision>)
    requires maxId >= -1 && PagesNonNegative(lines)
    requires forall j | 0 <= j < |lines| :: 0 <= lines[j].id <= maxId && lines[j].parent <= maxId
    ensures |revs| == maxId + 1
    ensures DistinctIds(lines) ==>
              && (forall j | 0 <= j < |lines| :: Holds(revs[lines[j].id], lines[j]))
              && Symmetric(revs, Named(lines)) && LinkedPages(revs, Named(lines), 0)
  {
    var init := Blank(maxId + 1, 0);
    LinkAllSucceeds(init, lines);
    var revs := LinkAll(init, lines).value;
    if DistinctIds(lines) then
      LinkAllStores(init, lines);
      LinkAllSymmetric(init, lines);
      LinkAllPages(maxId + 1, 0, lines);
      revs
    else revs
  }

  /** The corrected first pass: unread revisions start on page -1, and every kept link stays within one page. */
  function LinkRevisionsSamePage(lines: seq<Line>, maxId: int): (revs: seq<Revision>)
    requires maxId >= -1 && PagesNonNegative(lines)
    requires forall j | 0 <= j < |lines| :: 0 <= lines[j].id <= maxId && lines[j].parent <= maxId
    ensures |revs| == maxId + 1
    ensures DistinctIds(lines) ==>
              && (forall j | 0 <= j < |lines| :: Holds(revs[lines[j].id], lines[j]))
              && Symmetric(revs, Named(lines)) && SamePage(revs, Named(lines))
  {
    var init := Blank(maxId + 1, NoId);
    LinkAllSucceeds(init, lines);
    var revs := LinkAll(init, lines).value;
    if DistinctIds(lines) then
      LinkAllStores(init, lines);
      LinkAllSymmetric(init, lines);
      LinkAllSamePage(maxId + 1, lines);
      revs
    else revs
  }

  /** Both passes of fill_mmaps over one kind of list: tally, then lay out. */
  method BuildLists(keys: seq<int>, ids: seq<int>, n: int, base: int) returns (L: Lists)
    requires |keys| == |ids| && n >= 0 && base > 0
    requires forall j | 0 <= j < |keys| :: 0 <= keys[j] < n
    ensures |L.index| == n && Filled(keys, ids, base, L)
  {
    var index := CountLists(keys, n);
    L := PlaceLists(keys, ids, index, base);
  }
}
