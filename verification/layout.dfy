/**
 * Byte layout of the index regions (src/parse_mmaps.c, src/sample.c,
 * src/store_revisions.c): struct sizes, the triangular (pov, antagonist)
 * index, the offsets of a topic's summary, antagonism array and page
 * vector, and the region sizes. The lemmas show that the typed `Loc`
 * handles the rest of the model uses are a faithful stand-in for the
 * source's byte offsets: distinct handles occupy distinct, aligned words
 * inside the summary part of the topic region.
 *
 * Struct sizes are those of an LP64 target with natural alignment.
 */
module Layout {
  import opened Records
  import opened Arith

  const WordSize: int := 8
  const RevisionHeaderSize: int := 8
  /** int32 article, int64 timestamp, int32 user, int64 parent, int64 child, int32 disagrees, padded. */
  const RevisionSize: int := 48
  const PageHeaderSize: int := 8
  const UserHeaderSize: int := 8
  const ListIndexSize: int := 16
  /** two int32, two int64, six doubles. */
  const AssignmentHeaderSize: int := 72
  const AssignmentSize: int := 8
  /** int64 scratch slot, two int32, int64 page count. */
  const SummaryHeaderSize: int := 24
  const SummarySize: int := 40
  const PovSummarySize: int := 16
  const UserTopicHeaderSize: int := 24

  /** Byte offsets of the fields of struct topic_summary and struct pov_summary. */
  const TotalRevisionsField: int := 0
  const RevertGeneralField: int := 8
  const NoRevertGeneralField: int := 16
  const RevertTopicField: int := 24
  const NoRevertTopicField: int := 32
  const RevertCountField: int := 0
  const NoRevertCountField: int := 8

  /** Number of directed (pov, antagonist) cells per topic. */
  function PovPairs(P: int): int {
    P * (P - 1)
  }

  /**
   * The triangular index of get_ant_pov, written without its guard: the
   * antagonist is renumbered down by one when it is above `pov`.
   */
  function TriIndex(P: int, pov: int, ant: int): int {
    (P - 1) * pov + (if ant > pov then ant - 1 else ant)
  }

  /** get_ant_pov: the cell of the ordered pair (pov, ant); the source asserts `pov != ant`. */
  function AntPov(P: int, pov: int, ant: int): (k: int)
    requires 0 <= pov < P && 0 <= ant < P && pov != ant
    ensures 0 <= k < PovPairs(P)
  {
    RowMajorBound(P - 1, P, pov, if ant > pov then ant - 1 else ant);
    TriIndex(P, pov, ant)
  }

  /** The inverse of AntPov: which ordered pair a cell belongs to. */
  function AntPair(P: int, k: int): (pair: (int, int))
    requires P >= 1 && 0 <= k < PovPairs(P)
    ensures 0 <= pair.0 < P && 0 <= pair.1 < P && pair.0 != pair.1
    ensures AntPov(P, pair.0, pair.1) == k
  {
    var w := P - 1;
    assert w > 0 && k < w * P;
    RowMajorSplit(w, P, k);
    var pov := k / w;
    var col := k % w;
    var ant := if col >= pov then col + 1 else col;
    assert (if ant > pov then ant - 1 else ant) == col;
    assert TriIndex(P, pov, ant) == w * pov + col;
    (pov, ant)
  }

  /** AntPov is one-to-one on ordered pairs of distinct POVs. */
  lemma AntPovInjective(P: int, pov1: int, ant1: int, pov2: int, ant2: int)
    requires 0 <= pov1 < P && 0 <= ant1 < P && pov1 != ant1
    requires 0 <= pov2 < P && 0 <= ant2 < P && pov2 != ant2
    requires AntPov(P, pov1, ant1) == AntPov(P, pov2, ant2)
    ensures pov1 == pov2 && ant1 == ant2
  {
    RowMajorUnique(P - 1, pov1, if ant1 > pov1 then ant1 - 1 else ant1,
                   pov2, if ant2 > pov2 then ant2 - 1 else ant2);
  }

  /** Together with AntPair's contract: AntPov is a bijection onto [0, P(P-1)). */
  lemma AntPovRoundTrip(P: int, pov: int, ant: int)
    requires 0 <= pov < P && 0 <= ant < P && pov != ant
    ensures AntPair(P, AntPov(P, pov, ant)) == (pov, ant)
  {
    var pair := AntPair(P, AntPov(P, pov, ant));
    AntPovInjective(P, pair.0, pair.1, pov, ant);
  }

  /** Bytes of one topic's summary followed by its antagonism array. */
  function SummaryStride(P: int): int {
    SummarySize + PovSummarySize * PovPairs(P)
  }

  /** Offset of topic t's struct topic_summary in the topic region. */
  function TopicBase(P: int, t: int): int {
    SummaryHeaderSize + t * SummaryStride(P)
  }

  /** Offset of topic t's antagonism array: immediately after its summary. */
  function PovArrayBase(P: int, t: int): int {
    TopicBase(P, t) + SummarySize
  }

  /** Offset of the first page vector: right after the last topic (topic_index_pages_mmap). */
  function PagesBase(T: int, P: int): int {
    SummaryHeaderSize + T * SummaryStride(P)
  }

  /** Offset of topic t's page-count vector. */
  function PageVectorBase(T: int, P: int, numPages: int, t: int): int {
    PagesBase(T, P) + WordSize * numPages * t
  }

  /** Offset of topic t's count for one page. */
  function PageCountOffset(T: int, P: int, numPages: int, t: int, page: int): int {
    PageVectorBase(T, P, numPages, t) + WordSize * page
  }

  /** topic_summary_mmap_size: header, summaries, page vectors, antagonism arrays. */
  function TopicSummaryMmapSize(T: int, P: int, numPages: int): int {
    SummaryHeaderSize + SummarySize * T + T * WordSize * numPages + T * PovSummarySize * P * (P - 1)
  }

  /** The source's C `int32_t` conversion: wrap modulo 2^32 into the signed range. */
  function WrapInt32(x: int): (r: int)
    ensures -0x8000_0000 <= r < 0x8000_0000
    ensures -0x8000_0000 <= x < 0x8000_0000 ==> r == x
  {
    var m := x % 0x1_0000_0000;
    if m >= 0x8000_0000 then m - 0x1_0000_0000 else m
  }

  /**
   * topic_summary_size (src/sample.c): the bytes a thread-private copy of
   * the topic region covers. The antagonism size is held in an int32.
   */
  function TopicSummarySize(T: int, P: int): int {
    var povSize := WrapInt32(PovSummarySize * P * (P - 1));
    SummaryHeaderSize + (povSize + SummarySize) * T
  }

  /** An antagonism cell names two distinct POVs in range; the other locations have no POV coordinates. */
  predicate ValidCell(P: int, l: Loc) {
    (l.PovRevert? || l.PovNoRevert?) ==> 0 <= l.pov < P && 0 <= l.ant < P && l.pov != l.ant
  }

  /** Whether `l` addresses a counter that exists for these cardinalities. */
  predicate ValidLoc(T: int, P: int, l: Loc) {
    l == Scratch || (0 <= l.topic < T && ValidCell(P, l))
  }

  /** The byte offset the source uses for a statistic location: its topic's base plus the field's place in the topic. */
  function LocOffset(P: int, l: Loc): int {
    if l == Scratch then 0 else TopicBase(P, l.topic) + InTopicOffset(P, l)
  }

  /** Offset of a location relative to its topic's base. */
  function InTopicOffset(P: int, l: Loc): int
    requires l != Scratch
  {
    match l
    case TopicTotal(_) => TotalRevisionsField
    case RevertGeneral(_) => RevertGeneralField
    case NoRevertGeneral(_) => NoRevertGeneralField
    case RevertTopic(_) => RevertTopicField
    case NoRevertTopic(_) => NoRevertTopicField
    case PovRevert(_, pov, ant) => SummarySize + PovSummarySize * TriIndex(P, pov, ant) + RevertCountField
    case PovNoRevert(_, pov, ant) => SummarySize + PovSummarySize * TriIndex(P, pov, ant) + NoRevertCountField
  }

  lemma InTopicOffsetBounds(P: int, l: Loc)
    requires P >= 1 && l != Scratch && ValidCell(P, l)
    ensures 0 <= InTopicOffset(P, l) && InTopicOffset(P, l) + WordSize <= SummaryStride(P)
    ensures InTopicOffset(P, l) % WordSize == 0
  {
    assert PovPairs(P) >= 0 by { MulLe(P, 0, P - 1); }
    if l.PovRevert? || l.PovNoRevert? {
      var k := AntPov(P, l.pov, l.ant);
      PovCellOffset(P, l);
      MulLe(PovSummarySize, k + 1, PovPairs(P));
      var f := if l.PovRevert? then 0 else 1;
      assert InTopicOffset(P, l) == WordSize * (5 + 2 * k + f);
      Aligned(InTopicOffset(P, l), 5 + 2 * k + f);
    } else {
      assert InTopicOffset(P, l) <= NoRevertTopicField;
      Aligned(InTopicOffset(P, l), InTopicOffset(P, l) / WordSize);
    }
  }

  /** A multiple of the word size is word-aligned. */
  lemma Aligned(x: int, q: int)
    requires x == WordSize * q
    ensures x % WordSize == 0
  {
  }

  /** The sum of two aligned offsets is aligned. */
  lemma AlignedSum(a: int, b: int)
    requires a % WordSize == 0 && b % WordSize == 0
    ensures (a + b) % WordSize == 0
  {
    Aligned(a + b, a / WordSize + b / WordSize);
  }

  /** An antagonism cell's offset: past the summary, at its pair's index, plus the field. */
  lemma PovCellOffset(P: int, l: Loc)
    requires (l.PovRevert? || l.PovNoRevert?) && 0 <= l.pov < P && 0 <= l.ant < P && l.pov != l.ant
    ensures InTopicOffset(P, l) == SummarySize + PovSummarySize * AntPov(P, l.pov, l.ant)
                                   + (if l.PovRevert? then RevertCountField else NoRevertCountField)
    ensures InTopicOffset(P, l) >= SummarySize
  {
  }

  lemma InTopicOffsetInjective(P: int, l1: Loc, l2: Loc)
    requires P >= 1 && l1 != Scratch && l2 != Scratch
    requires ValidCell(P, l1) && ValidCell(P, l2)
    requires InTopicOffset(P, l1) == InTopicOffset(P, l2)
    ensures l1.(topic := 0) == l2.(topic := 0)
  {
    var pov1, pov2 := l1.PovRevert? || l1.PovNoRevert?, l2.PovRevert? || l2.PovNoRevert?;
    if pov1 {
      PovCellOffset(P, l1);
    }
    if pov2 {
      PovCellOffset(P, l2);
    }
    if pov1 && pov2 {
      var k1, k2 := AntPov(P, l1.pov, l1.ant), AntPov(P, l2.pov, l2.ant);
      var f1 := if l1.PovRevert? then RevertCountField else NoRevertCountField;
      var f2 := if l2.PovRevert? then RevertCountField else NoRevertCountField;
      RowMajorUnique(PovSummarySize, k1, f1, k2, f2);
      AntPovInjective(P, l1.pov, l1.ant, l2.pov, l2.ant);
    }
  }

  /** Topic t's summary and antagonism array lie, word-aligned, between the header and the page vectors. */
  lemma TopicBaseBounds(T: int, P: int, t: int)
    requires P >= 1 && 0 <= t < T
    ensures SummaryHeaderSize <= TopicBase(P, t)
    ensures TopicBase(P, t) + SummaryStride(P) <= PagesBase(T, P)
    ensures TopicBase(P, t) % WordSize == 0
  {
    var n := PovPairs(P);
    assert n >= 0 by { MulLe(P, 0, P - 1); }
    var s := SummaryStride(P);
    MulLt(s, t, T);
    MulLe(s, 0, t);
    var q := 5 + 2 * n;
    assert s == WordSize * q;
    assert t * s == WordSize * (t * q);
    Aligned(TopicBase(P, t), 3 + t * q);
  }

  /**
   * Every valid location is an aligned word inside the summary part of the
   * topic region (before the page vectors); only the scratch slot lies in
   * the header.
   */
  lemma LocOffsetInSummary(T: int, P: int, l: Loc)
    requires T >= 1 && P >= 1 && ValidLoc(T, P, l)
    ensures 0 <= LocOffset(P, l) && LocOffset(P, l) + WordSize <= PagesBase(T, P)
    ensures LocOffset(P, l) % WordSize == 0
    ensures l == Scratch <==> LocOffset(P, l) < SummaryHeaderSize
  {
    if l == Scratch {
      TopicBaseBounds(T, P, 0);
    } else {
      var b, o := TopicBase(P, l.topic), InTopicOffset(P, l);
      InTopicOffsetBounds(P, l);
      TopicBaseBounds(T, P, l.topic);
      AlignedSum(b, o);
      assert LocOffset(P, l) == b + o;
    }
  }

  /** Equal offsets inside the summary part determine the topic and the offset within it. */
  lemma SameOffsetSameTopic(P: int, t1: int, o1: int, t2: int, o2: int)
    requires P >= 1
    requires 0 <= o1 < SummaryStride(P) && 0 <= o2 < SummaryStride(P)
    requires TopicBase(P, t1) + o1 == TopicBase(P, t2) + o2
    ensures t1 == t2 && o1 == o2
  {
    var s := SummaryStride(P);
    assert s * t1 + o1 == s * t2 + o2;
    RowMajorUnique(s, t1, o1, t2, o2);
  }

  /** Distinct valid locations never share a word: the map over `Loc` is a faithful view of the region. */
  lemma LocOffsetInjective(T: int, P: int, l1: Loc, l2: Loc)
    requires T >= 1 && P >= 1 && ValidLoc(T, P, l1) && ValidLoc(T, P, l2)
    requires LocOffset(P, l1) == LocOffset(P, l2)
    ensures l1 == l2
  {
    LocOffsetInSummary(T, P, l1);
    LocOffsetInSummary(T, P, l2);
    if l1 != Scratch && l2 != Scratch {
      InTopicOffsetBounds(P, l1);
      InTopicOffsetBounds(P, l2);
      SameOffsetSameTopic(P, l1.topic, InTopicOffset(P, l1), l2.topic, InTopicOffset(P, l2));
      InTopicOffsetInjective(P, l1, l2);
    }
  }

  /**
   * The region size agrees with the offsets: the page vectors start right
   * after the last topic and tile the rest of the region exactly.
   */
  lemma PageVectorsFillRegion(T: int, P: int, numPages: int)
    ensures PageVectorBase(T, P, numPages, T) == TopicSummaryMmapSize(T, P, numPages)
  {
    assert T * SummaryStride(P) == SummarySize * T + T * PovSummarySize * P * (P - 1);
  }

  /** Page counts of distinct (topic, page) pairs are distinct words of the page part. */
  lemma PageCountOffsetPlacement(T: int, P: int, numPages: int, t: int, page: int)
    requires 0 <= t < T && 0 <= page < numPages
    ensures PagesBase(T, P) <= PageCountOffset(T, P, numPages, t, page)
    ensures PageCountOffset(T, P, numPages, t, page) + WordSize <= TopicSummaryMmapSize(T, P, numPages)
  {
    PageVectorsFillRegion(T, P, numPages);
    RowMajorBound(numPages, T, t, page);
    assert PageCountOffset(T, P, numPages, t, page) == PagesBase(T, P) + WordSize * (numPages * t + page);
    assert PageVectorBase(T, P, numPages, T) == PagesBase(T, P) + WordSize * (numPages * T);
    MulLe(WordSize, numPages * t + page + 1, numPages * T);
  }

  lemma PageCountOffsetInjective(T: int, P: int, numPages: int, t1: int, page1: int, t2: int, page2: int)
    requires 0 <= page1 < numPages && 0 <= page2 < numPages
    requires PageCountOffset(T, P, numPages, t1, page1) == PageCountOffset(T, P, numPages, t2, page2)
    ensures t1 == t2 && page1 == page2
  {
    assert numPages * t1 + page1 == numPages * t2 + page2;
    RowMajorUnique(numPages, t1, page1, t2, page2);
  }

  /**
   * A thread-private copy (topic_summary_size bytes) covers exactly the
   * header, summaries and antagonism arrays, and stops where the shared
   * page vectors begin, as long as the antagonism size fits the int32 it
   * is held in.
   */
  lemma PrivateCopyStopsAtPages(T: int, P: int)
    requires 0 <= PovSummarySize * P * (P - 1) < 0x8000_0000
    ensures TopicSummarySize(T, P) == PagesBase(T, P)
  {
  }

  /**
   * As written, the int32 antagonism size wraps once 16 * P * (P - 1)
   * reaches 2^31: with one topic of 11586 POVs topic_summary_size is
   * negative, though the region it should measure is not. The thread
   * that asks malloc for that many bytes gets a huge size_t, so the
   * allocation fails and the memcpy into it faults.
   */
  lemma PrivateCopyTruncated()
    ensures TopicSummarySize(1, 11586) < 0 < PagesBase(1, 11586)
  {
    assert PovSummarySize * 11586 * (11586 - 1) == 2147580960;
    assert WrapInt32(2147580960) == 2147580960 - 0x1_0000_0000;
  }

  /** topic_summary_size with the antagonism size held in an int64, as every other size is. */
  function TopicSummarySizeWide(T: int, P: int): int {
    SummaryHeaderSize + (PovSummarySize * P * (P - 1) + SummarySize) * T
  }

  /** The widened size always covers exactly the header, summaries and antagonism arrays. */
  lemma WideCopyStopsAtPages(T: int, P: int)
    ensures TopicSummarySizeWide(T, P) == PagesBase(T, P)
    ensures 0 <= T && 0 <= P ==> SummaryHeaderSize <= TopicSummarySizeWide(T, P)
  {
    assert PovSummarySize * P * (P - 1) == PovSummarySize * PovPairs(P);
    if 0 <= T && 0 <= P {
      assert 0 <= PovPairs(P) by { if P > 0 { MulLe(P, 0, P - 1); } }
      MulLe(T, 0, SummaryStride(P));
    }
  }

  /** revision_assignment_mmap_size: header plus one packed assignment per revision. */
  function AssignmentMmapSize(countRevisions: int): int {
    AssignmentHeaderSize + AssignmentSize * countRevisions
  }

  function AssignmentOffset(r: int): int {
    AssignmentHeaderSize + AssignmentSize * r
  }

  /** user_topic_mmap_size: header plus one double per (user, topic, pov). */
  function UserTopicMmapSize(numUsers: int, T: int, P: int): int {
    UserTopicHeaderSize + numUsers * WordSize * T * P
  }

  /** Offset of a user's (topic, pov) entry, as get_user_topics and its callers index it. */
  function UserCellOffset(T: int, P: int, user: int, topic: int, pov: int): int {
    UserTopicHeaderSize + WordSize * (user * T * P + topic * P + pov)
  }

  /** Each revision's assignment lies inside the assignment region, in its own slot. */
  lemma AssignmentSlots(countRevisions: int, r1: int, r2: int)
    requires 0 <= r1 < countRevisions && 0 <= r2 < countRevisions
    ensures AssignmentHeaderSize <= AssignmentOffset(r1)
    ensures AssignmentOffset(r1) + AssignmentSize <= AssignmentMmapSize(countRevisions)
    ensures AssignmentOffset(r1) == AssignmentOffset(r2) ==> r1 == r2
  {
  }

  /** Each (user, topic, pov) entry lies inside the user region, and distinct entries do not overlap. */
  lemma UserCellPlacement(numUsers: int, T: int, P: int, user: int, topic: int, pov: int)
    requires 0 <= user < numUsers && 0 <= topic < T && 0 <= pov < P
    ensures UserTopicHeaderSize <= UserCellOffset(T, P, user, topic, pov)
    ensures UserCellOffset(T, P, user, topic, pov) + WordSize <= UserTopicMmapSize(numUsers, T, P)
  {
    RowMajorBound(P, T, topic, pov);
    RowMajorBound(T * P, numUsers, user, topic * P + pov);
    assert user * T * P == (T * P) * user;
    assert numUsers * WordSize * T * P == WordSize * ((T * P) * numUsers);
    MulLe(WordSize, user * T * P + topic * P + pov + 1, (T * P) * numUsers);
  }

  lemma UserCellInjective(T: int, P: int, u1: int, t1: int, p1: int, u2: int, t2: int, p2: int)
    requires 0 <= t1 < T && 0 <= p1 < P && 0 <= t2 < T && 0 <= p2 < P
    requires UserCellOffset(T, P, u1, t1, p1) == UserCellOffset(T, P, u2, t2, p2)
    ensures u1 == u2 && t1 == t2 && p1 == p2
  {
    RowMajorBound(P, T, t1, p1);
    RowMajorBound(P, T, t2, p2);
    assert u1 * T * P == (T * P) * u1 && u2 * T * P == (T * P) * u2;
    RowMajorUnique(T * P, u1, t1 * P + p1, u2, t2 * P + p2);
    RowMajorUnique(P, t1, p1, t2, p2);
  }

  /**
   * full_path: join a directory and a file name with exactly one '/'
   * between them. The source indexes the directory's last character, so
   * the directory must not be empty.
   */
  function FullPath(dir: string, file: string): (path: string)
    requires |dir| > 0
    ensures |dir| <= |path| - |file| <= |dir| + 1
    ensures path[..|dir|] == dir && path[|path| - |file|..] == file
    ensures path[|path| - |file| - 1] == '/'
    ensures dir[|dir| - 1] == '/' <==> |path| == |dir| + |file|
  {
    if dir[|dir| - 1] != '/' then dir + "/" + file else dir + file
  }

  /** A trailing separator on the directory does not change the joined path. */
  lemma FullPathTrailingSlash(dir: string, file: string)
    requires |dir| > 0 && dir[|dir| - 1] != '/'
    ensures FullPath(dir + "/", file) == FullPath(dir, file)
  {
    assert (dir + "/")[|dir + "/"| - 1] == '/';
    assert dir + "/" + file == (dir + "/") + file;
  }
}
