/**
 * The grouping in bin/topic_pov_to_clusters.py: every line of an
 * assignment file names a revision with its topic and POV, and get_clusters
 * yields one list of revision ids per (topic, POV) that occurs, nesting
 * the POVs under their topic.
 *
 * Python dictionaries are iterated in an order the script does not
 * control, so the method picks the next topic and the next POV
 * nondeterministically; every property below holds for whichever order
 * the dictionaries happen to produce.
 */
module Clusters {
  /** One parsed line: a revision id with its topic and POV. */
  datatype Entry = Entry(revision: int, topic: int, pov: int)

  /** A (topic, POV) key. */
  type Pair = (int, int)

  function PairOf(e: Entry): Pair {
    (e.topic, e.pov)
  }

  /** The nested dictionary the script builds: topic to POV to revision list. */
  type Clustering = map<int, map<int, seq<int>>>

  /** The (topic, POV) pairs occurring in the input. */
  function Pairs(entries: seq<Entry>): set<Pair> {
    set i | 0 <= i < |entries| :: PairOf(entries[i])
  }

  /** The revision ids of the input, in input order. */
  function Revisions(entries: seq<Entry>): (rs: seq<int>)
    ensures |rs| == |entries| && forall i | 0 <= i < |entries| :: rs[i] == entries[i].revision
  {
    seq(|entries|, i requires 0 <= i < |entries| => entries[i].revision)
  }

  /** The input positions carrying key k: exactly those positions, in increasing order. */
  function Positions(entries: seq<Entry>, k: Pair): (ps: seq<int>)
    ensures forall n | 0 <= n < |ps| :: 0 <= ps[n] < |entries| && PairOf(entries[ps[n]]) == k
    ensures forall n, m | 0 <= n < m < |ps| :: ps[n] < ps[m]
    ensures forall i | 0 <= i < |entries| && PairOf(entries[i]) == k :: i in ps
  {
    if entries == [] then []
    else
      var last := |entries| - 1;
      var ps := Positions(entries[..last], k);
      assert forall i | 0 <= i < last :: entries[i] == entries[..last][i];
      if PairOf(entries[last]) == k then ps + [last] else ps
  }

  /**
   * The reference definition of one cluster: the revisions at the
   * positions carrying key k, in input order.
   */
  function Members(entries: seq<Entry>, k: Pair): seq<int> {
    var ps := Positions(entries, k);
    seq(|ps|, n requires 0 <= n < |ps| => entries[ps[n]].revision)
  }

  /**
   * get_clusters' loop: for each line, setdefault the topic's dictionary,
   * setdefault the POV's list, and append the revision.
   */
  function Group(entries: seq<Entry>): Clustering {
    if entries == [] then map[]
    else
      var c := Group(entries[..|entries| - 1]);
      var e := entries[|entries| - 1];
      var povs := if e.topic in c then c[e.topic] else map[];
      var list := if e.pov in povs then povs[e.pov] else [];
      c[e.topic := povs[e.pov := list + [e.revision]]]
  }

  /** Key k has a list in the nested dictionary. */
  predicate Found(c: Clustering, k: Pair) {
    k.0 in c && k.1 in c[k.0]
  }

  /** A cluster grows by the last revision exactly when the last line carries its key. */
  lemma MembersPush(entries: seq<Entry>, k: Pair)
    requires entries != []
    ensures Members(entries, k)
            == Members(entries[..|entries| - 1], k)
               + if PairOf(entries[|entries| - 1]) == k then [entries[|entries| - 1].revision] else []
  {
    var last := |entries| - 1;
    var prefix := entries[..last];
    var ps, qs := Positions(entries, k), Positions(prefix, k);
    assert ps == if PairOf(entries[last]) == k then qs + [last] else qs;
    var tail := if PairOf(entries[last]) == k then [entries[last].revision] else [];
    var ms, ns := Members(entries, k), Members(prefix, k);
    assert |ms| == |ns + tail|;
    forall n | 0 <= n < |ms|
      ensures ms[n] == (ns + tail)[n]
    {
      if n < |qs| {
        assert ps[n] == qs[n] && entries[qs[n]] == prefix[qs[n]];
      }
    }
  }

  /** The pairs of the input grow by the last line's key. */
  lemma PairsPush(entries: seq<Entry>)
    requires entries != []
    ensures Pairs(entries) == Pairs(entries[..|entries| - 1]) + {PairOf(entries[|entries| - 1])}
  {
    var last := |entries| - 1;
    var prefix := entries[..last];
    forall k | k in Pairs(entries)
      ensures k in Pairs(prefix) + {PairOf(entries[last])}
    {
      var i :| 0 <= i < |entries| && PairOf(entries[i]) == k;
      if i < last {
        assert PairOf(prefix[i]) == k;
      }
    }
    forall k | k in Pairs(prefix)
      ensures k in Pairs(entries)
    {
      var i :| 0 <= i < |prefix| && PairOf(prefix[i]) == k;
      assert PairOf(entries[i]) == k;
    }
  }

  /**
   * The nested dictionary holds a list exactly for the pairs of the input,
   * and the list under each pair is that pair's cluster: its revisions in
   * input order.
   */
  lemma {:induction false} GroupMembers(entries: seq<Entry>)
    ensures forall k :: Found(Group(entries), k) <==> k in Pairs(entries)
    ensures forall k | Found(Group(entries), k) :: Group(entries)[k.0][k.1] == Members(entries, k)
  {
    if entries != [] {
      var prefix := entries[..|entries| - 1];
      GroupMembers(prefix);
      PairsPush(entries);
      forall k | Found(Group(entries), k)
        ensures Group(entries)[k.0][k.1] == Members(entries, k)
      {
        MembersPush(entries, k);
        MembersNonEmpty(prefix, k);
      }
    }
  }

  /** A key is in the input exactly when its cluster is non-empty; every revision lies in its own key's cluster. */
  lemma MembersNonEmpty(entries: seq<Entry>, k: Pair)
    ensures k in Pairs(entries) <==> Members(entries, k) != []
    ensures forall i | 0 <= i < |entries| && PairOf(entries[i]) == k :: entries[i].revision in Members(entries, k)
  {
    var ps := Positions(entries, k);
    forall i | 0 <= i < |entries| && PairOf(entries[i]) == k
      ensures entries[i].revision in Members(entries, k)
    {
      var n :| 0 <= n < |ps| && ps[n] == i;
      assert Members(entries, k)[n] == entries[i].revision;
    }
    if Members(entries, k) != [] {
      assert PairOf(entries[ps[0]]) == k;
    }
  }

  /** No key occurs twice. */
  predicate Distinct(order: seq<Pair>) {
    forall j, j' | 0 <= j < j' < |order| :: order[j] != order[j']
  }

  /** The keys of one topic are consecutive. */
  predicate TopicsContiguous(order: seq<Pair>) {
    forall j, j', j'' | 0 <= j < j' < j'' < |order| && order[j].0 == order[j''].0 :: order[j'].0 == order[j].0
  }

  /** The keys of a sequence, as a set. */
  function Elements(order: seq<Pair>): set<Pair> {
    set j | 0 <= j < |order| :: order[j]
  }

  /** A sequence without repeats has as many distinct elements as entries. */
  lemma {:induction false} DistinctCount(order: seq<Pair>)
    requires Distinct(order)
    ensures |Elements(order)| == |order|
  {
    if order != [] {
      var prefix := order[..|order| - 1];
      DistinctCount(prefix);
      var last := order[|order| - 1];
      assert Elements(order) == Elements(prefix) + {last} by {
        forall x | x in Elements(order)
          ensures x in Elements(prefix) + {last}
        {
          var j :| 0 <= j < |order| && order[j] == x;
          if j < |prefix| {
            assert prefix[j] == x;
          }
        }
      }
      assert last !in Elements(prefix);
    }
  }

  /** The lists in yield order, concatenated. */
  function Flatten(lists: seq<seq<int>>): seq<int> {
    if lists == [] then [] else Flatten(lists[..|lists| - 1]) + lists[|lists| - 1]
  }

  /** The clusters of the given keys, concatenated in that order. */
  function Gather(order: seq<Pair>, entries: seq<Entry>): seq<int> {
    if order == [] then [] else Gather(order[..|order| - 1], entries) + Members(entries, order[|order| - 1])
  }

  /** Lists that are the clusters of the keys concatenate to the gathered clusters. */
  lemma {:induction false} FlattenGather(lists: seq<seq<int>>, order: seq<Pair>, entries: seq<Entry>)
    requires |lists| == |order| && forall j | 0 <= j < |order| :: lists[j] == Members(entries, order[j])
    ensures Flatten(lists) == Gather(order, entries)
  {
    if lists != [] {
      FlattenGather(lists[..|lists| - 1], order[..|order| - 1], entries);
    }
  }

  /** Gathering keys that miss the last line's key ignores that line. */
  lemma {:induction false} GatherSkip(order: seq<Pair>, entries: seq<Entry>)
    requires entries != [] && PairOf(entries[|entries| - 1]) !in order
    ensures Gather(order, entries) == Gather(order, entries[..|entries| - 1])
  {
    if order != [] {
      GatherSkip(order[..|order| - 1], entries);
      MembersPush(entries, order[|order| - 1]);
    }
  }

  /** Gathering each key once, including the last line's, picks up that line's revision once. */
  lemma {:induction false} GatherPush(order: seq<Pair>, entries: seq<Entry>)
    requires entries != [] && Distinct(order) && PairOf(entries[|entries| - 1]) in order
    ensures multiset(Gather(order, entries))
            == multiset(Gather(order, entries[..|entries| - 1])) + multiset{entries[|entries| - 1].revision}
  {
    var prefix := order[..|order| - 1];
    var k := order[|order| - 1];
    MembersPush(entries, k);
    if k == PairOf(entries[|entries| - 1]) {
      assert PairOf(entries[|entries| - 1]) !in prefix;
      GatherSkip(prefix, entries);
    } else {
      GatherPush(prefix, entries);
    }
  }

  /**
   * Clusters of distinct keys covering every key of the input hold every
   * revision of the input exactly as often as the input does.
   */
  lemma {:induction false} GatherAll(order: seq<Pair>, entries: seq<Entry>)
    requires Distinct(order) && forall k | k in Pairs(entries) :: k in order
    ensures multiset(Gather(order, entries)) == multiset(Revisions(entries))
  {
    if entries == [] {
      GatherEmpty(order, entries);
    } else {
      var prefix := entries[..|entries| - 1];
      PairsPush(entries);
      GatherAll(order, prefix);
      GatherPush(order, entries);
      RevisionsPush(entries);
    }
  }

  /** The revisions of the input grow by the last line's revision. */
  lemma RevisionsPush(entries: seq<Entry>)
    requires entries != []
    ensures Revisions(entries) == Revisions(entries[..|entries| - 1]) + [entries[|entries| - 1].revision]
  {
  }

  /** Nothing is gathered from an empty input. */
  lemma {:induction false} GatherEmpty(order: seq<Pair>, entries: seq<Entry>)
    requires entries == []
    ensures Gather(order, entries) == []
  {
    if order != [] {
      GatherEmpty(order[..|order| - 1], entries);
    }
  }

  /**
   * get_clusters: one list per (topic, POV) of the input, each the
   * revisions carrying that key in input order, never empty, the keys of a
   * topic yielded together; together the lists hold every input revision
   * exactly once. order is the key of each yielded list.
   */
  method GetClusters(entries: seq<Entry>) returns (lists: seq<seq<int>>, order: seq<Pair>)
    ensures |lists| == |order| == |Pairs(entries)|
    ensures forall j | 0 <= j < |order| :: order[j] in Pairs(entries) && lists[j] == Members(entries, order[j]) && lists[j] != []
    ensures forall k | k in Pairs(entries) :: k in order
    ensures Distinct(order) && TopicsContiguous(order)
    ensures multiset(Flatten(lists)) == multiset(Revisions(entries))
  {
    var c := Group(entries);
    lists, order := YieldAll(c);
    GroupMembers(entries);
    ClustersOfGroup(entries, lists, order);
  }

  /** The yielded lists, once known to be the clusters of distinct keys covering the input, hold the input. */
  lemma ClustersOfGroup(entries: seq<Entry>, lists: seq<seq<int>>, order: seq<Pair>)
    requires |lists| == |order| && Distinct(order)
    requires forall j | 0 <= j < |order| :: order[j] in Pairs(entries) && lists[j] == Members(entries, order[j])
    requires forall k | k in Pairs(entries) :: k in order
    ensures |order| == |Pairs(entries)| && forall j | 0 <= j < |order| :: lists[j] != []
    ensures multiset(Flatten(lists)) == multiset(Revisions(entries))
  {
    forall j | 0 <= j < |order|
      ensures lists[j] != []
    {
      MembersNonEmpty(entries, order[j]);
    }
    DistinctCount(order);
    assert Elements(order) == Pairs(entries);
    FlattenGather(lists, order, entries);
    GatherAll(order, entries);
  }

  /** The outer loop: every topic's block of lists, one topic after another. */
  method YieldAll(c: Clustering) returns (lists: seq<seq<int>>, order: seq<Pair>)
    ensures |lists| == |order| && Distinct(order) && TopicsContiguous(order)
    ensures forall j | 0 <= j < |order| :: Found(c, order[j]) && lists[j] == c[order[j].0][order[j].1]
    ensures forall k | Found(c, k) :: k in order
  {
    var topics := c.Keys;
    lists, order := [], [];
    while topics != {}
      invariant topics <= c.Keys
      invariant |lists| == |order|
      invariant forall j | 0 <= j < |order| :: Found(c, order[j]) && order[j].0 !in topics && lists[j] == c[order[j].0][order[j].1]
      invariant forall k | Found(c, k) && k.0 !in topics :: k in order
      invariant Distinct(order) && TopicsContiguous(order)
      decreases |topics|
    {
      Inhabited(topics);
      var t :| t in topics;
      var more, keys := YieldTopic(c[t], t);
      Append(lists, order, more, keys, topics, t);
      forall k | Found(c, k) && k.0 !in topics - {t}
        ensures k in order + keys
      {
        if k.0 == t {
          assert k.1 in c[t];
        } else {
          assert k in order;
        }
      }
      lists, order := lists + more, order + keys;
      topics := topics - {t};
    }
  }

  /** Appending one topic's block keeps the keys distinct and the topics contiguous. */
  lemma Append(lists: seq<seq<int>>, order: seq<Pair>, more: seq<seq<int>>, keys: seq<Pair>, topics: set<int>, t: int)
    requires t in topics && Distinct(order) && TopicsContiguous(order)
    requires forall j | 0 <= j < |order| :: order[j].0 !in topics
    requires Distinct(keys) && forall j | 0 <= j < |keys| :: keys[j].0 == t
    ensures Distinct(order + keys) && TopicsContiguous(order + keys)
  {
    var all := order + keys;
    forall j, j', j'' | 0 <= j < j' < j'' < |all| && all[j].0 == all[j''].0
      ensures all[j'].0 == all[j].0
    {
    }
  }

  /** The inner loop: one list per POV of topic t, each yielded with its key. */
  method YieldTopic(povs: map<int, seq<int>>, t: int) returns (lists: seq<seq<int>>, keys: seq<Pair>)
    ensures |lists| == |keys| && Distinct(keys)
    ensures forall j | 0 <= j < |keys| :: keys[j].0 == t && keys[j].1 in povs && lists[j] == povs[keys[j].1]
    ensures forall k: Pair | k.0 == t && k.1 in povs :: k in keys
  {
    var rest := povs.Keys;
    lists, keys := [], [];
    while rest != {}
      invariant rest <= povs.Keys && |lists| == |keys| && Distinct(keys)
      invariant forall j | 0 <= j < |keys| :: keys[j].0 == t && keys[j].1 in povs && keys[j].1 !in rest && lists[j] == povs[keys[j].1]
      invariant forall k: Pair | k.0 == t && k.1 in povs && k.1 !in rest :: k in keys
      decreases |rest|
    {
      Inhabited(rest);
      var pov :| pov in rest;
      lists, keys := lists + [povs[pov]], keys + [(t, pov)];
      rest := rest - {pov};
    }
  }

  /** A non-empty set has an element to pick. */
  lemma Inhabited(s: set<int>)
    requires s != {}
    ensures exists x :: x in s
  {
    if forall x :: x !in s {
      assert false;
    }
  }
}
