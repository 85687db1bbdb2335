/**
 * Records of the topic/POV index, as laid out in src/index.h and
 * src/probability.h, plus the failure type shared by every operation.
 *
 * Integers are unbounded here; the source stores them as int32/int64 and
 * never comes near those bounds for the counts it keeps (every counter is
 * bounded by the number of revisions). Doubles are modelled by `real`.
 */
module Records {

  /** The value the source stores for "no parent", "no child" and "unassigned". */
  const NoId: int := -1

  /** One ingested revision (struct revision). `disagrees` is 0/1 in the source. */
  datatype Revision = Revision(
    article: int,
    timestamp: int,
    user: int,
    parent: int,
    child: int,
    disagrees: bool)

  /** A revision's (topic, POV) label (struct revision_assignment); -1/-1 is "unassigned". */
  datatype Assignment = Assignment(topic: int, pov: int)

  const Unassigned: Assignment := Assignment(NoId, NoId)

  predicate Assigned(a: Assignment) {
    a.topic >= 0 && a.pov >= 0
  }

  /** struct revision_assignment_header: cardinalities, iteration counter and the six priors. */
  datatype AssignmentHeader = AssignmentHeader(
    numTopics: int,
    povPerTopic: int,
    totalIterations: int,
    countRevisions: int,
    psiAlpha: real,
    psiBeta: real,
    gammaAlpha: real,
    gammaBeta: real,
    beta: real,
    alpha: real)

  /** struct topic_summary_header; `dummy` is the scratch slot the sampler routes no-op updates to. */
  datatype TopicSummaryHeader = TopicSummaryHeader(dummy: int, numTopics: int, povPerTopic: int, numPages: int)

  /** struct user_topic_header. */
  datatype UserTopicHeader = UserTopicHeader(numUsers: int, numTopics: int, povPerTopic: int)

  /** struct topic_summary (the fixed part of one topic's statistics). */
  datatype TopicSummary = TopicSummary(
    totalRevisions: int,
    revertGeneral: int,
    norevertGeneral: int,
    revertTopic: int,
    norevertTopic: int)

  /** struct pov_summary: one directed (pov, antagonist pov) cell. */
  datatype PovSummary = PovSummary(revertCount: int, norevertCount: int)

  /** struct page_index / struct user_index: an adjacency list header. */
  datatype ListIndex = ListIndex(countRevisions: int, revisionsOffset: int)

  /**
   * struct index_patch: a snapshot of one revision's own, parent's and
   * child's assignments, used to take that revision's contribution out of
   * the counts it is scored against. Flags are ints: `childDisagrees` is -1
   * when there is no child.
   */
  datatype IndexPatch = IndexPatch(
    parentTopic: int,
    parentPov: int,
    topic: int,
    pov: int,
    disagrees: int,
    childTopic: int,
    childPov: int,
    childDisagrees: int,
    page: int,
    user: int)

  /**
   * The cardinalities and priors an engine runs with: the assignment header
   * together with the page count of the topic-summary header and the user
   * count of the user-topic header.
   */
  datatype Params = Params(header: AssignmentHeader, numPages: int, numUsers: int) {
    function T(): int { header.numTopics }
    function P(): int { header.povPerTopic }
    /** Number of (topic, pov) cells of a user distribution. */
    function Cells(): int { header.numTopics * header.povPerTopic }
  }

  predicate ValidParams(p: Params) {
    p.T() >= 1 && p.P() >= 1 && p.numPages >= 0 && p.numUsers >= 0
  }

  /** A candidate label the sampler may choose: both coordinates in range. */
  predicate InRange(p: Params, a: Assignment) {
    0 <= a.topic < p.T() && 0 <= a.pov < p.P()
  }

  /** Every revision carries an in-range label (the state after initialization). */
  predicate AllInRange(p: Params, A: seq<Assignment>) {
    forall x | 0 <= x < |A| :: InRange(p, A[x])
  }

  /**
   * A statistic location of the topic index: the typed handle for what the
   * source addresses by byte offset into the topic summary region. An
   * antagonism cell is named by its (pov, antagonist pov) pair; the region
   * stores it at the triangular index of Layout.AntPov.
   */
  datatype Loc =
    | Scratch
    | TopicTotal(topic: int)
    | RevertGeneral(topic: int)
    | NoRevertGeneral(topic: int)
    | RevertTopic(topic: int)
    | NoRevertTopic(topic: int)
    | PovRevert(topic: int, pov: int, ant: int)
    | PovNoRevert(topic: int, pov: int, ant: int)

  /** Why an operation aborts: each case is an `assert` or an out-of-region access of the source. */
  datatype Fault =
    | NegativeCounter
    | NotAssigned
    | ParentNotEarlier
    | NonPositiveProbability
    | ZeroDenominator
    | NoCandidate
    | QueueOverflow
    | OutOfRange
    | ParentNotLater
    | ChildAlreadyAssigned

  datatype Result<+T> = Success(value: T) | Failure(fault: Fault) {
    predicate IsFailure() {
      Failure?
    }

    function PropagateFailure<U>(): Result<U>
      requires Failure?
    {
      Failure(fault)
    }

    function Extract(): T
      requires Success?
    {
      value
    }
  }

  /** A possibly-NULL pointer argument. */
  datatype Option<T> = None | Some(value: T)

  /** Per-topic page counts (the page vectors), keyed by (topic, page); an absent key reads 0. */
  type PageCounts = map<(int, int), int>

  function PageGet(pages: PageCounts, topic: int, page: int): int {
    if (topic, page) in pages then pages[(topic, page)] else 0
  }

  /** User distributions (user_topic region), keyed by (user, topic, pov); an absent key reads 0. */
  type UserDists = map<(int, int, int), real>

  function UserGet(users: UserDists, user: int, topic: int, pov: int): real {
    if (user, topic, pov) in users then users[(user, topic, pov)] else 0.0
  }

  /** Converts a C truth value to the model's: non-zero is true. */
  predicate Truthy(flag: int) {
    flag != 0
  }

  function Flag(b: bool): int {
    if b then 1 else 0
  }
}
