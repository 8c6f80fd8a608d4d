/** The parser feeding the miner: the events of a parsed trace table, read as the miner's
    event log, and what the categories the parser guarantees mean for the labels, the counts
    and the confidence scores. */
module Pipeline {
  import opened Wrappers
  import opened Labels
  import opened Counting
  import opened HeuristicMiner
  import opened EventLogParser

  /** The columns of the parsed events that the miner reads. */
  function MinerLog(events: seq<ParsedEvent>): (log: seq<Event>)
    ensures |log| == |events|
    ensures forall k :: 0 <= k < |events| ==>
      log[k] == Event(events[k].index, events[k].totalPos, events[k].timestamp,
                      events[k].transactionId, events[k].transactionType)
  {
    seq(|events|, k requires 0 <= k < |events| =>
      Event(events[k].index, events[k].totalPos, events[k].timestamp,
            events[k].transactionId, events[k].transactionType))
  }

  /** Every event carries one of the four categories. */
  predicate Categorised(log: seq<Event>) {
    forall i :: 0 <= i < |log| ==> IsCategory(log[i].transactionType)
  }

  /** What may stand before the arrow of a label: a category or the case start. */
  predicate IsSource(a: string) {
    a == Start || IsCategory(a)
  }

  /** What may stand after the arrow of a label: a category or the case end. */
  predicate IsTarget(b: string) {
    b == End || IsCategory(b)
  }

  /** The labels a categorised log can produce. */
  ghost predicate WellFormedLabel(l: string) {
    exists a, b :: IsSource(a) && IsTarget(b) && l == Join(a, b)
  }

  /** The parsed events, read as a miner log, are categorised and uniquely indexed. */
  lemma ParsedLogFitsMiner(raw: seq<RawTransaction>, lookup: map<Address, AddressEntry>,
                           blockTimes: map<int, int>, padding: int)
    ensures Categorised(MinerLog(ParseEventLog(raw, lookup, blockTimes, padding).events))
    ensures UniqueIndex(MinerLog(ParseEventLog(raw, lookup, blockTimes, padding).events))
  {
    var events := ParseEventLog(raw, lookup, blockTimes, padding).events;
    var log := MinerLog(events);
    forall p, q | 0 <= p < q < |log|
      ensures log[p].index != log[q].index
    {
      IndexIncreasing(raw, lookup, blockTimes, padding, p, q);
    }
  }

  /** When every row of the inner join is a call, the miner sees the index `0..n-1` that the
      interleave needs. */
  lemma ParsedLogRangeIndex(raw: seq<RawTransaction>, lookup: map<Address, AddressEntry>,
                            blockTimes: map<int, int>, padding: int)
    requires forall i :: 0 <= i < |raw| && raw[i].blockNumber in blockTimes ==> raw[i].kind == CallKind
    ensures RangeIndex(MinerLog(ParseEventLog(raw, lookup, blockTimes, padding).events))
  {
    IndexDense(raw, lookup, blockTimes, padding);
  }

  /** The two labels of any event of a categorised log are well formed. */
  lemma EventLabelWellFormed(log: seq<Event>, l: string)
    requires Categorised(log) && IsEventLabel(log, l)
    ensures WellFormedLabel(l)
  {
    var i :| 0 <= i < |log| && (l == Incoming(log, i) || (EndsCase(log, i) && l == Outgoing(log, i)));
    var t := log[i].transactionType;
    if l == Incoming(log, i) {
      if StartsCase(log, i) {
        assert IsSource(Start) && IsTarget(t) && l == Join(Start, t);
      } else {
        var p := log[i - 1].transactionType;
        assert IsCategory(p);
        assert IsSource(p) && IsTarget(t) && l == Join(p, t);
      }
    } else {
      assert IsSource(t) && IsTarget(End) && l == Join(t, End);
    }
  }

  /** A well-formed label splits into its two ends. */
  lemma WellFormedSplits(l: string, a: string, b: string)
    requires IsSource(a) && IsTarget(b) && l == Join(a, b)
    ensures IsPair(l) && SplitArrow(l) == [a, b]
    ensures Reverse(l) == Join(b, a)
  {
    ShortCodesNoArrow(a);
    ShortCodesNoArrow(b);
    SplitOfJoin(a, b);
  }

  /** Every label a non-empty categorised log counts is well formed. */
  lemma CountedLabelsWellFormed(log: seq<Event>)
    requires Categorised(log) && UniqueIndex(log) && |log| >= 1
    ensures forall l :: l in ComputeTransitions(log).value.counts ==> WellFormedLabel(l)
  {
    var t := ComputeTransitions(log).value;
    var col := TransitionColumn(t.frame);
    LabelsFromEvents(log);
    forall l | l in t.counts
      ensures WellFormedLabel(l)
    {
      assert Some(l) in col;
      var k :| 0 <= k < |col| && col[k] == Some(l);
      assert t.frame[k].transition == Some(l);
      EventLabelWellFormed(log, l);
    }
  }

  /** A label whose ends are a source and a target, read backwards, is not such a label
      when it opens or closes a case. */
  lemma ReverseOfBoundary(a: string, b: string)
    requires IsSource(a) && IsTarget(b) && (a == Start || b == End)
    ensures !WellFormedLabel(Join(b, a))
  {
    ShortCodesNoArrow(a);
    ShortCodesNoArrow(b);
    SplitOfJoin(b, a);
    forall c, d | IsSource(c) && IsTarget(d)
      ensures Join(b, a) != Join(c, d)
    {
      ShortCodesNoArrow(c);
      ShortCodesNoArrow(d);
      SplitOfJoin(c, d);
    }
  }

  /** Counts holding only well-formed labels are scored without error. */
  lemma WellFormedScores(counts: map<string, nat>)
    requires forall l :: l in counts ==> WellFormedLabel(l)
    ensures ComputeDependencyConfidence(counts).Success?
  {
    forall key | key in counts
      ensures IsPair(key)
    {
      var a, b :| IsSource(a) && IsTarget(b) && key == Join(a, b);
      WellFormedSplits(key, a, b);
    }
  }

  /** Among well-formed counts, a label that opens or closes a case scores 1. */
  lemma BoundaryScoresOne(counts: map<string, nat>, a: string, b: string)
    requires forall l :: l in counts ==> WellFormedLabel(l)
    requires IsSource(a) && IsTarget(b) && (a == Start || b == End) && Join(a, b) in counts
    ensures ComputeDependencyConfidence(counts).Success?
    ensures ComputeDependencyConfidence(counts).value[Join(a, b)] == 1.0
  {
    WellFormedScores(counts);
    WellFormedSplits(Join(a, b), a, b);
    ReverseOfBoundary(a, b);
    assert Join(b, a) !in counts;
    assert CountOf(counts, Reverse(Join(a, b))) == 0;
  }

  /** For a non-empty categorised log, scoring the counts never hits the unpacking error. */
  lemma ConfidenceSucceeds(log: seq<Event>)
    requires Categorised(log) && UniqueIndex(log) && |log| >= 1
    ensures ComputeDependencyConfidence(ComputeTransitions(log).value.counts).Success?
  {
    CountedLabelsWellFormed(log);
    WellFormedScores(ComputeTransitions(log).value.counts);
  }

  /** In a non-empty categorised log, every label that opens a case (`"sta->X"`) or closes
      one (`"X->end"`) scores 1: its reverse would need `"sta"` after the arrow or `"end"`
      before it, and no label has either. */
  lemma BoundaryConfidence(log: seq<Event>, a: string, b: string)
    requires Categorised(log) && UniqueIndex(log) && |log| >= 1
    requires IsSource(a) && IsTarget(b) && (a == Start || b == End)
    requires Join(a, b) in ComputeTransitions(log).value.counts
    ensures ComputeDependencyConfidence(ComputeTransitions(log).value.counts).Success?
    ensures ComputeDependencyConfidence(ComputeTransitions(log).value.counts).value[Join(a, b)] == 1.0
  {
    CountedLabelsWellFormed(log);
    BoundaryScoresOne(ComputeTransitions(log).value.counts, a, b);
  }

  /** What the miner does with any categorised, uniquely indexed log. */
  lemma MineCategorised(log: seq<Event>)
    requires Categorised(log) && UniqueIndex(log)
    ensures |log| == 0 ==> ComputeTransitions(log) == Failure(EmptyLog)
    ensures |log| >= 1 ==>
        ComputeTransitions(log).Success? &&
        (forall l :: l in ComputeTransitions(log).value.counts ==> WellFormedLabel(l)) &&
        ComputeDependencyConfidence(ComputeTransitions(log).value.counts).Success?
  {
    if |log| >= 1 {
      ConfidenceSucceeds(log);
      CountedLabelsWellFormed(log);
    }
  }

  /** The whole path from trace rows to scores: for any trace table whose parse leaves at
      least one event, the miner succeeds, counts only well-formed labels, and scores them
      without error; with no event left, the miner reports the empty log. */
  lemma ParseThenMine(raw: seq<RawTransaction>, lookup: map<Address, AddressEntry>,
                      blockTimes: map<int, int>, padding: int, log: seq<Event>)
    requires log == MinerLog(ParseEventLog(raw, lookup, blockTimes, padding).events)
    ensures Categorised(log) && UniqueIndex(log)
    ensures |log| == 0 ==> ComputeTransitions(log) == Failure(EmptyLog)
    ensures |log| >= 1 ==>
      ComputeTransitions(log).Success? &&
      (forall l :: l in ComputeTransitions(log).value.counts ==> WellFormedLabel(l)) &&
      ComputeDependencyConfidence(ComputeTransitions(log).value.counts).Success?
  {
    ParsedLogFitsMiner(raw, lookup, blockTimes, padding);
    MineCategorised(log);
  }
}
