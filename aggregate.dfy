/** Per-topic sentiment aggregation of scripts/analyze.py: one score per raw
    document, then `df.groupby('topic')['sentiment'].mean()` over the aligned
    columns. Label -1 (the outlier bucket) is grouped like any other label.
    Scores are exact reals. */
module TopicSentiment {

  /** `[score(doc) for doc in docs]`: the scorer is applied to the raw documents. */
  function ScoreAll(docs: seq<string>, score: string -> real): (scores: seq<real>)
    ensures |scores| == |docs|
    ensures forall i :: 0 <= i < |docs| ==> scores[i] == score(docs[i])
  {
    seq(|docs|, i requires 0 <= i < |docs| => score(docs[i]))
  }

  // ---------------------------------------------------------------------
  // Reference definitions over the index positions

  /** Number of documents labelled `l`. */
  function CountOf(labels: seq<int>, l: int): nat
  {
    if labels == [] then 0
    else (if labels[0] == l then 1 else 0) + CountOf(labels[1..], l)
  }

  /** Sum of the scores of the documents labelled `l`. */
  function SumOf(labels: seq<int>, scores: seq<real>, l: int): real
    requires |labels| == |scores|
  {
    if labels == [] then 0.0
    else (if labels[0] == l then scores[0] else 0.0) + SumOf(labels[1..], scores[1..], l)
  }

  // ---------------------------------------------------------------------
  // The group-by, as a left-to-right accumulation

  datatype Tally = Tally(sum: real, count: nat)

  function AddTo(groups: map<int, Tally>, l: int, x: real): map<int, Tally>
  {
    var prior := if l in groups then groups[l] else Tally(0.0, 0);
    groups[l := Tally(prior.sum + x, prior.count + 1)]
  }

  function GroupFrom(groups: map<int, Tally>, labels: seq<int>, scores: seq<real>): map<int, Tally>
    requires |labels| == |scores|
    decreases |labels|
  {
    if labels == [] then groups
    else GroupFrom(AddTo(groups, labels[0], scores[0]), labels[1..], scores[1..])
  }

  /** One tally per distinct label, accumulated in document order. */
  function GroupBy(labels: seq<int>, scores: seq<real>): map<int, Tally>
    requires |labels| == |scores|
  {
    GroupFrom(map[], labels, scores)
  }

  /** `topic_sentiment`: the mean score of each distinct label. */
  function MeanByTopic(labels: seq<int>, scores: seq<real>): (means: map<int, real>)
    requires |labels| == |scores|
    ensures forall l :: l in means <==> l in labels
    ensures forall l :: l in means ==>
      CountOf(labels, l) > 0 && means[l] == SumOf(labels, scores, l) / CountOf(labels, l) as real
  {
    var groups := GroupBy(labels, scores);
    GroupByTallies(labels, scores);
    map l | l in groups :: groups[l].sum / groups[l].count as real
  }

  // ---------------------------------------------------------------------
  // Properties

  lemma {:induction false} GroupFromTallies(groups: map<int, Tally>, labels: seq<int>, scores: seq<real>)
    requires |labels| == |scores|
    ensures forall l :: l in GroupFrom(groups, labels, scores) <==> l in groups || l in labels
    ensures forall l :: l in GroupFrom(groups, labels, scores) ==>
      var prior := if l in groups then groups[l] else Tally(0.0, 0);
      GroupFrom(groups, labels, scores)[l] ==
        Tally(prior.sum + SumOf(labels, scores, l), prior.count + CountOf(labels, l))
    decreases |labels|
  {
    if labels != [] {
      GroupFromTallies(AddTo(groups, labels[0], scores[0]), labels[1..], scores[1..]);
      assert forall l :: l in labels <==> l == labels[0] || l in labels[1..] by {
        assert labels == [labels[0]] + labels[1..];
      }
    }
  }

  /** Each group holds exactly the sum and the count of its label's documents. */
  lemma GroupByTallies(labels: seq<int>, scores: seq<real>)
    requires |labels| == |scores|
    ensures forall l :: l in GroupBy(labels, scores) <==> l in labels
    ensures forall l :: l in GroupBy(labels, scores) ==>
      GroupBy(labels, scores)[l] == Tally(SumOf(labels, scores, l), CountOf(labels, l))
    ensures forall l :: l in GroupBy(labels, scores) ==> GroupBy(labels, scores)[l].count > 0
  {
    GroupFromTallies(map[], labels, scores);
    forall l | l in labels ensures CountOf(labels, l) > 0 {
      CountOfPositive(labels, l);
    }
  }

  /** A label occurring in the documents has at least one member. */
  lemma {:induction false} CountOfPositive(labels: seq<int>, l: int)
    ensures l in labels <==> CountOf(labels, l) > 0
    decreases |labels|
  {
    if labels != [] {
      CountOfPositive(labels[1..], l);
      assert l in labels <==> l == labels[0] || l in labels[1..] by {
        assert labels == [labels[0]] + labels[1..];
      }
    }
  }

  // ---------------------------------------------------------------------
  // The member counts of all groups add up to the number of documents

  lemma HasGroup(groups: map<int, Tally>)
    requires |groups.Keys| != 0
    ensures exists l :: l in groups
  {
    if forall l :: l !in groups {
      assert false;
    }
  }

  /** Some label of a non-empty group map. */
  ghost function AnyGroup(groups: map<int, Tally>): (l: int)
    requires |groups.Keys| != 0
    ensures l in groups
  {
    HasGroup(groups);
    var l :| l in groups; l
  }

  ghost function TotalCount(groups: map<int, Tally>): nat
    decreases |groups.Keys|
  {
    if |groups.Keys| == 0 then 0
    else
      var l := AnyGroup(groups);
      assert (groups - {l}).Keys == groups.Keys - {l};
      groups[l].count + TotalCount(groups - {l})
  }

  /** The total does not depend on which group is taken out first. */
  lemma {:induction false} TotalCountRemove(groups: map<int, Tally>, k: int)
    requires k in groups
    ensures TotalCount(groups) == groups[k].count + TotalCount(groups - {k})
    decreases |groups.Keys|
  {
    var l := AnyGroup(groups);
    assert TotalCount(groups) == groups[l].count + TotalCount(groups - {l});
    if l != k {
      var withoutL, withoutK := groups - {l}, groups - {k};
      assert withoutL.Keys == groups.Keys - {l};
      assert withoutK.Keys == groups.Keys - {k};
      TotalCountRemove(withoutL, k);
      TotalCountRemove(withoutK, l);
      assert withoutL - {k} == withoutK - {l};
    }
  }

  lemma TotalCountAddTo(groups: map<int, Tally>, l: int, x: real)
    ensures TotalCount(AddTo(groups, l, x)) == TotalCount(groups) + 1
  {
    var next := AddTo(groups, l, x);
    TotalCountRemove(next, l);
    if l in groups {
      TotalCountRemove(groups, l);
      assert next - {l} == groups - {l};
    } else {
      assert next - {l} == groups;
    }
  }

  lemma {:induction false} GroupFromCounts(groups: map<int, Tally>, labels: seq<int>, scores: seq<real>)
    requires |labels| == |scores|
    ensures TotalCount(GroupFrom(groups, labels, scores)) == TotalCount(groups) + |labels|
    decreases |labels|
  {
    if labels != [] {
      TotalCountAddTo(groups, labels[0], scores[0]);
      GroupFromCounts(AddTo(groups, labels[0], scores[0]), labels[1..], scores[1..]);
    }
  }

  /** Every document is in exactly one group: the counts sum to `len(docs)`. */
  lemma GroupByPartitions(labels: seq<int>, scores: seq<real>)
    requires |labels| == |scores|
    ensures TotalCount(GroupBy(labels, scores)) == |labels|
  {
    GroupFromCounts(map[], labels, scores);
  }

  // ---------------------------------------------------------------------
  // Means of compound scores stay in the compound score's range

  lemma {:induction false} SumOfBounded(labels: seq<int>, scores: seq<real>, l: int)
    requires |labels| == |scores|
    requires forall i :: 0 <= i < |scores| ==> -1.0 <= scores[i] <= 1.0
    ensures -(CountOf(labels, l) as real) <= SumOf(labels, scores, l) <= CountOf(labels, l) as real
    decreases |labels|
  {
    if labels != [] {
      SumOfBounded(labels[1..], scores[1..], l);
    }
  }

  lemma MeanInRange(labels: seq<int>, scores: seq<real>, l: int)
    requires |labels| == |scores|
    requires forall i :: 0 <= i < |scores| ==> -1.0 <= scores[i] <= 1.0
    requires l in labels
    ensures -1.0 <= MeanByTopic(labels, scores)[l] <= 1.0
  {
    SumOfBounded(labels, scores, l);
    CountOfPositive(labels, l);
    var n := CountOf(labels, l) as real;
    var sum := SumOf(labels, scores, l);
    DivideBounded(sum, n);
  }

  lemma DivideBounded(sum: real, n: real)
    requires n > 0.0 && -n <= sum <= n
    ensures -1.0 <= sum / n <= 1.0
  {
    assert sum / n * n == sum;
  }

  /** Three documents labelled 2 with scores 0.5, -0.5 and 1.0 average to 1/3. */
  lemma ExampleMean()
    ensures MeanByTopic([2, 2, 2], [0.5, -0.5, 1.0])[2] == 1.0 / 3.0
  {
    assert SumOf([2, 2, 2], [0.5, -0.5, 1.0], 2) == 1.0;
    assert CountOf([2, 2, 2], 2) == 3;
  }
}
