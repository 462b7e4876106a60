/** The loop that writes one Markdown table row per selected topic. Each row
    looks up the topic's mean sentiment by label; a label without an aggregate
    makes `.values[0]` raise, which ends the run with the rows written so far
    left in the file. */
module ReportRows {
  import opened Wrappers
  import opened TopTopics

  /** One table row: topic keywords, post count, mean sentiment. */
  datatype Row = Row(name: string, count: int, sentiment: real)

  /** Index of the first selected topic whose label has no aggregate, or
      `|top|` when every label has one. */
  function FirstMissing(top: seq<TopicInfo>, means: map<int, real>): (k: nat)
    ensures k <= |top|
    ensures forall i :: 0 <= i < k ==> top[i].topic in means
    ensures k < |top| ==> top[k].topic !in means
  {
    if top == [] || top[0].topic !in means then 0
    else 1 + FirstMissing(top[1..], means)
  }

  /** The rows written before the loop stops, and the label it stopped on,
      if any. */
  method EmitRows(top: seq<TopicInfo>, means: map<int, real>) returns (rows: seq<Row>, missing: Option<int>)
    ensures missing.None? <==> forall i :: 0 <= i < |top| ==> top[i].topic in means
    ensures missing.Some? ==> missing.value !in means
    ensures |rows| == FirstMissing(top, means)
    ensures missing.None? ==> |rows| == |top|
    ensures missing.Some? ==> missing.value == top[|rows|].topic
    ensures forall i :: 0 <= i < |rows| ==>
      top[i].topic in means && rows[i] == Row(top[i].name, top[i].count, means[top[i].topic])
  {
    rows := [];
    missing := None;
    var i := 0;
    while i < |top|
      invariant 0 <= i <= |top|
      invariant |rows| == i
      invariant forall j :: 0 <= j < i ==>
        top[j].topic in means && rows[j] == Row(top[j].name, top[j].count, means[top[j].topic])
    {
      var topic := top[i].topic;
      if topic !in means {
        missing := Some(topic);
        FirstMissingIs(top, means, i);
        return;
      }
      rows := rows + [Row(top[i].name, top[i].count, means[topic])];
      i := i + 1;
    }
    FirstMissingIs(top, means, |top|);
  }

  /** `FirstMissing` is the only index with all labels before it present and
      its own missing (or the end). */
  lemma {:induction false} FirstMissingIs(top: seq<TopicInfo>, means: map<int, real>, k: nat)
    requires k <= |top|
    requires forall i :: 0 <= i < k ==> top[i].topic in means
    requires k < |top| ==> top[k].topic !in means
    ensures FirstMissing(top, means) == k
    decreases k
  {
    if k > 0 {
      FirstMissingIs(top[1..], means, k - 1);
    }
  }
}
