/** The top-10 selection of scripts/analyze.py. The rows of
    `get_topic_info()` are taken in the order the topic model returns them
    (nothing is sorted here); only the row in slot 0 is checked for the outlier
    label -1. */
module TopTopics {
  import opened Wrappers

  /** The label of the topic modeller's outlier bucket. */
  const Outlier: int := -1

  /** One row of the topic-info table: `Topic`, `Name` and `Count`. */
  datatype TopicInfo = TopicInfo(topic: int, name: string, count: int)

  /** Python's `s[lo:hi]` for 0 <= lo <= hi: bounds past the end are cut back. */
  function PySlice<T>(s: seq<T>, lo: nat, hi: nat): (r: seq<T>)
    requires lo <= hi
    ensures |r| == if lo <= |s| then Min(hi, |s|) - lo else 0
    ensures forall i :: 0 <= i < |r| ==> r[i] == s[lo + i]
  {
    var h := Min(hi, |s|);
    if lo <= h then s[lo..h] else []
  }

  /** The `if`/`else` on `top_topics_info.iloc[0]['Topic']`: rows 1..10 when
      the first row is the outlier bucket, rows 0..9 otherwise. An empty table
      makes `iloc[0]` fail. */
  function SelectTop(info: seq<TopicInfo>): (r: Result<seq<TopicInfo>, Failure>)
    ensures r.Err? <==> info == []
    ensures r.Err? ==> r.error == EmptyTopicInfo
    ensures r.Ok? ==> |r.value| <= 10
    ensures r.Ok? ==> var start := if info[0].topic == Outlier then 1 else 0;
      |r.value| == Min(10, |info| - start)
    ensures r.Ok? ==> var start := if info[0].topic == Outlier then 1 else 0;
      forall i :: 0 <= i < |r.value| ==> start + i < |info| && r.value[i] == info[start + i]
  {
    if info == [] then Err(EmptyTopicInfo)
    else if info[0].topic == Outlier then Ok(PySlice(info, 1, 11))
    else Ok(PySlice(info, 0, 10))
  }

  // ---------------------------------------------------------------------
  // Properties

  /** The selection is the contiguous run of the table that starts after the
      leading outlier row, if any, and holds up to ten rows. */
  lemma SelectTopIsWindow(info: seq<TopicInfo>)
    requires info != []
    ensures var start := if info[0].topic == Outlier then 1 else 0;
      SelectTop(info) == Ok(info[start..Min(start + 10, |info|)])
  {
  }

  /** Exactly `min(10, |info| - start)` rows are selected, so never more than ten. */
  lemma SelectTopLength(info: seq<TopicInfo>)
    requires info != []
    ensures |SelectTop(info).value| <= 10
    ensures |SelectTop(info).value| == Min(10, |info| - (if info[0].topic == Outlier then 1 else 0))
  {
  }

  /** An outlier row in slot 0 is dropped: the selection starts with row 1. */
  lemma LeadingOutlierDropped(info: seq<TopicInfo>)
    requires |info| > 1 && info[0].topic == Outlier
    ensures SelectTop(info).value[0] == info[1]
    ensures forall i :: 0 <= i < |SelectTop(info).value| ==> SelectTop(info).value[i] == info[i + 1]
  {
  }

  /** Only slot 0 is tested: an outlier row further down the first ten is kept,
      in its place. */
  lemma LaterOutlierKept(info: seq<TopicInfo>, k: nat)
    requires 0 < k < 10 && k < |info|
    requires info[0].topic != Outlier && info[k].topic == Outlier
    ensures SelectTop(info).value[k] == info[k]
  {
  }

  /** Slot 0 not the outlier: the first ten rows are selected verbatim. */
  lemma NoLeadingOutlierKeepsPrefix(info: seq<TopicInfo>)
    requires info != [] && info[0].topic != Outlier
    ensures SelectTop(info).value == info[..Min(10, |info|)]
  {
  }
}
