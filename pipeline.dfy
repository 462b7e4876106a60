/** One run of scripts/analyze.py over abstract inputs: the posts each
    subreddit yields, the topic model and the sentiment scorer. */
module Pipeline {
  import opened Wrappers
  import opened PostCollection
  import opened TextCleaning
  import opened TopicSentiment
  import opened TopTopics
  import opened ReportRows

  /** What `fit_transform` and `get_topic_info()` give back: one label per
      document and the ordered topic-info table. */
  datatype TopicModelOutput = TopicModelOutput(topics: seq<int>, info: seq<TopicInfo>)

  datatype RunOutcome =
    | NoPosts                                    // halted before any chart or report
    | Completed(rows: seq<Row>)                  // chart and full report written
    | Aborted(failure: Failure, rows: seq<Row>)  // raised; `rows` already written to the report

  /** `[d['full_text'] for d in posts_data]`. */
  function FullTexts(records: seq<Record>): (docs: seq<string>)
    ensures |docs| == |records|
    ensures forall i :: 0 <= i < |records| ==> docs[i] == records[i].fullText
  {
    seq(|records|, i requires 0 <= i < |records| => records[i].fullText)
  }

  function Docs(fetched: seq<seq<Post>>): seq<string>
  {
    FullTexts(Collected(fetched))
  }

  /** The model's output for a run; it sees the cleaned documents only. */
  function ModelOn(fetched: seq<seq<Post>>, model: seq<string> -> TopicModelOutput): TopicModelOutput
  {
    model(CleanAll(Docs(fetched)))
  }

  method Run(fetched: seq<seq<Post>>, model: seq<string> -> TopicModelOutput, score: string -> real)
    returns (outcome: RunOutcome)
    // nothing is produced exactly when no non-stickied post was fetched
    ensures outcome.NoPosts? <==> forall p :: p in Flatten(fetched) ==> p.stickied
    // frame construction fails on a label column of the wrong length
    ensures !outcome.NoPosts? ==>
      (outcome == Aborted(LengthMismatch, []) <==> |ModelOn(fetched, model).topics| != |Docs(fetched)|)
    // `iloc[0]` fails on an empty topic-info table
    ensures !outcome.NoPosts? && |ModelOn(fetched, model).topics| == |Docs(fetched)| ==>
      (outcome == Aborted(EmptyTopicInfo, []) <==> ModelOn(fetched, model).info == [])
    // the report is complete exactly when every selected label occurs among the documents
    ensures (!outcome.NoPosts? && |ModelOn(fetched, model).topics| == |Docs(fetched)| &&
             ModelOn(fetched, model).info != []) ==>
      var out := ModelOn(fetched, model);
      var top := SelectTop(out.info).value;
      (outcome.Completed? <==> forall i :: 0 <= i < |top| ==> top[i].topic in out.topics) &&
      (outcome.Aborted? ==>
         |outcome.rows| < |top| &&
         outcome.failure == MissingAggregate(top[|outcome.rows|].topic) &&
         top[|outcome.rows|].topic !in out.topics)
    // each written row is its selected topic, in selection order, with the mean
    // of the scores of the raw documents carrying its label
    ensures outcome.Completed? || outcome.Aborted? ==>
      var docs := Docs(fetched);
      var out := ModelOn(fetched, model);
      var scores := ScoreAll(docs, score);
      outcome.rows != [] ==>
        |out.topics| == |docs| && out.info != [] &&
        var top := SelectTop(out.info).value;
        |outcome.rows| <= |top| &&
        forall i :: 0 <= i < |outcome.rows| ==>
          top[i].topic in out.topics && CountOf(out.topics, top[i].topic) > 0 &&
          outcome.rows[i] == Row(top[i].name, top[i].count,
            SumOf(out.topics, scores, top[i].topic) / CountOf(out.topics, top[i].topic) as real)
    ensures outcome.Completed? ==> |outcome.rows| == |SelectTop(ModelOn(fetched, model).info).value|
  {
    var records := CollectPosts(fetched);
    CollectedIsKeepOfFlatten(fetched);
    NothingKeptIffAllStickied(Flatten(fetched));
    if records == [] {
      return NoPosts;
    }
    var docs := FullTexts(records);
    var cleaned := CleanAll(docs);
    var out := model(cleaned);
    var sentiments := ScoreAll(docs, score);
    if |out.topics| != |docs| {
      return Aborted(LengthMismatch, []);
    }
    var means := MeanByTopic(out.topics, sentiments);
    var selected := SelectTop(out.info);
    if selected.Err? {
      return Aborted(selected.error, []);
    }
    var rows, missing := EmitRows(selected.value, means);
    if missing.Some? {
      return Aborted(MissingAggregate(missing.value), rows);
    }
    return Completed(rows);
  }
}
