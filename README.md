# Daily Reddit topic report: a Dafny model of its core

`scripts/analyze.py` is a batch script. It fetches the top posts of the day from three
subreddits, cleans their text, clusters the cleaned texts into topics with BERTopic,
scores each raw post with VADER, averages the sentiment per topic, and writes a bar
chart plus a Markdown table for the first ten topics. This project models the
deterministic logic between those library calls. The libraries themselves become
parameters or are left out.

- `wrappers.dfy` (`Wrappers`) holds `Option`, `Result` and `Failure`. `Failure` lists
  the three ways the modelled part of a run can raise: frame columns of unequal length, an empty
  topic-info table, and a selected topic without an aggregate.
- `collect.dfy` (`PostCollection`) covers the nested collection loop. It is a method
  with loop invariants, proved against the filter function `Collected`. Lemmas cover
  fetch order, membership both ways, `full_text`, and the "nothing kept" halt.
- `clean.dfy` (`TextCleaning`) covers `clean_text`. Each of its four steps is a
  left-to-right scanner function: lowering, `http\S+`, lazy `\[.*?\]` (where `.` does
  not cross a newline), and `[^a-z\s]`. The lemmas show:
  - the output holds only `a`–`z` and whitespace;
  - the output is a subsequence of the lowered input, so it is never longer than the input;
  - no match of step 2 or step 3 survives that step, so each of those steps is idempotent;
  - exactly the disallowed characters go in step 4;
  - single matches are removed as expected, and some edge cases are worked through:
    an upper-case scheme, a bare `http`, a newline inside brackets, and brackets whose
    removal forms a new URL.
- `aggregate.dfy` (`TopicSentiment`) covers the per-document scores and the
  group-by-mean. The grouping is a left-to-right fold into per-label tallies. It is
  proved equal to a reference sum and count per label, and it has exactly one group
  per distinct label, `-1` included. Its counts add up to the number of documents,
  and the means stay in `[-1, 1]`.
- `rank.dfy` (`TopTopics`) covers the positional top-10 rule with Python slice bounds.
- `report.dfy` (`ReportRows`) covers the row-writing loop. It is a method that stops
  at the first selected label that has no aggregate.
- `pipeline.dfy` (`Pipeline`) covers one whole run, `Pipeline.Run`. The topic model
  and the scorer are function parameters, so the contract can show what each one
  sees: the model gets the cleaned documents, and the scorer gets the raw ones.

Three facts about the script shape the model:
- The script does not sort the topic table. It trusts the row order that
  `get_topic_info()` returns (scripts/analyze.py:71-75), so `SelectTop` takes the table
  order as given.
- The script reads `post.title` and `post.selftext` directly (scripts/analyze.py:28-29),
  so a post is always a full record.
- The script does not re-label small clusters itself; it only passes `min_topic_size=3`
  to BERTopic (scripts/analyze.py:51). It has no special case for very few documents
  either. The `model` parameter of `Pipeline.Run` is unconstrained.

## Model

| member | source | states |
|---|---|---|
| `PostCollection.ToRecord` | scripts/analyze.py:28-29 | a record keeps the post's title and selftext, and `fullText` is the title, one space, then the selftext |
| `PostCollection.CollectPosts` | scripts/analyze.py:23-29 | the nested loop leaves exactly `Collected(fetched)` in `posts_data`: per subreddit in turn, the non-stickied posts in the order they were yielded |
| `PostCollection.KeepAppend` | scripts/analyze.py:26-29 | filtering distributes over concatenation, so kept records keep their relative fetch order |
| `PostCollection.CollectedIsKeepOfFlatten` | scripts/analyze.py:23-29 | the collected records are the filter of all fetched posts concatenated in fetch order |
| `PostCollection.KeepMembers` | scripts/analyze.py:27-29 | a record is kept if and only if it is built from a non-stickied post of the batch |
| `PostCollection.CollectedMembers` | scripts/analyze.py:23-29 | a record is collected if and only if it comes from some fetched non-stickied post; every collected record has `full_text == title + " " + selftext` |
| `PostCollection.KeepEmpty` | scripts/analyze.py:27-31 | nothing is kept exactly when every post is stickied (index form) |
| `PostCollection.NothingKeptIffAllStickied` | scripts/analyze.py:27-33 | the run reaches `exit()` exactly when every fetched post is stickied |
| `PostCollection.KeepLength` | scripts/analyze.py:27-29 | the filter never yields more records than posts |
| `TextCleaning.Lower` | scripts/analyze.py:41 | lowering keeps the length and maps each `A`–`Z` to its lower-case letter, leaving every other character alone |
| `TextCleaning.NonSpaceRun` | scripts/analyze.py:42 | `\S+` is greedy: the run is whitespace-free and is followed by whitespace or the end |
| `TextCleaning.StripUrls` | scripts/analyze.py:42 | the URL step never lengthens the text |
| `TextCleaning.FindClose` | scripts/analyze.py:43 | the lazy `.*?\]` stops at the first `]` with no newline before it; there is no match when a newline comes before every `]` |
| `TextCleaning.BracketSpan` | scripts/analyze.py:43 | a bracket match starts with `[` and ends at a `]` further on |
| `TextCleaning.BracketSpanNearest` | scripts/analyze.py:43 | the bracket match ends at the nearest `]` after the `[`, with no newline between; there is no match when the text does not start with `[` or a newline comes before every later `]` |
| `TextCleaning.StripBrackets` | scripts/analyze.py:43 | the bracket step never lengthens the text |
| `TextCleaning.StripDisallowed` | scripts/analyze.py:44 | after step 4 only `a`–`z` and whitespace remain, and the text is no longer |
| `TextCleaning.CleanText` | scripts/analyze.py:40-45 | the cleaned text holds only `a`–`z` and whitespace, and it is never longer than the input |
| `TextCleaning.CleanAll` | scripts/analyze.py:47 | one cleaned text per document, at the same index |
| `TextCleaning.StripUrlsDeletes` | scripts/analyze.py:42 | the URL step only deletes characters (its output is a subsequence of its input) |
| `TextCleaning.StripBracketsDeletes` | scripts/analyze.py:43 | the bracket step only deletes characters |
| `TextCleaning.StripDisallowedDeletes` | scripts/analyze.py:44 | step 4 only deletes characters |
| `TextCleaning.CleanTextDeletes` | scripts/analyze.py:40-45 | the cleaned text is a subsequence of the lowered text |
| `TextCleaning.UrlMatchEndsAtSpace` | scripts/analyze.py:42 | after a deleted URL the output resumes at whitespace or ends |
| `TextCleaning.StripUrlsKeepsPrefix` | scripts/analyze.py:42 | a whitespace-free prefix of the output is copied unchanged from the input |
| `TextCleaning.KeptCharStartsNoUrl` | scripts/analyze.py:42 | a character the scan keeps cannot start a URL together with what follows it in the output |
| `TextCleaning.StripUrlsLeavesNoUrl` | scripts/analyze.py:42 | no position of the output starts an `http\S+` match |
| `TextCleaning.StripUrlsFixesNoUrl` | scripts/analyze.py:42 | a text without any `http\S+` match passes the URL step unchanged |
| `TextCleaning.StripUrlsIdempotent` | scripts/analyze.py:42 | applying the URL step twice gives the same text as applying it once |
| `TextCleaning.UpperCaseSchemeRemoved` | scripts/analyze.py:41-42 | because lowering comes first, `HTTP` followed by a whitespace-free run is removed completely |
| `TextCleaning.BareSchemeKept` | scripts/analyze.py:42 | an `http` followed by whitespace or the end is not a match and stays |
| `TextCleaning.StripUrlsRemovesUrl` | scripts/analyze.py:42 | `http` and its whole maximal whitespace-free run are deleted, and the scan resumes after them |
| `TextCleaning.StripUrlsKeepsChar` | scripts/analyze.py:42 | a character that starts no match is copied, and the scan moves one place on |
| `TextCleaning.StripBracketsKeepsOpenLine` | scripts/analyze.py:43 | when no `]` comes before the first newline, the output has no `]` before its first newline either |
| `TextCleaning.StripBracketsLeavesNoSpan` | scripts/analyze.py:43 | no position of the output starts a `\[.*?\]` match |
| `TextCleaning.StripBracketsFixesNoSpan` | scripts/analyze.py:43 | a text without any bracket match passes the bracket step unchanged |
| `TextCleaning.StripBracketsIdempotent` | scripts/analyze.py:43 | applying the bracket step twice gives the same text as applying it once |
| `TextCleaning.FindCloseAfter` | scripts/analyze.py:43 | the match closes at the nearest `]` when only non-`]`, non-newline characters come before it |
| `TextCleaning.StripBracketsRemovesSpan` | scripts/analyze.py:43 | `[`, the nearest following `]`, and everything between them are deleted, provided no newline lies between |
| `TextCleaning.StripBracketsKeepsUnclosed` | scripts/analyze.py:43 | a `[` with no `]` before the next newline survives step 3 |
| `TextCleaning.StripBracketsKeepsChar` | scripts/analyze.py:43 | a character other than `[` is copied by step 3 |
| `TextCleaning.StripDisallowedCounts` | scripts/analyze.py:44 | step 4 keeps every occurrence of an allowed character and drops every occurrence of a disallowed one |
| `TextCleaning.StripDisallowedCons` | scripts/analyze.py:44 | step 4 works character by character |
| `TextCleaning.BracketRemovalCanFormUrl` | scripts/analyze.py:42-44 | the order of the steps matters: `ht[x]tp:x` cleans to `httpx`, which still holds a URL match |
| `TextCleaning.NewlineBlocksBracket` | scripts/analyze.py:43-44 | a newline inside `[...]` blocks step 3; step 4 then deletes the two brackets alone |
| `TopicSentiment.ScoreAll` | scripts/analyze.py:57 | one score per document, at the same index, computed from the raw document |
| `TopicSentiment.MeanByTopic` | scripts/analyze.py:60-66 | there is a mean for a label exactly when the label occurs among the documents (`-1` included); it is the label's score sum divided by its positive member count |
| `TopicSentiment.GroupFromTallies` | scripts/analyze.py:66 | folding documents into tallies adds each label's sum and count to what was already there |
| `TopicSentiment.GroupByTallies` | scripts/analyze.py:66 | the group-by has exactly one group per distinct label, and each group holds its label's score sum and a positive count |
| `TopicSentiment.CountOfPositive` | scripts/analyze.py:66 | a label occurs if and only if it has at least one member |
| `TopicSentiment.TotalCountRemove` | scripts/analyze.py:66 | the total group count does not depend on the order in which groups are taken out |
| `TopicSentiment.GroupByPartitions` | scripts/analyze.py:60-66 | every document is in exactly one group, so the member counts add up to `len(docs)` |
| `TopicSentiment.SumOfBounded` | scripts/analyze.py:57-66 | when every score lies in [-1, 1], a label's score sum lies between minus its count and its count |
| `TopicSentiment.MeanInRange` | scripts/analyze.py:57-66 | when every compound score lies in [-1, 1], so does every topic mean |
| `TopicSentiment.ExampleMean` | scripts/analyze.py:66 | three documents labelled 2 with scores 0.5, -0.5 and 1.0 have mean exactly 1/3 |
| `TopTopics.PySlice` | scripts/analyze.py:73-75 | Python's `s[lo:hi]`: bounds past the end are cut back, and elements keep their positions from `lo` on |
| `TopTopics.SelectTop` | scripts/analyze.py:72-75 | an empty table fails at `iloc[0]`; otherwise exactly `min(10, n - start)` rows are taken, contiguous and in table order, where `start` is 1 when row 0 is `-1` and 0 otherwise |
| `TopTopics.SelectTopIsWindow` | scripts/analyze.py:72-75 | the selection is `info[1..min(11, n)]` when row 0 is the outlier, else `info[0..min(10, n)]` |
| `TopTopics.SelectTopLength` | scripts/analyze.py:72-75 | there are `min(10, n - start)` selected rows, so never more than ten |
| `TopTopics.LeadingOutlierDropped` | scripts/analyze.py:72-73 | an outlier in slot 0 is dropped, and the selection starts with row 1 |
| `TopTopics.LaterOutlierKept` | scripts/analyze.py:72-75 | when slot 0 is not the outlier, a `-1` row among the first ten is kept in its place |
| `TopTopics.NoLeadingOutlierKeepsPrefix` | scripts/analyze.py:74-75 | when slot 0 is not the outlier, the first ten rows are selected verbatim |
| `ReportRows.FirstMissing` | scripts/analyze.py:103-105 | the index of the first selected topic with no aggregate (or the end); every label before it has one |
| `ReportRows.FirstMissingIs` | scripts/analyze.py:103-105 | that index is the unique one with every earlier label present and its own label absent |
| `ReportRows.EmitRows` | scripts/analyze.py:103-106 | rows are written one per selected topic, in selection order, each with the topic's name, its count and its label's mean; the loop stops at the first label with no aggregate, reports that label, and keeps the rows written before it |
| `Pipeline.FullTexts` | scripts/analyze.py:35 | one document per record, at the same index, being its `full_text` |
| `Pipeline.Run` | scripts/analyze.py:23-106 | a whole run. It halts with nothing produced exactly when every fetched post is stickied. It fails on a label column of the wrong length, or on an empty topic table. It completes exactly when every selected label occurs among the documents; otherwise it fails on the first missing label. Every written row carries its topic's name and count and the mean score of the raw documents with that label, while the topic model sees only the cleaned documents |

## Left out

- Exceptions outside the modelled part: missing credentials in `os.environ`
  (scripts/analyze.py:12-13), errors inside praw, BERTopic or VADER, and failures of
  `os.makedirs`, `savefig` or `open` (scripts/analyze.py:86-94).
- Reddit access (scripts/analyze.py:11-26): the praw client, the credentials in the
  environment, the subreddit names, and `top(time_filter="day", limit=50)`. What each
  subreddit yields is the input `fetched`. The 50-post limit is enforced by the API,
  not by the script.
- BERTopic (scripts/analyze.py:51-52, 71): embedding, clustering, the
  `min_topic_size=3` re-labelling, and the row order of `get_topic_info()`. The topic
  model is a function parameter from the cleaned documents to labels and an ordered
  topic-info table. An exception raised inside the library is not modelled.
- VADER (scripts/analyze.py:56-57): the scorer is a function parameter from a
  document to a `real`. `TopicSentiment.MeanInRange` takes the compound score's range
  [-1, 1] as a hypothesis.
- Chart rendering, `os.makedirs`, the fixed Markdown header lines and the file handle
  (scripts/analyze.py:78-101). `Pipeline.Run` does not record that the chart is written
  before the report. So an `Aborted` outcome for a missing aggregate does not say that
  the chart already exists.
- The wall-clock timestamp (scripts/analyze.py:96) and the console messages.
- Floating point: scores and means are exact reals. The `{sentiment_score:.2f}`
  formatting (scripts/analyze.py:106) is not modelled; a row carries the unrounded mean.
- Unicode: `TextCleaning.Lower` only maps `A`–`Z`, and `TextCleaning.IsSpace` is the
  ASCII part of Python's `\s` (tab, line feed, vertical tab, form feed, carriage
  return, 0x1C–0x1F, space). For non-ASCII input, Python's `str.lower()` and `\s`
  differ from this model.
- pandas: only the group-by-label mean and the label lookup are modelled. The frame's
  `doc` column is not kept, because only the labels and scores feed the mean. The
  `Count` column of the topic table is copied into the row; it is not checked against
  the group counts.
