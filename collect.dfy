/** The collection loop of scripts/analyze.py: for each subreddit in turn, the
    fetched posts are scanned in order and every non-stickied one is appended to
    `posts_data` as a record carrying `full_text = title + " " + selftext`. */
module PostCollection {

  /** What the loop reads of a fetched post. */
  datatype Post = Post(title: string, selftext: string, stickied: bool)

  /** One entry of `posts_data`. */
  datatype Record = Record(title: string, text: string, fullText: string)

  function ToRecord(p: Post): (r: Record)
    ensures r.title == p.title && r.text == p.selftext
    ensures r.fullText == p.title + " " + p.selftext
  {
    Record(p.title, p.selftext, p.title + " " + p.selftext)
  }

  /** Records kept from one subreddit's posts, in fetch order. */
  function Keep(posts: seq<Post>): seq<Record>
  {
    if posts == [] then []
    else
      var last := posts[|posts| - 1];
      Keep(posts[..|posts| - 1]) + (if last.stickied then [] else [ToRecord(last)])
  }

  /** Records kept from all subreddits, subreddit after subreddit. */
  function Collected(fetched: seq<seq<Post>>): seq<Record>
  {
    if fetched == [] then []
    else Collected(fetched[..|fetched| - 1]) + Keep(fetched[|fetched| - 1])
  }

  /** All fetched posts in fetch order. */
  function Flatten(fetched: seq<seq<Post>>): seq<Post>
  {
    if fetched == [] then [] else Flatten(fetched[..|fetched| - 1]) + fetched[|fetched| - 1]
  }

  /** The nested loop that builds `posts_data`; `fetched[s]` is what
      `subreddit.top(...)` yielded for the s-th subreddit. */
  method CollectPosts(fetched: seq<seq<Post>>) returns (records: seq<Record>)
    ensures records == Collected(fetched)
  {
    records := [];
    for s := 0 to |fetched|
      invariant records == Collected(fetched[..s])
    {
      var batch := fetched[s];
      for p := 0 to |batch|
        invariant records == Collected(fetched[..s]) + Keep(batch[..p])
      {
        var post := batch[p];
        assert batch[..p + 1][..p] == batch[..p];
        if !post.stickied {
          records := records + [ToRecord(post)];
        }
      }
      assert batch[..|batch|] == batch;
      assert fetched[..s + 1][..s] == fetched[..s];
    }
    assert fetched[..|fetched|] == fetched;
  }

  // ---------------------------------------------------------------------
  // Properties

  /** Filtering distributes over concatenation: kept records keep fetch order. */
  lemma {:induction false} KeepAppend(a: seq<Post>, b: seq<Post>)
    ensures Keep(a + b) == Keep(a) + Keep(b)
    decreases |b|
  {
    if b != [] {
      var n := |b| - 1;
      assert (a + b)[..|a + b| - 1] == a + b[..n];
      KeepAppend(a, b[..n]);
    } else {
      assert a + b == a;
    }
  }

  /** The records are exactly the non-stickied posts of the whole fetch, in order. */
  lemma {:induction false} CollectedIsKeepOfFlatten(fetched: seq<seq<Post>>)
    ensures Collected(fetched) == Keep(Flatten(fetched))
    decreases |fetched|
  {
    if fetched != [] {
      var n := |fetched| - 1;
      CollectedIsKeepOfFlatten(fetched[..n]);
      KeepAppend(Flatten(fetched[..n]), fetched[n]);
    }
  }

  /** A record is kept if and only if it comes from a non-stickied post. */
  lemma {:induction false} KeepMembers(posts: seq<Post>, r: Record)
    ensures r in Keep(posts) <==> exists i :: 0 <= i < |posts| && !posts[i].stickied && r == ToRecord(posts[i])
    decreases |posts|
  {
    if posts != [] {
      var n := |posts| - 1;
      KeepMembers(posts[..n], r);
      if exists i :: 0 <= i < n + 1 && !posts[i].stickied && r == ToRecord(posts[i]) {
        var i :| 0 <= i < n + 1 && !posts[i].stickied && r == ToRecord(posts[i]);
        if i < n { assert posts[..n][i] == posts[i]; }
      }
      if exists i :: 0 <= i < n && !posts[..n][i].stickied && r == ToRecord(posts[..n][i]) {
        var i :| 0 <= i < n && !posts[..n][i].stickied && r == ToRecord(posts[..n][i]);
        assert posts[..n][i] == posts[i];
      }
    }
  }

  /** Every collected record is a non-stickied post of some subreddit, with
      `full_text == title + " " + selftext`; and every such post is collected. */
  lemma CollectedMembers(fetched: seq<seq<Post>>, r: Record)
    ensures r in Collected(fetched) <==>
      exists p :: p in Flatten(fetched) && !p.stickied && r == ToRecord(p)
    ensures r in Collected(fetched) ==> r.fullText == r.title + " " + r.text
  {
    CollectedIsKeepOfFlatten(fetched);
    KeepMembers(Flatten(fetched), r);
  }

  /** Nothing survives exactly when every fetched post is stickied. */
  lemma {:induction false} KeepEmpty(posts: seq<Post>)
    ensures Keep(posts) == [] <==> forall i :: 0 <= i < |posts| ==> posts[i].stickied
    decreases |posts|
  {
    if posts != [] {
      var n := |posts| - 1;
      KeepEmpty(posts[..n]);
      assert forall i :: 0 <= i < n ==> posts[..n][i] == posts[i];
    }
  }

  /** The run halts before any output exactly when every fetched post is stickied. */
  lemma NothingKeptIffAllStickied(posts: seq<Post>)
    ensures Keep(posts) == [] <==> forall p :: p in posts ==> p.stickied
  {
    KeepEmpty(posts);
  }

  lemma {:induction false} KeepLength(posts: seq<Post>)
    ensures |Keep(posts)| <= |posts|
    decreases |posts|
  {
    if posts != [] { KeepLength(posts[..|posts| - 1]); }
  }
}
