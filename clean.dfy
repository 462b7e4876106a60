/** The four-step text normaliser `clean_text` of scripts/analyze.py and its
    element-wise application to the collected documents. Each `re.sub` is a
    left-to-right scanner: at each position it either matches and deletes the
    match, resuming after it, or keeps one character and moves on. */
module TextCleaning {
  import opened Wrappers

  /** Python's `\s` on the ASCII range: tab, line feed, vertical tab, form
      feed, carriage return, the separators 0x1C-0x1F, and space. */
  predicate IsSpace(c: char) {
    9 <= c as int <= 13 || 28 <= c as int <= 32
  }

  /** The characters `[^a-z\s]` does not delete. */
  predicate IsKept(c: char) {
    'a' <= c <= 'z' || IsSpace(c)
  }

  /** `r` is obtained from `s` by deleting characters only. */
  predicate IsSubsequence(r: string, s: string)
    decreases |s|
  {
    |r| <= |s| &&
    (r == [] || (r[0] == s[0] && IsSubsequence(r[1..], s[1..])) || IsSubsequence(r, s[1..]))
  }

  // ---------------------------------------------------------------------
  // Step 1: `text.lower()`

  function LowerChar(c: char): (d: char)
    ensures 'A' <= c <= 'Z' ==> 'a' <= d <= 'z' && d as int == c as int + 32
    ensures !('A' <= c <= 'Z') ==> d == c
  {
    if 'A' <= c <= 'Z' then (c as int + 32) as char else c
  }

  function Lower(s: string): (r: string)
    ensures |r| == |s|
    ensures forall i :: 0 <= i < |s| ==> r[i] == LowerChar(s[i])
  {
    seq(|s|, i requires 0 <= i < |s| => LowerChar(s[i]))
  }

  // ---------------------------------------------------------------------
  // Step 2: `re.sub(r'http\S+', '', text)`

  /** Length of the longest whitespace-free prefix of `s` (a greedy `\S*`). */
  function NonSpaceRun(s: string): (n: nat)
    ensures n <= |s|
    ensures forall i :: 0 <= i < n ==> !IsSpace(s[i])
    ensures n < |s| ==> IsSpace(s[n])
  {
    if s == [] || IsSpace(s[0]) then 0 else 1 + NonSpaceRun(s[1..])
  }

  /** `http\S+` matches at the front of `s`. */
  predicate UrlAt(s: string) {
    |s| > 4 && s[0] == 'h' && s[1] == 't' && s[2] == 't' && s[3] == 'p' && !IsSpace(s[4])
  }

  function StripUrls(s: string): (r: string)
    ensures |r| <= |s|
    decreases |s|
  {
    if s == [] then []
    else if UrlAt(s) then StripUrls(s[4 + NonSpaceRun(s[4..])..])
    else [s[0]] + StripUrls(s[1..])
  }

  /** No position of `s` starts a match of `http\S+`. */
  predicate NoUrl(s: string) {
    forall i :: 0 <= i < |s| ==> !UrlAt(s[i..])
  }

  // ---------------------------------------------------------------------
  // Step 3: `re.sub(r'\[.*?\]', '', text)`

  /** Index in `s` of the first `]` that no newline precedes: where a lazy
      `.*?` followed by `\]` stops. None when a newline or the end comes first. */
  function FindClose(s: string): (j: Option<nat>)
    ensures j.Some? ==> j.value < |s| && s[j.value] == ']'
    ensures j.Some? ==> forall k :: 0 <= k < j.value ==> s[k] != ']' && s[k] != '\n'
    ensures j.None? ==> forall k :: 0 <= k < |s| && s[k] == ']' ==> '\n' in s[..k]
  {
    if s == [] || s[0] == '\n' then None
    else if s[0] == ']' then Some(0)
    else
      match FindClose(s[1..])
      case None =>
        assert forall k :: 1 <= k < |s| ==> s[..k] == [s[0]] + s[1..][..k - 1];
        None
      case Some(j) => Some(j + 1)
  }

  /** When `\[.*?\]` matches at the front of `s`, the index of its `]`. */
  function BracketSpan(s: string): (j: Option<nat>)
    ensures j.Some? ==> 0 < j.value < |s| && s[0] == '[' && s[j.value] == ']'
  {
    if s != [] && s[0] == '[' then
      match FindClose(s[1..])
      case None => None
      case Some(k) => Some(k + 1)
    else None
  }

  /** The bracket match ends at the nearest `]`, with no newline inside it; there is
      none when the text does not open with `[` or every later `]` has a newline before it. */
  lemma BracketSpanNearest(s: string)
    ensures BracketSpan(s).Some? ==>
      forall k :: 0 < k < BracketSpan(s).value ==> s[k] != ']' && s[k] != '\n'
    ensures BracketSpan(s).None? ==>
      s == [] || s[0] != '[' || forall k :: 0 < k < |s| && s[k] == ']' ==> '\n' in s[1..k]
  {
    if s != [] && s[0] == '[' {
      var t := s[1..];
      assert forall k :: 1 <= k < |s| ==> s[1..k] == t[..k - 1] && s[k] == t[k - 1];
    }
  }

  function StripBrackets(s: string): (r: string)
    ensures |r| <= |s|
    decreases |s|
  {
    if s == [] then []
    else
      match BracketSpan(s)
      case Some(j) => StripBrackets(s[j + 1..])
      case None => [s[0]] + StripBrackets(s[1..])
  }

  /** No position of `s` starts a match of `\[.*?\]`. */
  predicate NoBracketSpan(s: string) {
    forall i :: 0 <= i < |s| ==> BracketSpan(s[i..]).None?
  }

  // ---------------------------------------------------------------------
  // Step 4: `re.sub(r'[^a-z\s]', '', text)`

  function StripDisallowed(s: string): (r: string)
    ensures |r| <= |s|
    ensures forall i :: 0 <= i < |r| ==> IsKept(r[i])
  {
    if s == [] then [] else (if IsKept(s[0]) then [s[0]] else []) + StripDisallowed(s[1..])
  }

  // ---------------------------------------------------------------------
  // `clean_text` and its map over the documents

  function CleanText(text: string): (r: string)
    ensures forall i :: 0 <= i < |r| ==> 'a' <= r[i] <= 'z' || IsSpace(r[i])
    ensures |r| <= |text|
  {
    var lowered := Lower(text);
    var noUrls := StripUrls(lowered);
    var noBrackets := StripBrackets(noUrls);
    StripDisallowed(noBrackets)
  }

  /** `[clean_text(doc) for doc in docs]`: one cleaned text per document, by index. */
  function CleanAll(docs: seq<string>): (cleaned: seq<string>)
    ensures |cleaned| == |docs|
    ensures forall i :: 0 <= i < |docs| ==> cleaned[i] == CleanText(docs[i])
  {
    seq(|docs|, i requires 0 <= i < |docs| => CleanText(docs[i]))
  }

  // ---------------------------------------------------------------------
  // Deletion only

  lemma {:induction false} SubsequenceCons(r: string, s: string)
    requires s != [] && IsSubsequence(r, s[1..])
    ensures IsSubsequence([s[0]] + r, s)
  {
    assert ([s[0]] + r)[1..] == r;
  }

  lemma {:induction false} SubsequenceDropFront(r: string, s: string, k: nat)
    requires k <= |s| && IsSubsequence(r, s[k..])
    ensures IsSubsequence(r, s)
    decreases k
  {
    if k > 0 {
      assert s[1..][k - 1..] == s[k..];
      SubsequenceDropFront(r, s[1..], k - 1);
    }
  }

  lemma {:induction false} SubsequenceTrans(a: string, b: string, c: string)
    requires IsSubsequence(a, b) && IsSubsequence(b, c)
    ensures IsSubsequence(a, c)
    decreases |c|
  {
    if a == [] || b == [] {
    } else if IsSubsequence(b, c[1..]) {
      SubsequenceTrans(a, b, c[1..]);
    } else if a[0] == b[0] && IsSubsequence(a[1..], b[1..]) {
      SubsequenceTrans(a[1..], b[1..], c[1..]);
    } else {
      SubsequenceTrans(a, b[1..], c[1..]);
    }
  }

  lemma {:induction false} StripUrlsDeletes(s: string)
    ensures IsSubsequence(StripUrls(s), s)
    decreases |s|
  {
    if s == [] {
    } else if UrlAt(s) {
      var k := 4 + NonSpaceRun(s[4..]);
      StripUrlsDeletes(s[k..]);
      SubsequenceDropFront(StripUrls(s), s, k);
    } else {
      StripUrlsDeletes(s[1..]);
      SubsequenceCons(StripUrls(s[1..]), s);
    }
  }

  lemma {:induction false} StripBracketsDeletes(s: string)
    ensures IsSubsequence(StripBrackets(s), s)
    decreases |s|
  {
    if s != [] {
      match BracketSpan(s)
      case Some(j) =>
        StripBracketsDeletes(s[j + 1..]);
        SubsequenceDropFront(StripBrackets(s), s, j + 1);
      case None =>
        StripBracketsDeletes(s[1..]);
        SubsequenceCons(StripBrackets(s[1..]), s);
    }
  }

  lemma {:induction false} StripDisallowedDeletes(s: string)
    ensures IsSubsequence(StripDisallowed(s), s)
    decreases |s|
  {
    if s != [] {
      StripDisallowedDeletes(s[1..]);
      if IsKept(s[0]) {
        SubsequenceCons(StripDisallowed(s[1..]), s);
      } else {
        assert StripDisallowed(s) == StripDisallowed(s[1..]);
      }
    }
  }

  /** For ASCII input lowering keeps the length and the three substitutions
      only delete, so the cleaned text is a subsequence of the lowered text. */
  lemma CleanTextDeletes(text: string)
    ensures IsSubsequence(CleanText(text), Lower(text))
  {
    var lowered := Lower(text);
    var noUrls := StripUrls(lowered);
    var noBrackets := StripBrackets(noUrls);
    StripUrlsDeletes(lowered);
    StripBracketsDeletes(noUrls);
    StripDisallowedDeletes(noBrackets);
    SubsequenceTrans(StripDisallowed(noBrackets), noBrackets, noUrls);
    SubsequenceTrans(StripDisallowed(noBrackets), noUrls, lowered);
  }

  // ---------------------------------------------------------------------
  // Step 2: what is left has no URL match, so the step is idempotent

  /** After a deleted URL the output resumes with whitespace or ends. */
  lemma UrlMatchEndsAtSpace(t: string)
    requires UrlAt(t)
    ensures StripUrls(t) == [] || IsSpace(StripUrls(t)[0])
  {
    var u := t[4 + NonSpaceRun(t[4..])..];
    assert u == [] || (IsSpace(u[0]) && !UrlAt(u));
  }

  /** A whitespace-free prefix of the output was copied unchanged from the
      input: every deletion is followed by whitespace or the end. */
  lemma {:induction false} StripUrlsKeepsPrefix(t: string, k: nat)
    requires k <= |StripUrls(t)|
    requires forall j :: 0 <= j < k ==> !IsSpace(StripUrls(t)[j])
    ensures k <= |t| && StripUrls(t)[..k] == t[..k]
    decreases |t|
  {
    if k > 0 {
      if UrlAt(t) {
        UrlMatchEndsAtSpace(t);
        assert false;
      } else {
        var tail := StripUrls(t[1..]);
        assert StripUrls(t) == [t[0]] + tail;
        assert forall j :: 0 <= j < k - 1 ==> tail[j] == StripUrls(t)[j + 1];
        StripUrlsKeepsPrefix(t[1..], k - 1);
      }
    }
  }

  /** A kept character cannot start a URL match together with what follows it. */
  lemma KeptCharStartsNoUrl(s: string)
    requires s != [] && !UrlAt(s)
    ensures !UrlAt([s[0]] + StripUrls(s[1..]))
  {
    var tail := StripUrls(s[1..]);
    var r := [s[0]] + tail;
    if UrlAt(r) {
      assert forall j :: 0 <= j < 4 ==> tail[j] == r[j + 1];
      StripUrlsKeepsPrefix(s[1..], 4);
      assert forall j :: 0 <= j < 4 ==> tail[j] == s[j + 1] by {
        assert forall j :: 0 <= j < 4 ==> tail[..4][j] == s[1..][..4][j];
      }
    }
  }

  lemma NoUrlCons(c: char, tail: string)
    requires NoUrl(tail) && !UrlAt([c] + tail)
    ensures NoUrl([c] + tail)
  {
    var r := [c] + tail;
    forall i | 0 <= i < |r| ensures !UrlAt(r[i..]) {
      if i == 0 { assert r[0..] == r; } else { assert r[i..] == tail[i - 1..]; }
    }
  }

  lemma {:induction false} StripUrlsLeavesNoUrl(s: string)
    ensures NoUrl(StripUrls(s))
    decreases |s|
  {
    if s == [] {
    } else if UrlAt(s) {
      StripUrlsLeavesNoUrl(s[4 + NonSpaceRun(s[4..])..]);
    } else {
      StripUrlsLeavesNoUrl(s[1..]);
      KeptCharStartsNoUrl(s);
      NoUrlCons(s[0], StripUrls(s[1..]));
    }
  }

  lemma {:induction false} StripUrlsFixesNoUrl(s: string)
    requires NoUrl(s)
    ensures StripUrls(s) == s
    decreases |s|
  {
    if s != [] {
      assert s[0..] == s;
      assert NoUrl(s[1..]) by {
        forall i | 0 <= i < |s[1..]| ensures !UrlAt(s[1..][i..]) {
          assert s[1..][i..] == s[i + 1..];
        }
      }
      StripUrlsFixesNoUrl(s[1..]);
    }
  }

  lemma StripUrlsIdempotent(s: string)
    ensures StripUrls(StripUrls(s)) == StripUrls(s)
  {
    StripUrlsLeavesNoUrl(s);
    StripUrlsFixesNoUrl(StripUrls(s));
  }

  /** URL stripping runs after lowering, so an upper-case scheme goes too. */
  lemma UpperCaseSchemeRemoved(w: string)
    requires w != [] && forall i :: 0 <= i < |w| ==> !IsSpace(w[i])
    ensures StripUrls(Lower("HTTP" + w)) == []
  {
    var s := Lower("HTTP" + w);
    assert s[0] == 'h' && s[1] == 't' && s[2] == 't' && s[3] == 'p';
    assert forall i :: 0 <= i < |s[4..]| ==> !IsSpace(s[4..][i]) by {
      forall i | 0 <= i < |s[4..]| ensures !IsSpace(s[4..][i]) {
        assert s[4..][i] == LowerChar(w[i]);
      }
    }
    assert UrlAt(s);
    assert s[4 + NonSpaceRun(s[4..])..] == [];
  }

  /** An `http` followed by whitespace or the end is not a match: it stays. */
  lemma BareSchemeKept(t: string)
    requires t == [] || IsSpace(t[0])
    ensures StripUrls("http" + t) == "http" + StripUrls(t)
  {
    var s := "http" + t;
    assert !UrlAt(s);
    assert s[1..] == "ttp" + t && !UrlAt(s[1..]);
    assert s[2..] == "tp" + t && !UrlAt(s[2..]);
    assert s[3..] == "p" + t && !UrlAt(s[3..]);
    assert s[4..] == t;
    calc {
      StripUrls(s);
      ['h'] + StripUrls(s[1..]);
      ['h'] + (['t'] + StripUrls(s[2..]));
      ['h'] + (['t'] + (['t'] + StripUrls(s[3..])));
      ['h'] + (['t'] + (['t'] + (['p'] + StripUrls(t))));
      "http" + StripUrls(t);
    }
  }

  // ---------------------------------------------------------------------
  // Step 3: what is left has no bracket match, so the step is idempotent

  /** When no `]` precedes the first newline, no bracket match starts before
      it either, and the output again has no `]` before its first newline. */
  lemma {:induction false} StripBracketsKeepsOpenLine(t: string)
    requires FindClose(t).None?
    ensures FindClose(StripBrackets(t)).None?
    decreases |t|
  {
    if t != [] && t[0] != '\n' {
      assert FindClose(t[1..]).None?;
      assert BracketSpan(t).None?;
      StripBracketsKeepsOpenLine(t[1..]);
      assert StripBrackets(t)[1..] == StripBrackets(t[1..]);
    }
  }

  lemma {:induction false} StripBracketsLeavesNoSpan(s: string)
    ensures NoBracketSpan(StripBrackets(s))
    decreases |s|
  {
    if s != [] {
      match BracketSpan(s)
      case Some(j) =>
        StripBracketsLeavesNoSpan(s[j + 1..]);
      case None =>
        var tail := StripBrackets(s[1..]);
        var r := StripBrackets(s);
        StripBracketsLeavesNoSpan(s[1..]);
        assert r == [s[0]] + tail;
        forall i | 0 <= i < |r| ensures BracketSpan(r[i..]).None? {
          if i == 0 {
            if s[0] == '[' {
              assert FindClose(s[1..]).None?;
              StripBracketsKeepsOpenLine(s[1..]);
              assert r[0..][1..] == tail;
            }
          } else {
            assert r[i..] == tail[i - 1..];
          }
        }
    }
  }

  lemma {:induction false} StripBracketsFixesNoSpan(s: string)
    requires NoBracketSpan(s)
    ensures StripBrackets(s) == s
    decreases |s|
  {
    if s != [] {
      assert s[0..] == s;
      assert NoBracketSpan(s[1..]) by {
        forall i | 0 <= i < |s[1..]| ensures BracketSpan(s[1..][i..]).None? {
          assert s[1..][i..] == s[i + 1..];
        }
      }
      StripBracketsFixesNoSpan(s[1..]);
    }
  }

  lemma StripBracketsIdempotent(s: string)
    ensures StripBrackets(StripBrackets(s)) == StripBrackets(s)
  {
    StripBracketsLeavesNoSpan(s);
    StripBracketsFixesNoSpan(StripBrackets(s));
  }

  // ---------------------------------------------------------------------
  // Step 4: exactly the disallowed characters go

  lemma {:induction false} StripDisallowedCounts(s: string)
    ensures forall c :: multiset(StripDisallowed(s))[c] == if IsKept(c) then multiset(s)[c] else 0
    decreases |s|
  {
    if s != [] {
      StripDisallowedCounts(s[1..]);
      assert s == [s[0]] + s[1..];
      assert multiset(s) == multiset{s[0]} + multiset(s[1..]);
    }
  }

  // ---------------------------------------------------------------------
  // One scanner step at a time

  lemma {:induction false} NonSpaceRunOf(w: string, t: string)
    requires forall i :: 0 <= i < |w| ==> !IsSpace(w[i])
    requires t == [] || IsSpace(t[0])
    ensures NonSpaceRun(w + t) == |w|
    decreases |w|
  {
    if w != [] {
      assert (w + t)[1..] == w[1..] + t;
      NonSpaceRunOf(w[1..], t);
    } else {
      assert w + t == t;
    }
  }

  /** `http` and the whole whitespace-free run after it are deleted. */
  lemma StripUrlsRemovesUrl(w: string, t: string)
    requires w != [] && forall i :: 0 <= i < |w| ==> !IsSpace(w[i])
    requires t == [] || IsSpace(t[0])
    ensures StripUrls("http" + w + t) == StripUrls(t)
  {
    var s := "http" + w + t;
    assert s[4..] == w + t;
    NonSpaceRunOf(w, t);
    assert s[4 + |w|..] == t;
  }

  /** A character that does not start a match is copied. */
  lemma StripUrlsKeepsChar(c: char, t: string)
    requires !UrlAt([c] + t)
    ensures StripUrls([c] + t) == [c] + StripUrls(t)
  {
    assert ([c] + t)[1..] == t;
  }

  lemma {:induction false} FindCloseAfter(x: string, t: string)
    requires forall i :: 0 <= i < |x| ==> x[i] != ']' && x[i] != '\n'
    ensures FindClose(x + "]" + t) == Some(|x|)
    decreases |x|
  {
    if x != [] {
      assert (x + "]" + t)[1..] == x[1..] + "]" + t;
      FindCloseAfter(x[1..], t);
    } else {
      assert (x + "]" + t)[0] == ']';
    }
  }

  /** A `[` is deleted together with the nearest `]` after it and everything
      between, when no newline lies between them. */
  lemma StripBracketsRemovesSpan(x: string, t: string)
    requires forall i :: 0 <= i < |x| ==> x[i] != ']' && x[i] != '\n'
    ensures StripBrackets("[" + x + "]" + t) == StripBrackets(t)
  {
    var s := "[" + x + "]" + t;
    assert s[1..] == x + "]" + t;
    FindCloseAfter(x, t);
    assert s[|x| + 2..] == t;
  }

  /** A `[` with no `]` before the next newline stays (step 4 deletes it later). */
  lemma StripBracketsKeepsUnclosed(t: string)
    requires FindClose(t).None?
    ensures StripBrackets("[" + t) == "[" + StripBrackets(t)
  {
    assert ("[" + t)[1..] == t;
  }

  /** A character other than `[` is copied. */
  lemma StripBracketsKeepsChar(c: char, t: string)
    requires c != '['
    ensures StripBrackets([c] + t) == [c] + StripBrackets(t)
  {
    assert ([c] + t)[1..] == t;
  }

  lemma StripDisallowedCons(c: char, t: string)
    ensures StripDisallowed([c] + t) == (if IsKept(c) then [c] else []) + StripDisallowed(t)
  {
    assert ([c] + t)[1..] == t;
  }

  // ---------------------------------------------------------------------
  // Order of the steps, on concrete inputs

  /** Bracket stripping runs after URL stripping, so it can join the pieces
      of a URL that step 2 did not see; the cleaned text then still holds one. */
  lemma BracketRemovalCanFormUrl(s: string)
    requires s == "ht[x]tp:x"
    ensures CleanText(s) == "httpx"
    ensures !NoUrl(CleanText(s))
  {
    var tail := "tp:x";
    assert s == "ht[x]" + tail;
    assert Lower(s) == s;
    assert StripUrls(s) == s by { SampleNoUrl(s); }
    assert StripBrackets(s) == "ht" + tail by { SampleBrackets(tail); }
    var r := "ht" + tail;
    assert StripDisallowed(r) == "httpx" by {
      StripDisallowedCons('x', "");
      StripDisallowedCons(':', "x");
      StripDisallowedCons('p', ":x");
      StripDisallowedCons('t', "p:x");
      StripDisallowedCons('t', "tp:x");
      StripDisallowedCons('h', "ttp:x");
    }
    var c := CleanText(s);
    assert c[0..] == c && UrlAt(c);
  }

  lemma SampleNoUrl(s: string)
    requires s == "ht[x]tp:x"
    ensures StripUrls(s) == s
  {
    forall i | 0 <= i < |s| ensures !UrlAt(s[i..]) {
      assert s[i..][0] == s[i];
      if |s[i..]| > 4 { assert s[i..][3] == s[i + 3]; assert s[i..][1] == s[i + 1]; }
    }
    StripUrlsFixesNoUrl(s);
  }

  lemma SampleTailNoSpan(tail: string)
    requires tail == "tp:x"
    ensures StripBrackets(tail) == tail
  {
    forall i | 0 <= i < |tail| ensures BracketSpan(tail[i..]).None? {
      assert tail[i..][0] == tail[i];
    }
    StripBracketsFixesNoSpan(tail);
  }

  lemma SampleBrackets(tail: string)
    requires tail == "tp:x"
    ensures StripBrackets("ht[x]" + tail) == "ht" + tail
  {
    var span := "[" + "x" + "]" + tail;
    assert StripBrackets(tail) == tail by { SampleTailNoSpan(tail); }
    assert StripBrackets(span) == StripBrackets(tail) by { StripBracketsRemovesSpan("x", tail); }
    assert StripBrackets(['t'] + span) == ['t'] + StripBrackets(span) by { StripBracketsKeepsChar('t', span); }
    assert StripBrackets(['h'] + (['t'] + span)) == ['h'] + StripBrackets(['t'] + span) by {
      StripBracketsKeepsChar('h', ['t'] + span);
    }
    assert ['h'] + (['t'] + span) == "ht[x]" + tail;
  }

  /** A newline between `[` and `]` blocks the match; the brackets then go in step 4. */
  lemma NewlineBlocksBracket()
    ensures CleanText("[a\nb]") == "a\nb"
  {
    var s := "[a\nb]";
    assert Lower(s) == s;
    forall i | 0 <= i < |s| ensures !UrlAt(s[i..]) {
      assert s[i..][0] == s[i];
    }
    StripUrlsFixesNoUrl(s);
    assert s == "[" + "a\nb]";
    assert "a\nb]"[1..] == "\nb]";
    assert FindClose("a\nb]").None?;
    StripBracketsKeepsUnclosed("a\nb]");
    StripBracketsKeepsChar(']', "");
    StripBracketsKeepsChar('b', "]");
    StripBracketsKeepsChar('\n', "b]");
    StripBracketsKeepsChar('a', "\nb]");
    assert StripBrackets(s) == s;
    StripDisallowedCons(']', "");
    StripDisallowedCons('b', "]");
    StripDisallowedCons('\n', "b]");
    StripDisallowedCons('a', "\nb]");
    StripDisallowedCons('[', "a\nb]");
  }
}
