/** Tweet-text helpers: truncation to a length limit, splitting a long text
    into tweet-sized chunks, appending hashtags, and the length check. */
module Helpers {
  import opened Wrappers
  import opened Strings

  /** The platform's character limit, the default `max_length`. */
  const TweetLimit: int := 280

  /** The marker put at the end of truncated text. */
  const Ellipsis: string := "..."

  /** `s[:stop]`, where a negative `stop` counts from the end. */
  function PrefixTo(s: string, stop: int): (r: string)
    ensures |r| <= |s| && r == s[..|r|]
    ensures stop >= 0 ==> |r| == if stop <= |s| then stop else |s|
    ensures stop < 0 ==> |r| == if |s| + stop >= 0 then |s| + stop else 0
  {
    if stop >= 0 then (if stop <= |s| then s[..stop] else s)
    else if |s| + stop >= 0 then s[..|s| + stop]
    else []
  }

  /** `truncate_text`: text within the limit is returned as it is; longer
      text keeps its first `maxLength - 3` characters and ends in "...",
      which is exactly `maxLength` long once the limit is at least 3. A limit
      below 3 is never met: the slice bound goes negative and the result
      stays longer than the limit. */
  function TruncateText(text: string, maxLength: int): (r: string)
    ensures |text| <= maxLength ==> r == text
    ensures |text| > maxLength >= 3 ==>
              |r| == maxLength && StartsWith(r, text[..maxLength - 3]) && EndsWith(r, Ellipsis)
    ensures maxLength >= 3 ==> |r| <= maxLength
    ensures |text| > maxLength && maxLength < 3 ==> |r| > maxLength
  {
    if |text| <= maxLength then text
    else PrefixTo(text, maxLength - 3) + Ellipsis
  }

  /** Truncating what already fits changes nothing, so truncation is idempotent. */
  lemma TruncateIdempotent(text: string, maxLength: int)
    requires maxLength >= 3
    ensures TruncateText(TruncateText(text, maxLength), maxLength) == TruncateText(text, maxLength)
  {
  }

  /** `"#" + tag.strip("#")`: exactly one leading '#' and none at the end. */
  function HashtagWord(tag: string): (w: string)
    ensures |w| >= 1 && w[0] == '#'
    ensures |w| > 1 ==> w[1] != '#' && w[|w| - 1] != '#'
    ensures w[1..] == StripChars(tag, {'#'})
  {
    "#" + StripChars(tag, {'#'})
  }

  /** `" ".join(f"#{tag.strip('#')}" for tag in hashtags)`. */
  function HashtagLine(tags: seq<string>): (line: string)
    ensures tags == [] ==> line == ""
    ensures tags != [] ==> StartsWith(line, HashtagWord(tags[0])) && line[0] == '#'
  {
    Join(seq(|tags|, i requires 0 <= i < |tags| => HashtagWord(tags[i])), " ")
  }

  /** The text with a blank line and the hashtag line after it, before truncation. */
  function WithHashtags(text: string, tags: seq<string>): (full: string)
    ensures |full| == |text| + 2 + |HashtagLine(tags)|
    ensures StartsWith(full, text) && full[|text|..|text| + 2] == "\n\n"
    ensures tags != [] ==> full[|text| + 2] == '#'
  {
    text + "\n\n" + HashtagLine(tags)
  }

  /** `format_tweet_text`: without hashtags (`None` or an empty list) the
      text is returned as it is, even when it is over the limit; with
      hashtags the result is the text, a blank line and the hashtags, cut to
      the tweet limit, so it always fits. */
  function FormatTweetText(text: string, hashtags: Option<seq<string>>): (r: string)
    ensures hashtags.None? || hashtags.value == [] ==> r == text
    ensures hashtags.Some? && hashtags.value != [] ==>
              var full := WithHashtags(text, hashtags.value);
              && |r| <= TweetLimit
              && (|full| <= TweetLimit ==> r == full)
              && (|full| > TweetLimit ==> r == full[..TweetLimit - 3] + Ellipsis)
  {
    if hashtags.None? || hashtags.value == [] then text
    else TruncateText(WithHashtags(text, hashtags.value), TweetLimit)
  }

  /** `validate_tweet_text`: the only rule checked is the length limit. */
  function ValidateTweetText(text: string): (ok: bool)
    ensures ok <==> |text| <= TweetLimit
  {
    if |text| > TweetLimit then false else true
  }

  /** What `format_tweet_text` builds with hashtags always passes
      `validate_tweet_text`; without hashtags it passes exactly when the text did. */
  lemma FormattedTextIsValid(text: string, hashtags: Option<seq<string>>)
    ensures hashtags.Some? && hashtags.value != [] ==> ValidateTweetText(FormatTweetText(text, hashtags))
    ensures hashtags.None? || hashtags.value == [] ==>
              ValidateTweetText(FormatTweetText(text, hashtags)) == ValidateTweetText(text)
  {
  }

  // ---------------------------------------------------------------------
  // split_into_tweets

  /** The words of the groups, in order. */
  function Flatten(groups: seq<seq<string>>): seq<string>
    decreases |groups|
  {
    if groups == [] then [] else groups[0] + Flatten(groups[1..])
  }

  lemma {:induction false} FlattenSnoc(groups: seq<seq<string>>, g: seq<string>)
    ensures Flatten(groups + [g]) == Flatten(groups) + g
    decreases |groups|
  {
    if groups == [] {
      assert [g][1..] == [];
    } else {
      assert (groups + [g])[1..] == groups[1..] + [g];
      FlattenSnoc(groups[1..], g);
    }
  }

  /** Chunk `i` is the words of group `i` joined by single spaces, and the
      groups, one after the other, are exactly the words. */
  ghost predicate Layout(words: seq<string>, tweets: seq<string>, groups: seq<seq<string>>) {
    && |groups| == |tweets|
    && (forall i :: 0 <= i < |tweets| ==> tweets[i] == Join(groups[i], " "))
    && Flatten(groups) == words
  }

  /** The separator the packer counts before a word: one space unless the
      chunk is still empty. */
  function SeparatorBefore(group: seq<string>): nat {
    if group == [] then 0 else 1
  }

  /** Greedy packing: a chunk of two or more words is within the limit, and
      the first word of each next chunk would have pushed the chunk before
      it over the limit. */
  ghost predicate Greedy(maxLength: int, tweets: seq<string>, groups: seq<seq<string>>)
    requires |groups| == |tweets|
  {
    && (forall i :: 0 <= i < |groups| && |groups[i]| > 1 ==> |tweets[i]| <= maxLength)
    && (forall i :: 0 < i < |groups| && groups[i] != [] ==>
          |tweets[i - 1]| + SeparatorBefore(groups[i - 1]) + |groups[i][0]| > maxLength)
  }

  /** The shape every packing has: laid out and greedy, with every chunk but
      the first holding at least one word, and no chunk at all for no words. */
  ghost predicate Chunking(words: seq<string>, maxLength: int, tweets: seq<string>, groups: seq<seq<string>>) {
    && Layout(words, tweets, groups)
    && Greedy(maxLength, tweets, groups)
    && (forall i :: 0 < i < |groups| ==> groups[i] != [])
    && (words == [] <==> groups == [])
  }

  /** The packing `split_into_tweets` performs: its first chunk is empty
      exactly when the first word alone is over the limit. */
  ghost predicate PackedAsWritten(words: seq<string>, maxLength: int, tweets: seq<string>, groups: seq<seq<string>>) {
    && Chunking(words, maxLength, tweets, groups)
    && (words != [] ==> (groups[0] == [] <==> |words[0]| > maxLength))
  }

  /** The packing the function is meant to perform: no chunk is empty. */
  ghost predicate PackedWithoutEmptyChunks(words: seq<string>, maxLength: int, tweets: seq<string>, groups: seq<seq<string>>) {
    && Chunking(words, maxLength, tweets, groups)
    && (groups != [] ==> groups[0] != [])
  }

  /** `split_into_tweets` as written: the words of `text.split()` are packed
      greedily; a word that does not fit closes the current chunk, and that
      happens even when the current chunk is still empty. */
  method SplitIntoTweets(text: string, maxLength: int) returns (tweets: seq<string>)
    ensures exists groups :: PackedAsWritten(Words(text), maxLength, tweets, groups)
  {
    var words := Words(text);
    tweets := [];
    var current: seq<string> := [];
    var currentLength := 0;
    ghost var groups: seq<seq<string>> := [];
    for k := 0 to |words|
      invariant |groups| == |tweets|
      invariant current == [] <==> k == 0
      invariant k == 0 ==> groups == []
      invariant currentLength == |Join(current, " ")|
      invariant k > 0 ==> PackedAsWritten(words[..k], maxLength, tweets + [Join(current, " ")], groups + [current])
    {
      var word := words[k];
      var wordLength := |word| + SeparatorBefore(current);
      if currentLength + wordLength <= maxLength {
        AppendWord(words[..k], maxLength, tweets, groups, current, word);
        current := current + [word];
        currentLength := currentLength + wordLength;
      } else {
        CloseChunk(words[..k], maxLength, tweets, groups, current, word);
        tweets := tweets + [Join(current, " ")];
        groups := groups + [current];
        current := [word];
        currentLength := |word|;
      }
      assert words[..k + 1] == words[..k] + [word];
    }
    assert words[..|words|] == words;
    if current != [] {
      tweets := tweets + [Join(current, " ")];
      groups := groups + [current];
    }
    assert PackedAsWritten(words, maxLength, tweets, groups);
  }

  /** `split_into_tweets` as evidently intended: a word that does not fit
      closes the current chunk only when that chunk holds a word, so an
      over-long first word opens the first chunk instead of leaving an empty
      one before it. */
  method SplitIntoTweetsFixed(text: string, maxLength: int) returns (tweets: seq<string>)
    ensures exists groups :: PackedWithoutEmptyChunks(Words(text), maxLength, tweets, groups)
  {
    var words := Words(text);
    tweets := [];
    var current: seq<string> := [];
    var currentLength := 0;
    ghost var groups: seq<seq<string>> := [];
    for k := 0 to |words|
      invariant |groups| == |tweets|
      invariant current == [] <==> k == 0
      invariant k == 0 ==> groups == []
      invariant currentLength == |Join(current, " ")|
      invariant k > 0 ==> PackedWithoutEmptyChunks(words[..k], maxLength, tweets + [Join(current, " ")], groups + [current])
    {
      var word := words[k];
      var wordLength := |word| + SeparatorBefore(current);
      if current == [] || currentLength + wordLength <= maxLength {
        AppendWord(words[..k], maxLength, tweets, groups, current, word);
        current := current + [word];
        currentLength := currentLength + wordLength;
      } else {
        CloseChunk(words[..k], maxLength, tweets, groups, current, word);
        tweets := tweets + [Join(current, " ")];
        groups := groups + [current];
        current := [word];
        currentLength := |word|;
      }
      assert words[..k + 1] == words[..k] + [word];
    }
    assert words[..|words|] == words;
    if current != [] {
      tweets := tweets + [Join(current, " ")];
      groups := groups + [current];
    }
    assert PackedWithoutEmptyChunks(words, maxLength, tweets, groups);
  }

  /** Adding a word to the open chunk (one that fits, or the first word of an
      empty chunk) keeps the packing shape; the first chunk is what it was,
      or the new word alone when there was none. */
  lemma AppendWord(done: seq<string>, maxLength: int, tweets: seq<string>, groups: seq<seq<string>>,
                   current: seq<string>, word: string)
    requires |groups| == |tweets| && word != []
    requires current == [] <==> done == []
    requires done == [] ==> groups == []
    requires done != [] ==> Chunking(done, maxLength, tweets + [Join(current, " ")], groups + [current])
    requires current != [] ==> |Join(current, " ")| + |word| + SeparatorBefore(current) <= maxLength
    ensures |Join(current + [word], " ")| == |Join(current, " ")| + SeparatorBefore(current) + |word|
    ensures Chunking(done + [word], maxLength, tweets + [Join(current + [word], " ")], groups + [current + [word]])
    ensures ((groups + [current + [word]])[0] == []) == (groups != [] && groups[0] == [])
    ensures (done + [word])[0] == if done == [] then word else done[0]
  {
    if current != [] {
      JoinSnoc(current, " ", word);
    } else {
      assert current + [word] == [word];
    }
    AppendWordLayout(done, tweets, groups, current, word);
    AppendWordGreedy(maxLength, tweets, groups, current, word);
  }

  /** The layout half of `AppendWord`. */
  lemma AppendWordLayout(done: seq<string>, tweets: seq<string>, groups: seq<seq<string>>,
                         current: seq<string>, word: string)
    requires |groups| == |tweets|
    requires current == [] <==> done == []
    requires done == [] ==> groups == []
    requires done != [] ==> Layout(done, tweets + [Join(current, " ")], groups + [current])
    ensures Layout(done + [word], tweets + [Join(current + [word], " ")], groups + [current + [word]])
  {
    var ts := tweets + [Join(current + [word], " ")];
    var gs := groups + [current + [word]];
    if current != [] {
      FlattenSnoc(groups, current);
      FlattenSnoc(groups, current + [word]);
    } else {
      assert current + [word] == [word];
      assert gs == [[word]];
    }
    var ts0 := tweets + [Join(current, " ")];
    var gs0 := groups + [current];
    forall i | 0 <= i < |ts| ensures ts[i] == Join(gs[i], " ") {
      if i < |tweets| {
        assert ts[i] == ts0[i] && gs[i] == gs0[i];
      }
    }
  }

  /** The greedy half of `AppendWord`. */
  lemma AppendWordGreedy(maxLength: int, tweets: seq<string>, groups: seq<seq<string>>,
                         current: seq<string>, word: string)
    requires |groups| == |tweets|
    requires current == [] ==> groups == []
    requires current != [] ==>
      && Greedy(maxLength, tweets + [Join(current, " ")], groups + [current])
      && (forall i :: 0 < i < |groups| + 1 ==> (groups + [current])[i] != [])
      && |Join(current, " ")| + |word| + SeparatorBefore(current) <= maxLength
    requires |Join(current + [word], " ")| == |Join(current, " ")| + SeparatorBefore(current) + |word|
    ensures Greedy(maxLength, tweets + [Join(current + [word], " ")], groups + [current + [word]])
    ensures forall i :: 0 < i < |groups| + 1 ==> (groups + [current + [word]])[i] != []
  {
    var ts := tweets + [Join(current + [word], " ")];
    var gs := groups + [current + [word]];
    var ts0 := tweets + [Join(current, " ")];
    var gs0 := groups + [current];
    forall i | 0 < i < |gs| && gs[i] != []
      ensures |ts[i - 1]| + SeparatorBefore(gs[i - 1]) + |gs[i][0]| > maxLength
    {
      assert ts[i - 1] == ts0[i - 1] && gs[i - 1] == gs0[i - 1];
      assert gs[i][0] == gs0[i][0];
    }
    forall i | 0 <= i < |gs| && |gs[i]| > 1 ensures |ts[i]| <= maxLength {
      if i < |groups| {
        assert ts[i] == ts0[i] && gs[i] == gs0[i];
      }
    }
    forall i | 0 < i < |gs| ensures gs[i] != [] {
      if i < |groups| {
        assert gs[i] == gs0[i];
      }
    }
  }

  /** Closing the open chunk (empty or not) and opening one with the word
      that did not fit keeps the packing shape; the first chunk is what it
      was, or the empty chunk when there was none. */
  lemma CloseChunk(done: seq<string>, maxLength: int, tweets: seq<string>, groups: seq<seq<string>>,
                   current: seq<string>, word: string)
    requires |groups| == |tweets| && word != []
    requires current == [] <==> done == []
    requires done == [] ==> groups == []
    requires done != [] ==> Chunking(done, maxLength, tweets + [Join(current, " ")], groups + [current])
    requires |Join(current, " ")| + |word| + SeparatorBefore(current) > maxLength
    ensures Chunking(done + [word], maxLength,
                     tweets + [Join(current, " ")] + [Join([word], " ")], groups + [current] + [[word]])
    ensures (groups + [current] + [[word]])[0] == (groups + [current])[0]
    ensures (done + [word])[0] == if done == [] then word else done[0]
  {
    var ts := tweets + [Join(current, " ")] + [Join([word], " ")];
    var gs := groups + [current] + [[word]];
    FlattenSnoc(groups + [current], [word]);
    if done == [] {
      assert gs == [[], [word]];
      assert Flatten(gs) == [word];
    }
    var ts0 := tweets + [Join(current, " ")];
    var gs0 := groups + [current];
    forall i | 0 <= i < |ts| ensures ts[i] == Join(gs[i], " ") {
      if i < |ts0| {
        assert ts[i] == ts0[i] && gs[i] == gs0[i];
      }
    }
    assert Layout(done + [word], ts, gs);
    forall i | 0 < i < |gs| && gs[i] != []
      ensures |ts[i - 1]| + SeparatorBefore(gs[i - 1]) + |gs[i][0]| > maxLength
    {
      if i < |gs0| {
        assert ts[i - 1] == ts0[i - 1] && gs[i - 1] == gs0[i - 1];
        assert gs[i][0] == gs0[i][0];
      }
    }
    assert Greedy(maxLength, ts, gs);
    forall i | 0 < i < |gs| ensures gs[i] != [] {
      if i < |gs0| {
        assert gs[i] == gs0[i];
      }
    }
  }

  /** A join is at least as long as any one of its pieces. */
  lemma {:induction false} JoinCoversPiece(parts: seq<string>, sep: string, j: nat)
    requires j < |parts|
    ensures |Join(parts, sep)| >= |parts[j]|
    ensures |parts| > 1 ==> |Join(parts, sep)| > |parts[j]| || |sep| == 0
    decreases |parts|
  {
    if |parts| > 1 && j > 0 {
      JoinCoversPiece(parts[1..], sep, j - 1);
    }
  }

  /** Joining the chunks is joining all their words, when no chunk is empty. */
  lemma {:induction false} JoinOfChunks(tweets: seq<string>, groups: seq<seq<string>>)
    requires |groups| == |tweets|
    requires forall i :: 0 <= i < |groups| ==> groups[i] != [] && tweets[i] == Join(groups[i], " ")
    ensures Join(tweets, " ") == Join(Flatten(groups), " ")
    decreases |groups|
  {
    if |groups| == 1 {
      assert Flatten(groups) == groups[0] + Flatten([]);
      assert groups[0] + [] == groups[0];
    } else if |groups| > 1 {
      JoinOfChunks(tweets[1..], groups[1..]);
      assert Flatten(groups[1..]) == groups[1] + Flatten(groups[2..]);
      JoinAppend(groups[0], Flatten(groups[1..]), " ");
    }
  }

  /** Empty or all-whitespace text gives no chunks at all. */
  lemma BlankTextGivesNoChunks(text: string, maxLength: int, tweets: seq<string>, groups: seq<seq<string>>)
    requires Chunking(Words(text), maxLength, tweets, groups)
    requires forall k :: 0 <= k < |text| ==> text[k] in Whitespace
    ensures tweets == []
  {
    NoWordsIffBlank(text);
  }

  /** A word over the limit is a chunk on its own, whichever packer made it. */
  lemma OverlongWordStandsAlone(words: seq<string>, maxLength: int, tweets: seq<string>,
                                groups: seq<seq<string>>, i: nat, j: nat)
    requires Chunking(words, maxLength, tweets, groups)
    requires i < |groups| && j < |groups[i]| && |groups[i][j]| > maxLength
    ensures groups[i] == [groups[i][j]] && tweets[i] == groups[i][j]
  {
    JoinCoversPiece(groups[i], " ", j);
  }

  /** When every word is within the limit, the packing of `split_into_tweets`
      loses nothing and splits nothing: each chunk is non-empty and within
      the limit, and the chunks joined by spaces are the words joined by
      spaces. */
  lemma FittingWordsPackLosslessly(words: seq<string>, maxLength: int, tweets: seq<string>, groups: seq<seq<string>>)
    requires PackedAsWritten(words, maxLength, tweets, groups)
    requires forall k :: 0 <= k < |words| ==> words[k] != [] && |words[k]| <= maxLength
    ensures forall i :: 0 <= i < |tweets| ==> 0 < |tweets[i]| <= maxLength
    ensures Join(tweets, " ") == Join(words, " ")
  {
    forall i | 0 <= i < |tweets| ensures 0 < |tweets[i]| <= maxLength {
      assert groups[i] != [];
      JoinCoversPiece(groups[i], " ", 0);
      assert groups[i][0] in Flatten(groups) by { FlattenHas(groups, i, 0); }
      if |groups[i]| == 1 {
        assert tweets[i] == groups[i][0];
      }
    }
    JoinOfChunks(tweets, groups);
  }

  /** The packing without empty chunks loses nothing and splits nothing,
      whatever the word lengths: every chunk is non-empty, and the chunks
      joined by spaces are the words joined by spaces. */
  lemma PackingWithoutEmptyChunksIsLossless(words: seq<string>, maxLength: int, tweets: seq<string>, groups: seq<seq<string>>)
    requires PackedWithoutEmptyChunks(words, maxLength, tweets, groups)
    requires forall k :: 0 <= k < |words| ==> words[k] != []
    ensures forall i :: 0 <= i < |tweets| ==> tweets[i] != []
    ensures Join(tweets, " ") == Join(words, " ")
  {
    forall i | 0 <= i < |tweets| ensures tweets[i] != [] {
      JoinCoversPiece(groups[i], " ", 0);
      FlattenHas(groups, i, 0);
    }
    JoinOfChunks(tweets, groups);
  }

  /** Every word of every group is one of the flattened words. */
  lemma {:induction false} FlattenHas(groups: seq<seq<string>>, i: nat, j: nat)
    requires i < |groups| && j < |groups[i]|
    ensures groups[i][j] in Flatten(groups)
    decreases |groups|
  {
    if i > 0 {
      FlattenHas(groups[1..], i - 1, j);
    }
  }

  /** The defect: when the first word alone is over the limit,
      `split_into_tweets` puts an empty chunk first. */
  lemma OverlongFirstWordGivesEmptyChunk(words: seq<string>, maxLength: int, tweets: seq<string>, groups: seq<seq<string>>)
    requires PackedAsWritten(words, maxLength, tweets, groups)
    requires words != [] && |words[0]| > maxLength
    ensures |tweets| >= 2 && tweets[0] == ""
  {
    assert groups[0] == [];
    assert Flatten(groups) == groups[0] + Flatten(groups[1..]);
    assert Flatten(groups[1..]) != [];
  }

  /** The concrete case: "abcd" with a limit of 3. */
  method EmptyFirstChunkWitness() returns (tweets: seq<string>)
    ensures |tweets| >= 2 && tweets[0] == ""
  {
    var text := "abcd";
    forall k | 0 <= k < |text| ensures text[k] !in Whitespace {
      assert text[k] in {'a', 'b', 'c', 'd'};
    }
    SingleWord(text);
    var words := Words(text);
    assert words == [text];
    tweets := SplitIntoTweets(text, 3);
    ghost var groups: seq<seq<string>> :| PackedAsWritten(words, 3, tweets, groups);
    OverlongFirstWordGivesEmptyChunk(words, 3, tweets, groups);
  }
}
