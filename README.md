# Twitter thread generator — a Dafny model

This project models the core of a small Python tool. The tool asks a
Gemini model to research a topic, has the model turn that research into a
list of tweets, keeps every thread in a JSON history file, and publishes a
thread on Twitter as a chain of replies. Four parts of it are modelled, one
Dafny module each:

- `ResearchClient` (`research_client.dfy`): how a model reply becomes a
  parsed value, an error record or a `ResearchError`. This covers
  `research_with_search`, `research_without_search` and `generate_thread`,
  and the clean-up step that trims the reply, strips a three-backtick fence
  and drops a `json`/`JSON` tag line.
- `TwitterClient` (`twitter_client.dfy`): the two publishing loops,
  `post_thread` and `post_thread_with_media`. They run against a platform
  oracle, and each returns the trace of calls it made.
- `Threads` (`thread_generator.dfy`):
  - the `Thread` record and its `to_dict`/`from_dict` form;
  - the append-only history that `save_thread` writes and `load_threads`
    reads back;
  - `post_thread`'s step from Draft to Posted;
  - the data flow of `research_and_generate`.
- `Helpers` (`helpers.dfy`): `truncate_text`, `split_into_tweets`,
  `format_tweet_text` and `validate_tweet_text`.

Three support modules serve the four above:

- `Wrappers`: `Option`, `Result` and `Outcome`.
- `JsonValues`: a JSON value.
- `Strings`: Python's `strip`, `split` and `join` over `seq<char>`.

The model takes the source's own form in each part.

- The response clean-up and the classification in `ResearchClient` are
  functions.
- The two posting loops are methods with `for` loops and invariants. Their
  contracts describe the call trace call by call.
- `Thread` is a class, because `post_thread` updates its `tweet_ids` field
  in place. `ThreadGenerator` is a class that holds the file system its
  history files live in.
- `split_into_tweets` is a method with a loop. It keeps a ghost record of
  which words went into which chunk.

Outside effects are parameters:

- A Gemini reply is a `Reply`: the text, or the message of the exception
  raised.
- `json.loads` is a partial `Parser`, and `json.dump` is part of a
  `JsonCodec`.
- `isoformat`/`fromisoformat` make up an `IsoCodec`, and `datetime.now()`
  is a `Timestamp` argument.
- The Twitter platform is a `Platform`: two functions that answer each call
  from the trace of calls made so far.
- A failed write is a `WriteFault`.

`save_thread` always appends (src/thread_generator.py:123), and the CLI
saves a thread once as a draft and again after posting it
(src/ui/cli.py:58 and 158). So the history keeps the draft record next to
the posted one rather than updating it; `Threads.ResaveDuplicates` states
this.

## Model

| member | source | states |
|---|---|---|
| ResearchClient.CleanResponse | src/research_client.py:63-74 | If the trimmed reply does not both start and end with the fence, the cleaned text is the trimmed text: no tag check happens. A trimmed text of at most two lines, in particular one without a line break, is left as it is. |
| ResearchClient.CleanFencedBlock | src/research_client.py:63-74 | For a fenced block (an opening line starting with the fence, a body, a closing line ending with it), the cleaned text is the body with both fence lines gone. If the body starts with `json` or `JSON`, its first line goes too. |
| ResearchClient.DropFirstLineOf | src/research_client.py:73-74 | Dropping the first line of `first + "\n" + rest` leaves exactly `rest`. A text with no line break leaves nothing. |
| ResearchClient.CleanFencedContent | src/research_client.py:63-74 | A fenced reply cleans to exactly its content, whatever whitespace surrounds the block (a trailing newline, say). This holds with the tag on the opening line, on a line of its own, or absent. Without a tag, the content must not itself start with `json` or `JSON`: the clean-up would then drop its first line too. |
| ResearchClient.CleanBareFence | src/research_client.py:66-74 | A fenced reply with nothing around it cleans to exactly its content, tag line or not. Without a tag line, this needs content that does not itself start with `json` or `JSON`. |
| ResearchClient.CleanUntaggedFence | src/research_client.py:66-71 | Without a tag line, the content is what lies between the fence lines, provided the content does not itself start with `json` or `JSON` (such a first line would be dropped as a tag). |
| ResearchClient.CleanTaggedFence | src/research_client.py:66-74 | With a `json`/`JSON` tag line after the opening fence, the content is what follows that tag line. |
| ResearchClient.CleanDependsOnTrimmed | src/research_client.py:63 | Whitespace around a reply changes neither the cleaned text nor the text handed to the parser: both depend only on the trimmed reply. |
| ResearchClient.PaddedReplyCleansAlike | src/research_client.py:63-77 | A reply whose own ends are not whitespace cleans, and reaches the parser, the same with any whitespace added before and after it. |
| ResearchClient.FencedCandidate | src/research_client.py:63-77 | A fenced reply, with whitespace around it or not, hands the parser the same text as its bare content. This needs content whose trimmed form does not itself start with a fence, and, without a tag, content that does not start with `json` or `JSON`. |
| ResearchClient.SameCandidateSameResearch | src/research_client.py:76-82 | Two non-empty replies that hand the parser the same text both parse or both fail, and give the same value when they parse. |
| ResearchClient.FencedMatchesUnwrapped | src/research_client.py:63-77 | A fenced reply, with any whitespace before and after the block, hands `json.loads` the same text as its bare content. So the research call parses it to the same value and succeeds in the same cases. The conditions are those of `FencedCandidate`: trimmed content that does not start with a fence, and, without a tag, content that does not start with `json` or `JSON`. |
| ResearchClient.CleanTrimmed | src/research_client.py:66-74 | After trimming, only a text that starts and ends with the fence and has more than two lines is changed. |
| ResearchClient.JsonCandidate | src/research_client.py:77 | The text handed to `json.loads` (the same for src/research_client.py:181) has no whitespace at either end. It is the trimmed reply itself when the trimmed reply is not fenced. |
| ResearchClient.DropFirstLine | src/research_client.py:74 | A text without a line break gives nothing. Otherwise the result is what follows the first line break, and what went before it is one whole line. |
| ResearchClient.HasJsonTag | src/research_client.py:73 | A text counts as tagged exactly when its first four characters are `json` or `JSON`. The test is case-sensitive, so `Json...` is not tagged. |
| ResearchClient.OutcomeJson | src/research_client.py:56-88 | An error outcome is a dictionary with exactly the keys `error` and `details`, and `details` holds the carried text. A parsed outcome is the parsed value itself. |
| ResearchClient.ResearchWithSearch | src/research_client.py:50-88 | The "No response generated" record comes exactly for an empty reply. The "Research failed" record comes exactly for a raised exception and carries its message. A value comes back exactly when the cleaned text parses, and it is the parser's value unchanged. The "Invalid JSON response" record carries the cleaned text, not the raw one. Nothing is raised. |
| ResearchClient.ResearchWithoutSearch | src/research_client.py:112-136 | The same three error cases as the research call, with no clean-up: the parser sees the raw reply, and the invalid-JSON record carries the raw text. |
| ResearchClient.GenerateThread | src/research_client.py:157-189 | A list comes back only for a non-empty reply whose cleaned text parses to that non-empty JSON list. Every such reply does give a list. Every failure is a `ResearchError` whose message starts with "Failed to generate thread: ". |
| ResearchClient.GenerateThreadSharesCleanup | src/research_client.py:163-189 | `generate_thread` succeeds exactly when the research call, given the same reply, parses it to a non-empty list, and then with the same items. Where the research call gives an error record, `generate_thread` raises: "No response generated" for an empty reply, "Failed to parse tweets: " with the record's cleaned text for unparsable text, and the exception message for a raised exception, each after the "Failed to generate thread: " prefix. |
| ResearchClient.EmptyReplySkipsParser | src/research_client.py:56-60 | For an empty reply, all three calls give the same result whatever the parser is: the parser is never consulted. |
| Strings.JoinSplit | src/research_client.py:68-71 | Joining the pieces of a split on a character, with that character, gives back the text. |
| Strings.Split | src/research_client.py:68 | `s.split(sep)` gives at least one piece, and no piece contains the separator. |
| Strings.Join | src/research_client.py:71 | `sep.join(parts)` is empty for no parts and otherwise starts with the first part. |
| Strings.StripChars | src/utils/helpers.py:103 | `s.strip(chars)` neither starts nor ends with one of `chars`. |
| Strings.Strip | src/research_client.py:63 | `s.strip()` is no longer than `s` and has no whitespace at either end. A text with no whitespace at its ends comes back unchanged. |
| Strings.StripPadded | src/research_client.py:63 | Stripping a text padded with stripped characters gives back the text when its own ends are not stripped characters. |
| Strings.TrimStartPadded | src/research_client.py:63 | `lstrip` removes exactly a leading run of stripped characters. |
| Strings.TrimEndPadded | src/research_client.py:63 | `rstrip` removes exactly a trailing run of stripped characters. |
| Strings.StripCharsIdempotent | src/research_client.py:63-77 | Stripping twice is stripping once, so the second strip before parsing changes nothing on unfenced text. |
| Strings.Words | src/utils/helpers.py:67 | `text.split()` gives non-empty words, none of which contains a whitespace character. |
| Strings.NoWordsIffBlank | src/utils/helpers.py:67 | A text has no words exactly when every character is whitespace. |
| Helpers.PrefixTo | src/utils/helpers.py:55 | The slice `s[:stop]` is a prefix of `s`. Its length is `stop` capped at `len(s)`, and a negative `stop` counts from the end. |
| Helpers.TruncateText | src/utils/helpers.py:53-55 | Text within the limit comes back unchanged. For longer text and a limit of at least 3, the result has exactly the limit as length, starts with the first `limit - 3` characters and ends with "...". For a limit below 3, the result stays over the limit. |
| Helpers.TruncateIdempotent | src/utils/helpers.py:53-55 | For a limit of at least 3, truncating a truncated text changes nothing. Below 3 the source is not idempotent: the first cut stays over the limit and the second adds another "...". |
| Helpers.HashtagWord | src/utils/helpers.py:103 | Each hashtag is "#" followed by the tag stripped of `#` at both ends. So there is exactly one leading `#` and none at the end. |
| Helpers.HashtagLine | src/utils/helpers.py:103 | No tags give an empty line. Otherwise the line starts with the first tag's hashtag, so its first character is `#`. |
| Helpers.WithHashtags | src/utils/helpers.py:106 | The combined text is the text, a blank line (`"\n\n"`), then the hashtag line, which starts with `#` when there are tags. Its length is the sum of the three. |
| Helpers.FormatTweetText | src/utils/helpers.py:99-107 | With no hashtags (`None` or an empty list), the text comes back unchanged, even when it is too long. With hashtags, the result is the text, a blank line and the hashtags, cut to 280 characters with "..." when longer, so it is at most 280 characters. |
| Helpers.ValidateTweetText | src/utils/helpers.py:119-123 | The text is valid exactly when it has at most 280 characters. |
| Helpers.FormattedTextIsValid | src/utils/helpers.py:99-123 | A text formatted with hashtags always passes validation. Without hashtags, it passes exactly when the input did. |
| Helpers.SplitIntoTweets | src/utils/helpers.py:67-87 | The chunks are the words of `text.split()` grouped in order: each chunk is its group joined by spaces. Every chunk after the first has at least one word. A chunk of two or more words is within the limit. The next chunk's first word, with its space, would have pushed the previous chunk over the limit. No words gives no chunks. The first chunk is empty exactly when the first word is over the limit. |
| Helpers.SplitIntoTweetsFixed | src/utils/helpers.py:72-82 | The same greedy packing with the edge case corrected: an over-long first word opens the first chunk, so no chunk is empty. |
| Helpers.AppendWord | src/utils/helpers.py:76-78 | Adding a fitting word to the open chunk keeps the packing shape. The chunk grows by the word and its space. |
| Helpers.AppendWordLayout | src/utils/helpers.py:76-78 | Adding a word to the open chunk keeps the chunks equal to their groups joined, and the groups equal to the words read so far. |
| Helpers.AppendWordGreedy | src/utils/helpers.py:76-78 | Adding a fitting word keeps every multi-word chunk within the limit and keeps the greedy condition between consecutive chunks. |
| Helpers.CloseChunk | src/utils/helpers.py:79-82 | Closing the open chunk (even an empty one) and starting a chunk with the word that did not fit keeps the packing shape. The first chunk is unchanged. |
| Helpers.BlankTextGivesNoChunks | src/utils/helpers.py:67-87 | Empty or all-whitespace text gives no chunks. |
| Helpers.OverlongWordStandsAlone | src/utils/helpers.py:79-82 | A word over the limit forms a chunk of its own, and that chunk is the word itself. |
| Helpers.JoinOfChunks | src/utils/helpers.py:80-85 | When no chunk is empty, joining the chunks with spaces equals joining all their words with spaces. |
| Helpers.FittingWordsPackLosslessly | src/utils/helpers.py:67-87 | When every word is within the limit, every chunk is non-empty and within the limit. Joining the chunks with spaces also equals joining the words of `text.split()` with spaces: no word is lost, reordered or altered. |
| Helpers.PackingWithoutEmptyChunksIsLossless | src/utils/helpers.py:72-87 | The corrected packing has no empty chunk and loses no word, whatever the word lengths. |
| Helpers.OverlongFirstWordGivesEmptyChunk | src/utils/helpers.py:74-82 | When the first word is over the limit, `split_into_tweets` returns at least two chunks, and the first is the empty string. |
| Helpers.EmptyFirstChunkWitness | src/utils/helpers.py:74-82 | `split_into_tweets("abcd", 3)` starts with an empty chunk, followed by at least one more. |
| TwitterClient.Caught | src/twitter_client.py:72-73 | A `TweepyException` becomes `TwitterAPIError` with the method's prefix before its message. Any other exception passes through unchanged. |
| TwitterClient.ReplyTo | src/twitter_client.py:59-65 | The reply link is passed exactly when the previous id is present and truthy, and it is that id. |
| TwitterClient.PostThread | src/twitter_client.py:45-73 | An empty list makes no calls and returns []. On success there is exactly one id per tweet, the i-th being the platform's answer to the create call of tweet i. The calls are exactly one create call per tweet, in order, with no media. The first tweet has no reply link, and each later one replies to the previous tweet's id when that id is truthy. On failure, the failing create call was the last call made, every earlier tweet was published as above, and the error is the wrapped exception (the collected ids are dropped). |
| TwitterClient.PostThreadWithMedia | src/twitter_client.py:75-114 | As `PostThread`, plus: an upload of `media[i]` comes immediately before tweet i's create call exactly when `i < len(media)`. That create call carries the uploaded id, and `media_ids` is `None` when nothing was uploaded. A failed upload is the last call, and that tweet's create call is never sent. |
| TwitterClient.PublishedTransfer | src/twitter_client.py:58-69 | Whether tweet i counts as published depends only on the calls up to its create call and on the ids up to its own. |
| TwitterClient.PostedStep | src/twitter_client.py:58-69 | One more tweet, with its calls ending in an accepted create call, extends a published prefix by its id. |
| TwitterClient.PostedPrefix | src/twitter_client.py:57-71 | The first j tweets of a published thread are a published thread, traced by the calls made for them. |
| TwitterClient.PostedTrace | src/twitter_client.py:89-111 | The create calls of a published thread carry exactly the tweets, in order. The uploads are exactly the first `min(len(tweets), len(media))` media paths, in order. |
| TwitterClient.AbortedCalls | src/twitter_client.py:88-114 | An aborted run made one or two calls for the failing tweet: its upload first, if there were two. Its create call, if made, carries that tweet's text. |
| TwitterClient.FailedCallTexts | src/twitter_client.py:88-114 | The texts created by a trace ending one or two calls past a given point are those created before it, plus the last call's text when that call is a create call. |
| TwitterClient.AbortedTrace | src/twitter_client.py:88-114 | An aborted run sent the tweets before the failing one, then that tweet only if its upload did not fail: no later tweet was attempted. |
| Threads.IdsToJson | src/thread_generator.py:32 | The ids are written as a JSON list of the same length holding the same strings. |
| Threads.IdsFromJson | src/thread_generator.py:44 | A JSON list reads as ids exactly when every item is a string, and then it gives those strings in order. |
| Threads.IdsRoundTrip | src/thread_generator.py:32-44 | Reading a written id list gives back the ids. |
| Threads.EncodeRecord | src/thread_generator.py:25-33 | The record is a dictionary with exactly the keys `topic`, `tweets`, `research_data`, `created_at` and `tweet_ids`. |
| Threads.TweetIdsField | src/thread_generator.py:44 | No ids (a draft) exactly when `tweet_ids` is absent or null. Otherwise the ids are the strings of the stored list. |
| Threads.DecodeRecord | src/thread_generator.py:35-45 | A record decodes exactly when it is a dictionary with a string `topic`, a list of `tweets`, a `research_data`, a `created_at` string that `fromisoformat` reads, and a `tweet_ids` that is absent, null or a list of strings. A non-dictionary is rejected. A missing `topic` is reported as that missing key. A decoded thread holds exactly the stored topic, tweets and research data, and the timestamp that `fromisoformat` gives for `created_at`. It is a draft exactly when `tweet_ids` is absent or null. |
| Threads.RecordRoundTrip | src/thread_generator.py:25-45 | `from_dict(to_dict(t))` gives back `t` (topic, tweets, research data, timestamp and ids), provided the timestamp survives its ISO form. |
| Threads.Thread.constructor | src/thread_generator.py:11-23 | A new thread holds the given topic, tweets and research data, is stamped with the current time, and is a draft (`tweet_ids` is `None`). |
| Threads.Thread.FromDict | src/thread_generator.py:35-45 | It gives a new thread exactly when the record decodes, holding the decoded record. Otherwise it gives the decoding error. |
| Threads.PriorHistory | src/thread_generator.py:114-120 | For a save, a missing file or one that is not JSON counts as an empty history. An unreadable file is an error. A stored JSON list is read as exactly its items. Any other JSON value is an error. A non-empty history is exactly the stored list. |
| Threads.SaveAppends | src/thread_generator.py:116-127 | When `json.load` reads the written text back as the list `json.dump` wrote, the history after a save is one record longer. The earlier records are unchanged, and the new record is last. The next load iterates exactly the old records and then the new one. |
| Threads.SaveOnFreshFile | src/thread_generator.py:116-123 | Saving over a missing or undecodable file writes a history of exactly one record. |
| Threads.ResaveDuplicates | src/thread_generator.py:123-127 | Saving a draft and then the posted thread leaves both records, not one updated record. |
| Threads.PrefixOf | src/thread_generator.py:126-127 | What an interrupted write leaves is a prefix of the full text. |
| Threads.InterruptedWriteForgets | src/thread_generator.py:116-145 | A write interrupted after truncation that leaves non-JSON text makes the history empty, both for the next save and for the next load. |
| Threads.StoredRecords | src/thread_generator.py:140-145 | For a load, a missing or undecodable file gives no records, and an unreadable file is an error. A stored JSON list gives exactly its items. A non-empty record list is exactly the stored JSON list. |
| Threads.DecodeAll | src/thread_generator.py:143 | Every record decodes exactly when the load gives threads. Then there is one thread per record, in file order. Otherwise the first record that fails is reported, with its index. |
| Threads.LoadedStates | src/thread_generator.py:140-145 | A missing or undecodable file gives no threads, and an unreadable file is an error. For a stored list, the load succeeds exactly when every record decodes, and it then gives one thread per record, in order. When a record of a non-list value fails (a non-empty dictionary or string, iterated by keys or characters), it is the first one, rejected as not a dictionary. |
| Threads.SaveAndLoadReadAlike | src/thread_generator.py:116-145 | Where a save reads a history, a load reads the same records. A stored `{}` loads as no threads but cannot be saved to. |
| Threads.SaveThenLoad | src/thread_generator.py:107-145 | Loading after a save gives the threads that were there, then the saved thread. |
| Threads.ThreadGenerator.ResearchAndGenerate | src/thread_generator.py:70-87 | The thread's research data is the research outcome, an error record included. Its tweets are what `generate_thread` makes of the reply written from that data. A generation failure is raised, with no thread made. A new thread is a draft stamped now. |
| Threads.ThreadGenerator.PostThread | src/thread_generator.py:89-105 | The media variant is used exactly when there are media paths, which shows in the error prefix and the uploads. On success, only `tweet_ids` changes, to one id per tweet, as the client's trace states. On failure, the thread is unchanged. |
| Threads.ThreadGenerator.SaveThread | src/thread_generator.py:107-129 | An unreadable or non-list history fails with the file untouched. Otherwise the file becomes the old history plus the thread's record. If opening for writing fails, the file is untouched. If the write is interrupted, the file holds a prefix of the new text. Every failure is a save `ThreadStorageError`. |
| Threads.ThreadGenerator.LoadThreads | src/thread_generator.py:131-147 | It gives new threads, one per stored record and in file order, holding the decoded records. It fails exactly when the file is unreadable, cannot be iterated, or holds a record `from_dict` rejects. |

## Left out

- `src/ui/cli.py`, `src/config.py` and `test_twitter_auth.py` are not part of this model. They cover the interactive menu, environment loading and a live authentication check.
- `ensure_directory_exists`, `load_json_file` and `save_json_file` are not modelled: they are file-system wrappers.
- The Gemini SDK and tweepy are not modelled. Their calls are the `Reply` and `Platform` oracles. Client construction, credentials and `wait_on_rate_limit` are left out.
- The JSON grammar is not modelled: `json.loads` and `json.dump` are parameters. Round trips are assumed only where a lemma requires them. JSON numbers are integers.
- The prompt texts, `json.dumps(research_data)` inside the prompt, and the generation settings are left out: they are advisory text sent to the model.
- `datetime.now()` is a parameter, and ISO formatting is the `IsoCodec` parameter.
- ResearchClient.GenerateThread: takes the reply to the thread prompt rather than the research data. That data only enters the prompt text.
- TwitterClient.PostThread: ids are the strings the client returns, and the empty string stands for a falsy id. The platform's integer ids, falsy only at 0, are not modelled.
- TwitterClient.PostThreadWithMedia: a missing media list is the empty list. The two behave the same in the source.
- Threads.DecodeRecord: accepts less than `from_dict` does. The topic must be a string, the tweets a list, and `tweet_ids` null, absent or a list of strings (`WellFormedRecord` states exactly which records decode). The source would store any value it finds.
- Threads.ThreadGenerator.SaveThread: the message of a `ThreadStorageError` is a `StorageCause` value, not `str(e)`. A failed write is either a failed open or an interruption after some characters. The `indent=2` layout belongs to the `dump` parameter.
- Threads.ThreadGenerator.PostThread: returns nothing, where the source returns the thread it was given (the same object).
- Threads.ThreadGenerator.ResearchAndGenerate: the research reply is a parameter, and the thread reply is a function of the research data. `depth` is accepted and unused, as in the source.
- Helpers.SplitIntoTweets: the `max_length=280` default argument is not modelled. Callers pass the limit.
- Helpers.TruncateText: the `max_length=280` default argument is not modelled either. Callers pass the limit, and `FormatTweetText` passes `TweetLimit`.
- Threads.ThreadGenerator.SaveThread and Threads.ThreadGenerator.LoadThreads: the `filepath="data/thread_history.json"` default is not modelled. Callers pass the path.

## Findings

| source | as written | input that shows it | evidently intended | confidence | as-written member | corrected member |
|---|---|---|---|---|---|---|
| src/utils/helpers.py:74-82 | A word that does not fit closes the current chunk even when the chunk is still empty. This appends `" ".join([])`, the empty string, as the first tweet. | `split_into_tweets("abcd", 3)` gives `["", "abcd"]` | An over-long first word opens the first chunk, so no tweet is empty | not executed | Helpers.OverlongFirstWordGivesEmptyChunk | Helpers.PackingWithoutEmptyChunksIsLossless |
