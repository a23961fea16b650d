/** The Twitter client's two publishing loops, `post_thread` and
    `post_thread_with_media`.

    The tweepy SDK is not modelled. The platform is an oracle (`Platform`)
    that answers each `create_tweet` or `media_upload` call from the list of
    calls made so far, the current call included, so any answer sequence
    (ids, duplicates, empty ids, failures at any point) can be expressed.
    Each method returns the trace of calls it made next to its result, and
    the contracts describe that trace call by call. */
module TwitterClient {
  import opened Wrappers

  /** `str(response.data['id'])`. Ids are kept as the strings the client
      returns; the empty string plays the part of a falsy id. */
  type TweetId = string

  /** `media.media_id`. */
  type MediaId = int

  /** One request sent to the platform. `inReplyTo` is `None` when the
      `in_reply_to_tweet_id` argument is not passed; `mediaIds` is `None`
      when `media_ids=None` (or nothing) is passed. */
  datatype Call<T> =
    | CreateTweet(text: T, inReplyTo: Option<TweetId>, mediaIds: Option<seq<MediaId>>)
    | MediaUpload(filename: string)

  /** What one SDK call does: return a value, raise a `TweepyException`, or
      raise any other exception (which the client does not catch). */
  datatype ApiReply<V> = Done(value: V) | TweepyError(message: string) | OtherError(message: string)

  /** The platform as seen by the client: each call is answered from the
      trace of calls so far, ending with the call being answered. */
  datatype Platform<!T> = Platform(
    createTweet: seq<Call<T>> -> ApiReply<TweetId>,
    mediaUpload: seq<Call<T>> -> ApiReply<MediaId>)

  /** What escapes a publishing call: `TwitterAPIError`, or an exception
      that is not a `TweepyException` and passes through unchanged. */
  datatype PostError = TwitterApiError(message: string) | Unhandled(message: string)

  const ThreadFailurePrefix: string := "Failed to post thread: "
  const MediaFailurePrefix: string := "Failed to post thread with media: "

  /** The `except tweepy.TweepyException` clause: a tweepy failure is
      re-raised as `TwitterAPIError` with the method's prefix. */
  function Caught<V>(reply: ApiReply<V>, prefix: string): (e: PostError)
    requires !reply.Done?
    ensures reply.TweepyError? <==> e.TwitterApiError?
    ensures e.TwitterApiError? ==> e.message == prefix + reply.message
    ensures e.Unhandled? ==> e.message == reply.message
  {
    if reply.TweepyError? then TwitterApiError(prefix + reply.message) else Unhandled(reply.message)
  }

  /** `if previous_tweet_id:` — the reply link is passed only for a truthy id. */
  function ReplyTo(previous: Option<TweetId>): (link: Option<TweetId>)
    ensures link.Some? <==> previous.Some? && previous.value != ""
    ensures link.Some? ==> link == previous
  {
    if previous.Some? && previous.value != "" then previous else None
  }

  /** The reply link of tweet `i` when the earlier tweets got `ids`. */
  function Link(ids: seq<TweetId>, i: nat): Option<TweetId>
    requires i <= |ids|
  {
    if i == 0 then None else ReplyTo(Some(ids[i - 1]))
  }

  function Min(a: nat, b: nat): nat {
    if a <= b then a else b
  }

  /** Position in the trace of the first call made for tweet `i`, when the
      first `uploads` tweets each get one upload before their create call. */
  function StartAt(i: nat, uploads: nat): nat {
    i + Min(i, uploads)
  }

  /** Position in the trace of the create call of tweet `i`. */
  function CreateAt(i: nat, uploads: nat): (c: nat)
    ensures c + 1 == StartAt(i + 1, uploads)
  {
    StartAt(i, uploads) + (if i < uploads then 1 else 0)
  }

  /** The calls made for tweet `i` have the right shape: the upload of
      `media[i]` first when there is one, accepted by the platform, then the
      create call with the tweet's text, its reply link and the uploaded id. */
  ghost predicate TweetCalls<T>(tweets: seq<T>, media: seq<string>, api: Platform<T>,
                                calls: seq<Call<T>>, ids: seq<TweetId>, i: nat)
    requires i < |tweets| && i <= |ids| && CreateAt(i, |media|) < |calls|
  {
    var c := CreateAt(i, |media|);
    if i < |media| then
      var s := StartAt(i, |media|);
      calls[s] == MediaUpload(media[i]) &&
      api.mediaUpload(calls[..s + 1]).Done? &&
      calls[c] == CreateTweet(tweets[i], Link(ids, i), Some([api.mediaUpload(calls[..s + 1]).value]))
    else
      calls[c] == CreateTweet(tweets[i], Link(ids, i), None)
  }

  /** Tweet `i` was published with id `ids[i]`: its calls have the right
      shape and the platform accepted its create call with that id. */
  ghost predicate Published<T>(tweets: seq<T>, media: seq<string>, api: Platform<T>,
                               calls: seq<Call<T>>, ids: seq<TweetId>, i: nat)
    requires i < |tweets| && i < |ids| && CreateAt(i, |media|) < |calls|
  {
    TweetCalls(tweets, media, api, calls, ids, i) &&
    api.createTweet(calls[..CreateAt(i, |media|) + 1]) == Done(ids[i])
  }

  /** The first `|ids|` tweets were published in order, tweet `i` getting
      `ids[i]`, and `calls` holds exactly the calls made for them. */
  ghost predicate Posted<T>(tweets: seq<T>, media: seq<string>, api: Platform<T>,
                            calls: seq<Call<T>>, ids: seq<TweetId>)
  {
    |ids| <= |tweets| && |calls| == StartAt(|ids|, |media|) &&
    forall i :: 0 <= i < |ids| ==> Published(tweets, media, api, calls, ids, i)
  }

  /** Publishing stopped at tweet `|ids|`: the earlier tweets were published
      as `Posted` says, then either the upload for this tweet or its create
      call failed with `error`, and that failing call is the last call made. */
  ghost predicate Aborted<T>(tweets: seq<T>, media: seq<string>, api: Platform<T>,
                             calls: seq<Call<T>>, ids: seq<TweetId>, error: PostError, prefix: string)
  {
    var k := |ids|;
    var s := StartAt(k, |media|);
    k < |tweets| && s < |calls| && Posted(tweets, media, api, calls[..s], ids) &&
    ((k < |media| && |calls| == s + 1 && calls[s] == MediaUpload(media[k]) &&
      !api.mediaUpload(calls).Done? && error == Caught(api.mediaUpload(calls), prefix))
     ||
     (|calls| == CreateAt(k, |media|) + 1 && TweetCalls(tweets, media, api, calls, ids, k) &&
      !api.createTweet(calls).Done? && error == Caught(api.createTweet(calls), prefix)))
  }

  /** `TwitterClient.post_thread`: the tweets are created in order, each
      replying to the previous one's id; the first failure ends the loop and
      the ids collected so far are dropped. */
  method PostThread<T>(tweets: seq<T>, api: Platform<T>)
    returns (result: Result<seq<TweetId>, PostError>, calls: seq<Call<T>>)
    ensures tweets == [] ==> result == Ok([]) && calls == []
    ensures result.Ok? ==> |result.value| == |tweets| && Posted(tweets, [], api, calls, result.value)
    ensures result.Err? ==> exists ids :: Aborted(tweets, [], api, calls, ids, result.error, ThreadFailurePrefix)
  {
    var tweetIds: seq<TweetId> := [];
    var previous: Option<TweetId> := None;
    calls := [];
    for i := 0 to |tweets|
      invariant |tweetIds| == i
      invariant Posted(tweets, [], api, calls, tweetIds)
      invariant previous == if i == 0 then None else Some(tweetIds[i - 1])
    {
      var call := CreateTweet(tweets[i], ReplyTo(previous), None);
      ghost var before := calls;
      calls := calls + [call];
      var reply := api.createTweet(calls);
      if !reply.Done? {
        result := Err(Caught(reply, ThreadFailurePrefix));
        assert calls[..StartAt(i, 0)] == before;
        assert Aborted(tweets, [], api, calls, tweetIds, result.error, ThreadFailurePrefix);
        return;
      }
      assert calls[..|before|] == before;
      PostedStep(tweets, [], api, before, calls, tweetIds, reply.value);
      tweetIds := tweetIds + [reply.value];
      previous := Some(reply.value);
    }
    result := Ok(tweetIds);
  }

  /** `TwitterClient.post_thread_with_media`: as `PostThread`, except that
      tweet `i` is preceded by one upload of `media[i]` when `i < |media|`,
      and its create call carries the uploaded id. A missing media list is
      the empty one. */
  method PostThreadWithMedia<T>(tweets: seq<T>, media: seq<string>, api: Platform<T>)
    returns (result: Result<seq<TweetId>, PostError>, calls: seq<Call<T>>)
    ensures tweets == [] ==> result == Ok([]) && calls == []
    ensures result.Ok? ==> |result.value| == |tweets| && Posted(tweets, media, api, calls, result.value)
    ensures result.Err? ==> exists ids :: Aborted(tweets, media, api, calls, ids, result.error, MediaFailurePrefix)
  {
    var tweetIds: seq<TweetId> := [];
    var previous: Option<TweetId> := None;
    calls := [];
    for i := 0 to |tweets|
      invariant |tweetIds| == i
      invariant Posted(tweets, media, api, calls, tweetIds)
      invariant previous == if i == 0 then None else Some(tweetIds[i - 1])
    {
      ghost var before := calls;
      var mediaIds: seq<MediaId> := [];
      if i < |media| {
        calls := calls + [MediaUpload(media[i])];
        var upload := api.mediaUpload(calls);
        if !upload.Done? {
          result := Err(Caught(upload, MediaFailurePrefix));
          assert calls[..StartAt(i, |media|)] == before;
          assert Aborted(tweets, media, api, calls, tweetIds, result.error, MediaFailurePrefix);
          return;
        }
        mediaIds := [upload.value];
      }
      ghost var uploaded := calls;
      var attachment := if mediaIds != [] then Some(mediaIds) else None;
      calls := calls + [CreateTweet(tweets[i], ReplyTo(previous), attachment)];
      var reply := api.createTweet(calls);
      assert calls[..|uploaded|] == uploaded;
      assert calls[..StartAt(i, |media|)] == before;
      assert TweetCalls(tweets, media, api, calls, tweetIds, i);
      if !reply.Done? {
        result := Err(Caught(reply, MediaFailurePrefix));
        assert Aborted(tweets, media, api, calls, tweetIds, result.error, MediaFailurePrefix);
        return;
      }
      PostedStep(tweets, media, api, before, calls, tweetIds, reply.value);
      tweetIds := tweetIds + [reply.value];
      previous := Some(reply.value);
    }
    result := Ok(tweetIds);
  }

  /** Whether tweet `i` counts as published depends only on the trace up
      to its create call and on the ids up to its own. */
  lemma PublishedTransfer<T>(tweets: seq<T>, media: seq<string>, api: Platform<T>,
                             calls: seq<Call<T>>, other: seq<Call<T>>,
                             ids: seq<TweetId>, otherIds: seq<TweetId>, i: nat)
    requires i < |tweets| && i < |ids| && i < |otherIds| && ids[..i + 1] == otherIds[..i + 1]
    requires CreateAt(i, |media|) < |calls| && CreateAt(i, |media|) < |other|
    requires calls[..CreateAt(i, |media|) + 1] == other[..CreateAt(i, |media|) + 1]
    ensures Published(tweets, media, api, calls, ids, i) == Published(tweets, media, api, other, otherIds, i)
  {
    var c := CreateAt(i, |media|);
    assert calls[c] == calls[..c + 1][c] == other[..c + 1][c] == other[c];
    assert ids[i] == ids[..i + 1][i] == otherIds[..i + 1][i] == otherIds[i];
    if i > 0 {
      assert ids[i - 1] == ids[..i + 1][i - 1] == otherIds[..i + 1][i - 1] == otherIds[i - 1];
    }
    assert Link(ids, i) == Link(otherIds, i);
    if i < |media| {
      var s := StartAt(i, |media|);
      assert calls[s] == calls[..c + 1][s] == other[..c + 1][s] == other[s];
      assert calls[..s + 1] == calls[..c + 1][..s + 1] == other[..c + 1][..s + 1] == other[..s + 1];
    }
  }

  /** One more tweet published: its calls, ending with the accepted create
      call, extend a trace that `Posted` describes. */
  lemma PostedStep<T>(tweets: seq<T>, media: seq<string>, api: Platform<T>,
                      before: seq<Call<T>>, calls: seq<Call<T>>, ids: seq<TweetId>, id: TweetId)
    requires Posted(tweets, media, api, before, ids) && |ids| < |tweets|
    requires |calls| == CreateAt(|ids|, |media|) + 1 && before == calls[..|before|]
    requires TweetCalls(tweets, media, api, calls, ids, |ids|)
    requires api.createTweet(calls) == Done(id)
    ensures Posted(tweets, media, api, calls, ids + [id])
  {
    var k := |ids|;
    var ids' := ids + [id];
    forall i | 0 <= i < |ids'|
      ensures Published(tweets, media, api, calls, ids', i)
    {
      if i < k {
        assert Published(tweets, media, api, before, ids, i);
        var c := CreateAt(i, |media|);
        assert before[..c + 1] == calls[..c + 1];
        assert ids[..i + 1] == ids'[..i + 1];
        PublishedTransfer(tweets, media, api, before, calls, ids, ids', i);
      } else {
        assert Link(ids, k) == Link(ids', k);
        assert calls[..CreateAt(i, |media|) + 1] == calls;
      }
    }
  }

  /** The texts of the create calls in a trace, in call order. */
  function CreatedTexts<T>(calls: seq<Call<T>>): seq<T>
    decreases |calls|
  {
    if calls == [] then []
    else
      var last := calls[|calls| - 1];
      CreatedTexts(calls[..|calls| - 1]) + (if last.CreateTweet? then [last.text] else [])
  }

  /** The files of the upload calls in a trace, in call order. */
  function UploadedFiles<T>(calls: seq<Call<T>>): seq<string>
    decreases |calls|
  {
    if calls == [] then []
    else
      var last := calls[|calls| - 1];
      UploadedFiles(calls[..|calls| - 1]) + (if last.MediaUpload? then [last.filename] else [])
  }

  /** A prefix of a published thread is a published thread. */
  lemma PostedPrefix<T>(tweets: seq<T>, media: seq<string>, api: Platform<T>,
                        calls: seq<Call<T>>, ids: seq<TweetId>, j: nat)
    requires Posted(tweets, media, api, calls, ids) && j <= |ids|
    ensures StartAt(j, |media|) <= |calls|
    ensures Posted(tweets, media, api, calls[..StartAt(j, |media|)], ids[..j])
  {
    var shorter := calls[..StartAt(j, |media|)];
    forall i | 0 <= i < j
      ensures Published(tweets, media, api, shorter, ids[..j], i)
    {
      assert Published(tweets, media, api, calls, ids, i);
      var c := CreateAt(i, |media|);
      assert shorter[..c + 1] == calls[..c + 1];
      assert ids[..j][..i + 1] == ids[..i + 1];
      PublishedTransfer(tweets, media, api, calls, shorter, ids, ids[..j], i);
    }
  }

  /** A published thread was sent as exactly one create call per tweet, in
      tweet order, and one upload per tweet that has a media path, in the
      same order; nothing else was sent. */
  lemma {:induction false} PostedTrace<T>(tweets: seq<T>, media: seq<string>, api: Platform<T>,
                                          calls: seq<Call<T>>, ids: seq<TweetId>)
    requires Posted(tweets, media, api, calls, ids)
    ensures CreatedTexts(calls) == tweets[..|ids|]
    ensures UploadedFiles(calls) == media[..Min(|ids|, |media|)]
    decreases |ids|
  {
    var n := |ids|;
    if n > 0 {
      var m := |media|;
      var earlier := calls[..StartAt(n - 1, m)];
      PostedPrefix(tweets, media, api, calls, ids, n - 1);
      PostedTrace(tweets, media, api, earlier, ids[..n - 1]);
      var c := CreateAt(n - 1, m);
      assert Published(tweets, media, api, calls, ids, n - 1);
      assert calls[..c] == calls[..|calls| - 1];
      if n - 1 < m {
        assert calls[..c][..|earlier|] == earlier;
        assert calls[..c] == earlier + [MediaUpload(media[n - 1])];
        assert calls[..c][..|calls[..c]| - 1] == earlier;
        assert media[..n] == media[..n - 1] + [media[n - 1]];
      } else {
        assert calls[..c] == earlier;
        assert Min(n, m) == Min(n - 1, m);
      }
      assert tweets[..n] == tweets[..n - 1] + [tweets[n - 1]];
    }
  }

  /** An aborted thread was sent the create calls of the tweets before the
      failing one, then that tweet's create call only if the failure was not
      its upload: no later tweet was attempted. */
  lemma AbortedTrace<T>(tweets: seq<T>, media: seq<string>, api: Platform<T>,
                        calls: seq<Call<T>>, ids: seq<TweetId>, error: PostError, prefix: string)
    requires Aborted(tweets, media, api, calls, ids, error, prefix)
    ensures |ids| < |tweets| && calls != []
    ensures CreatedTexts(calls) ==
              tweets[..|ids|] + (if calls[|calls| - 1].CreateTweet? then [tweets[|ids|]] else [])
  {
    var k := |ids|;
    var m := |media|;
    var s := StartAt(k, m);
    PostedTrace(tweets, media, api, calls[..s], ids);
    AbortedCalls(tweets, media, api, calls, ids, error, prefix);
    FailedCallTexts(calls, s, tweets[k], tweets[..k]);
  }

  /** The calls of the failing tweet: one or two calls after its start
      position, the first of two being its upload, and a create call among
      them carrying its text. */
  lemma AbortedCalls<T>(tweets: seq<T>, media: seq<string>, api: Platform<T>,
                        calls: seq<Call<T>>, ids: seq<TweetId>, error: PostError, prefix: string)
    requires Aborted(tweets, media, api, calls, ids, error, prefix)
    ensures var s := StartAt(|ids|, |media|);
      s < |calls| <= s + 2 && (|calls| == s + 2 ==> calls[s].MediaUpload?) &&
      (calls[|calls| - 1].CreateTweet? ==> calls[|calls| - 1].text == tweets[|ids|])
  {
    var k := |ids|;
    var m := |media|;
    var s := StartAt(k, m);
    if k < m && |calls| == s + 1 && calls[s] == MediaUpload(media[k]) {
      assert calls[|calls| - 1].MediaUpload?;
    } else {
      var c := CreateAt(k, m);
      assert |calls| == c + 1 && TweetCalls(tweets, media, api, calls, ids, k);
      assert calls[|calls| - 1] == calls[c];
      if k < m {
        assert c == s + 1 && calls[s] == MediaUpload(media[k]);
      }
    }
  }

  /** The texts created by a trace that ends one or two calls after
      position `s`, the first of two being an upload. */
  lemma FailedCallTexts<T>(calls: seq<Call<T>>, s: nat, text: T, texts: seq<T>)
    requires s < |calls| <= s + 2 && CreatedTexts(calls[..s]) == texts
    requires |calls| == s + 2 ==> calls[s].MediaUpload?
    requires calls[|calls| - 1].CreateTweet? ==> calls[|calls| - 1].text == text
    ensures CreatedTexts(calls) == texts + (if calls[|calls| - 1].CreateTweet? then [text] else [])
  {
    var init := calls[..|calls| - 1];
    if |calls| == s + 2 {
      assert init[..s] == calls[..s];
      assert init[..|init| - 1] == calls[..s];
    } else {
      assert init == calls[..s];
    }
  }
}
