/** The thread generator: the `Thread` record and its dictionary form
    (`to_dict`, `from_dict`), the JSON history file that `save_thread`
    appends to and `load_threads` reads back, `post_thread`'s Draft to
    Posted step, and the data flow of `research_and_generate`.

    Nothing here touches a real clock, file system or network. The current
    time is a parameter, `isoformat`/`fromisoformat` are the `IsoCodec`
    parameter, `json.load`/`json.dump` are the `JsonCodec` parameter, the
    file system is the `files` map of a `ThreadGenerator`, and the model
    replies and the Twitter platform are the oracles of `ResearchClient`
    and `TwitterClient`. */
module Threads {
  import opened Wrappers
  import opened JsonValues
  import opened Strings
  import ResearchClient
  import TwitterClient

  /** A `datetime` value; only its identity matters here. */
  datatype Timestamp = Timestamp(microseconds: int)

  /** `datetime.isoformat` and `datetime.fromisoformat` (`None` for the
      `ValueError` of a text that is not an ISO timestamp). */
  datatype IsoCodec = IsoCodec(format: Timestamp -> string, parse: string -> Option<Timestamp>)

  /** The value of a `Thread`. `tweetIds == None` is a draft; `Some(ids)`
      is a thread that was posted and got `ids`. The tweets are the JSON
      values `generate_thread` found in the reply's list. */
  datatype ThreadState = ThreadState(
    topic: string,
    tweets: seq<Json>,
    researchData: Json,
    createdAt: Timestamp,
    tweetIds: Option<seq<TwitterClient.TweetId>>)

  /** Why `from_dict` fails: the record is not a dictionary, a key is
      missing (`KeyError`), a value has a type the model does not accept, or
      `created_at` is not an ISO timestamp. */
  datatype DecodeError = NotAnObject | MissingKey(key: string) | WrongType(key: string) | BadTimestamp(text: string)

  const RecordKeys: set<string> := {"topic", "tweets", "research_data", "created_at", "tweet_ids"}

  function IdsToJson(ids: seq<string>): (items: seq<Json>)
    ensures |items| == |ids|
    ensures forall i :: 0 <= i < |ids| ==> items[i] == JString(ids[i])
  {
    if ids == [] then [] else [JString(ids[0])] + IdsToJson(ids[1..])
  }

  /** The strings of a JSON list, when every item is a string. */
  function IdsFromJson(items: seq<Json>): (ids: Option<seq<string>>)
    ensures ids.Some? <==> forall i :: 0 <= i < |items| ==> items[i].JString?
    ensures ids.Some? ==> |ids.value| == |items| && forall i :: 0 <= i < |items| ==> items[i] == JString(ids.value[i])
  {
    if items == [] then Some([])
    else if !items[0].JString? then None
    else
      match IdsFromJson(items[1..])
      case None => None
      case Some(rest) => Some([items[0].s] + rest)
  }

  /** Reading a list of ids back gives the ids that were written. */
  lemma IdsRoundTrip(ids: seq<string>)
    ensures IdsFromJson(IdsToJson(ids)) == Some(ids)
  {
    var back := IdsFromJson(IdsToJson(ids));
    assert back.Some?;
    assert back.value == ids;
  }

  /** `Thread.to_dict`: the five keys, `created_at` in ISO form and
      `tweet_ids` as `null` for a draft. */
  function EncodeRecord(t: ThreadState, iso: IsoCodec): (d: Json)
    ensures d.JObject? && d.members.Keys == RecordKeys
  {
    JObject(map[
      "topic" := JString(t.topic),
      "tweets" := JArray(t.tweets),
      "research_data" := t.researchData,
      "created_at" := JString(iso.format(t.createdAt)),
      "tweet_ids" := match t.tweetIds
                     case None => JNull
                     case Some(ids) => JArray(IdsToJson(ids))])
  }

  /** `data.get("tweet_ids")`: absent and `null` both give `None`. */
  function TweetIdsField(members: map<string, Json>): (r: Result<Option<seq<string>>, DecodeError>)
    ensures r == Ok(None) <==> "tweet_ids" !in members || members["tweet_ids"] == JNull
    ensures r.Ok? && r.value.Some? ==> "tweet_ids" in members && members["tweet_ids"] == JArray(IdsToJson(r.value.value))
  {
    if "tweet_ids" !in members || members["tweet_ids"] == JNull then Ok(None)
    else match members["tweet_ids"]
      case JArray(items) =>
        (match IdsFromJson(items)
         case Some(ids) =>
           assert IdsToJson(ids) == items;
           Ok(Some(ids))
         case None => Err(WrongType("tweet_ids")))
      case _ => Err(WrongType("tweet_ids"))
  }

  /** A record `from_dict` accepts here: a dictionary with a string
      `topic`, a list of `tweets`, some `research_data`, a `created_at`
      string the ISO codec reads, and a `tweet_ids` that is absent, `null`
      or a list of strings. */
  predicate WellFormedRecord(data: Json, iso: IsoCodec) {
    data.JObject? &&
    "topic" in data.members && data.members["topic"].JString? &&
    "tweets" in data.members && data.members["tweets"].JArray? &&
    "research_data" in data.members &&
    "created_at" in data.members && data.members["created_at"].JString? &&
    iso.parse(data.members["created_at"].s).Some? &&
    ("tweet_ids" !in data.members || data.members["tweet_ids"] == JNull ||
     (data.members["tweet_ids"].JArray? && IdsFromJson(data.members["tweet_ids"].items).Some?))
  }

  /** `Thread.from_dict`: the keys are read in the order the source reads
      them, so the first missing one is the one reported. */
  function DecodeRecord(data: Json, iso: IsoCodec): (r: Result<ThreadState, DecodeError>)
    ensures r.Ok? <==> WellFormedRecord(data, iso)
    ensures !data.JObject? ==> r == Err(NotAnObject)
    ensures data.JObject? && "topic" !in data.members ==> r == Err(MissingKey("topic"))
    ensures r.Ok? ==> data.JObject? && RecordKeys - {"tweet_ids"} <= data.members.Keys
    ensures r.Ok? ==> data.members["topic"] == JString(r.value.topic) &&
                      data.members["tweets"] == JArray(r.value.tweets) &&
                      data.members["research_data"] == r.value.researchData
    ensures r.Ok? ==> data.members["created_at"].JString? &&
                      iso.parse(data.members["created_at"].s) == Some(r.value.createdAt)
    ensures r.Ok? ==> (r.value.tweetIds == None <==>
                       "tweet_ids" !in data.members || data.members["tweet_ids"] == JNull)
  {
    if !data.JObject? then Err(NotAnObject)
    else
      var m := data.members;
      if "topic" !in m then Err(MissingKey("topic"))
      else if !m["topic"].JString? then Err(WrongType("topic"))
      else if "tweets" !in m then Err(MissingKey("tweets"))
      else if !m["tweets"].JArray? then Err(WrongType("tweets"))
      else if "research_data" !in m then Err(MissingKey("research_data"))
      else if "created_at" !in m then Err(MissingKey("created_at"))
      else if !m["created_at"].JString? then Err(WrongType("created_at"))
      else match iso.parse(m["created_at"].s)
        case None => Err(BadTimestamp(m["created_at"].s))
        case Some(createdAt) =>
          match TweetIdsField(m)
          case Err(e) => Err(e)
          case Ok(ids) =>
            Ok(ThreadState(m["topic"].s, m["tweets"].items, m["research_data"], createdAt, ids))
  }

  /** `from_dict(to_dict(t))` is `t`, provided the timestamp survives its
      ISO form. */
  lemma RecordRoundTrip(t: ThreadState, iso: IsoCodec)
    requires iso.parse(iso.format(t.createdAt)) == Some(t.createdAt)
    ensures DecodeRecord(EncodeRecord(t, iso), iso) == Ok(t)
  {
    var m := EncodeRecord(t, iso).members;
    match t.tweetIds
    case None =>
    case Some(ids) =>
      IdsRoundTrip(ids);
      assert m["tweet_ids"] == JArray(IdsToJson(ids));
  }

  /** A mutable `Thread` object; `post_thread` updates its `tweet_ids` in place. */
  class Thread {
    var topic: string
    var tweets: seq<Json>
    var researchData: Json
    var createdAt: Timestamp
    var tweetIds: Option<seq<TwitterClient.TweetId>>

    function State(): ThreadState
      reads this
    {
      ThreadState(topic, tweets, researchData, createdAt, tweetIds)
    }

    /** `Thread(topic, tweets, research_data)` at time `now`: a draft. */
    constructor (topic: string, tweets: seq<Json>, researchData: Json, now: Timestamp)
      ensures State() == ThreadState(topic, tweets, researchData, now, None)
    {
      this.topic := topic;
      this.tweets := tweets;
      this.researchData := researchData;
      this.createdAt := now;
      this.tweetIds := None;
    }

    /** `Thread.from_dict`: a new thread holding the decoded record. */
    static method FromDict(data: Json, iso: IsoCodec) returns (r: Result<Thread, DecodeError>)
      ensures r.Ok? <==> DecodeRecord(data, iso).Ok?
      ensures r.Err? ==> r.error == DecodeRecord(data, iso).error
      ensures r.Ok? ==> fresh(r.value) && r.value.State() == DecodeRecord(data, iso).value
    {
      match DecodeRecord(data, iso)
      case Err(e) => r := Err(e);
      case Ok(s) =>
        var thread := new Thread(s.topic, s.tweets, s.researchData, s.createdAt);
        thread.tweetIds := s.tweetIds;
        r := Ok(thread);
    }
  }

  /** What a path holds: nothing, something the process cannot open for
      reading (a directory, a file without permission, ...), or a text. */
  datatype FileState = Missing | Unreadable(reason: string) | Stored(text: string)

  /** `json.loads` (`None` for `JSONDecodeError`) and `json.dump`. */
  datatype JsonCodec = JsonCodec(parse: ResearchClient.Parser, dump: Json -> string)

  /** Which step of a write fails, if any: opening the file for writing
      (the file is left as it was), or writing after `kept` characters (the
      file was already truncated, and holds what was written). */
  datatype WriteFault = NoFault | OpenFailed(reason: string) | Interrupted(kept: nat, reason: string)

  /** What a `ThreadStorageError` reports: an operating-system error, a
      history that is not a list (`save_thread` cannot append to it), a
      history that cannot be iterated, or a record `from_dict` rejects. */
  datatype StorageCause = OsError(reason: string) | NotAList | NotIterable | BadRecord(index: nat, error: DecodeError)

  /** `ThreadStorageError("Failed to save thread: ...")` and
      `ThreadStorageError("Failed to load threads: ...")`. */
  datatype StorageError = SaveFailed(cause: StorageCause) | LoadFailed(cause: StorageCause)

  /** The history `save_thread` appends to: a missing file or one that is
      not JSON counts as an empty history, a JSON list is the history, and
      any other JSON value cannot be appended to. */
  function PriorHistory(file: FileState, codec: JsonCodec): (r: Result<seq<Json>, StorageCause>)
    ensures (file.Missing? || (file.Stored? && codec.parse(file.text).None?)) ==> r == Ok([])
    ensures file.Unreadable? ==> r == Err(OsError(file.reason))
    ensures file.Stored? && codec.parse(file.text).Some? && codec.parse(file.text).value.JArray? ==>
              r == Ok(codec.parse(file.text).value.items)
    ensures r.Ok? && r.value != [] ==> file.Stored? && codec.parse(file.text) == Some(JArray(r.value))
    ensures file.Stored? && codec.parse(file.text).Some? ==>
              (r.Ok? <==> codec.parse(file.text).value.JArray?)
  {
    match file
    case Missing => Ok([])
    case Unreadable(reason) => Err(OsError(reason))
    case Stored(text) =>
      match codec.parse(text)
      case None => Ok([])
      case Some(JArray(items)) => Ok(items)
      case Some(_) => Err(NotAList)
  }

  /** The text `save_thread` writes for a history (`json.dump`). */
  function HistoryText(history: seq<Json>, codec: JsonCodec): string
  {
    codec.dump(JArray(history))
  }

  /** `json.dump` followed by `json.load` gives the history back. */
  ghost predicate Readable(history: seq<Json>, codec: JsonCodec) {
    codec.parse(HistoryText(history, codec)) == Some(JArray(history))
  }

  /** Saving appends: the history read back after a save is the old history
      with the new record at the end; nothing earlier changes, and the next
      load iterates exactly those records. */
  lemma SaveAppends(history: seq<Json>, record: Json, codec: JsonCodec)
    requires Readable(history + [record], codec)
    ensures var after := PriorHistory(Stored(HistoryText(history + [record], codec)), codec);
      after.Ok? && |after.value| == |history| + 1 &&
      after.value[..|history|] == history && after.value[|history|] == record
    ensures StoredRecords(Stored(HistoryText(history + [record], codec)), codec) == Ok(history + [record])
  {
    assert (history + [record])[..|history|] == history;
  }

  /** A missing or undecodable history file restarts the history: the file
      written holds exactly the one new record. */
  lemma SaveOnFreshFile(file: FileState, record: Json, codec: JsonCodec)
    requires file.Missing? || (file.Stored? && codec.parse(file.text).None?)
    requires Readable([record], codec)
    ensures var prior := PriorHistory(file, codec);
      prior == Ok([]) &&
      PriorHistory(Stored(HistoryText(prior.value + [record], codec)), codec) == Ok([record])
  {
    assert [] + [record] == [record];
  }

  /** Saving a thread twice (say as a draft, then once posted) leaves two
      records, the first unchanged, not one updated record. */
  lemma ResaveDuplicates(history: seq<Json>, draft: Json, posted: Json, codec: JsonCodec)
    requires Readable(history + [draft], codec) && Readable(history + [draft] + [posted], codec)
    ensures var once := PriorHistory(Stored(HistoryText(history + [draft], codec)), codec);
      once.Ok? &&
      PriorHistory(Stored(HistoryText(once.value + [posted], codec)), codec) == Ok(history + [draft, posted])
  {
    SaveAppends(history, draft, codec);
    assert history + [draft] + [posted] == history + [draft, posted];
  }

  /** A write interrupted after the file was truncated, when what it left is
      not JSON, silently empties the history: the next save starts over and
      the next load finds no threads. */
  lemma InterruptedWriteForgets(history: seq<Json>, kept: nat, codec: JsonCodec, iso: IsoCodec)
    requires codec.parse(PrefixOf(HistoryText(history, codec), kept)).None?
    ensures var file := Stored(PrefixOf(HistoryText(history, codec), kept));
      PriorHistory(file, codec) == Ok([]) && LoadedStates(file, codec, iso) == Ok([])
  {
  }

  /** The first `n` characters of `s` (all of it when shorter). */
  function PrefixOf(s: string, n: nat): (r: string)
    ensures |r| <= n && |r| <= |s| && r == s[..|r|]
    ensures |s| <= n ==> r == s
  {
    if n < |s| then s[..n] else s
  }

  /** The records `load_threads` iterates over: nothing for a missing or
      undecodable file, the items of a list, and, since Python iterates a
      dictionary by its keys and a string by its characters, nothing for
      `{}` or `""` and a record `from_dict` rejects for any other
      dictionary or string. Other values cannot be iterated. */
  function StoredRecords(file: FileState, codec: JsonCodec): (r: Result<seq<Json>, StorageCause>)
    ensures (file.Missing? || (file.Stored? && codec.parse(file.text).None?)) ==> r == Ok([])
    ensures file.Unreadable? ==> r == Err(OsError(file.reason))
    ensures file.Stored? && codec.parse(file.text).Some? && codec.parse(file.text).value.JArray? ==>
              r == Ok(codec.parse(file.text).value.items)
    ensures r.Ok? && r.value != [] ==> file.Stored? && codec.parse(file.text) == Some(JArray(r.value))
  {
    match file
    case Missing => Ok([])
    case Unreadable(reason) => Err(OsError(reason))
    case Stored(text) =>
      match codec.parse(text)
      case None => Ok([])
      case Some(JArray(items)) => Ok(items)
      case Some(JObject(m)) => if m == map[] then Ok([]) else Err(BadRecord(0, NotAnObject))
      case Some(JString(s)) => if s == "" then Ok([]) else Err(BadRecord(0, NotAnObject))
      case Some(_) => Err(NotIterable)
  }

  /** `from_dict` of every record in order; the first record it rejects
      ends the comprehension. */
  function DecodeAll(records: seq<Json>, iso: IsoCodec): (r: Result<seq<ThreadState>, StorageCause>)
    ensures r.Ok? <==> forall i :: 0 <= i < |records| ==> DecodeRecord(records[i], iso).Ok?
    ensures r.Ok? ==> |r.value| == |records| &&
                      forall i :: 0 <= i < |records| ==> DecodeRecord(records[i], iso) == Ok(r.value[i])
    ensures r.Err? ==> r.error.BadRecord? && r.error.index < |records| &&
                       DecodeRecord(records[r.error.index], iso) == Err(r.error.error) &&
                       forall i :: 0 <= i < r.error.index ==> DecodeRecord(records[i], iso).Ok?
    decreases |records|
  {
    if records == [] then Ok([])
    else
      match DecodeRecord(records[0], iso)
      case Err(e) => Err(BadRecord(0, e))
      case Ok(first) =>
        match DecodeAll(records[1..], iso)
        case Ok(rest) => Ok([first] + rest)
        case Err(cause) =>
          assert forall i :: 1 <= i < |records| ==> records[i] == records[1..][i - 1];
          Err(BadRecord(cause.index + 1, cause.error))
  }

  /** `load_threads`, as values. */
  function LoadedStates(file: FileState, codec: JsonCodec, iso: IsoCodec): (r: Result<seq<ThreadState>, StorageCause>)
    ensures (file.Missing? || (file.Stored? && codec.parse(file.text).None?)) ==> r == Ok([])
    ensures file.Unreadable? ==> r == Err(OsError(file.reason))
    ensures file.Stored? && codec.parse(file.text).Some? && codec.parse(file.text).value.JArray? ==>
              var records := codec.parse(file.text).value.items;
              (r.Ok? <==> forall i :: 0 <= i < |records| ==> DecodeRecord(records[i], iso).Ok?) &&
              (r.Ok? ==> |r.value| == |records| &&
                         forall i :: 0 <= i < |records| ==> DecodeRecord(records[i], iso) == Ok(r.value[i]))
    ensures r.Err? && r.error.BadRecord? ==>
              file.Stored? && codec.parse(file.text).Some? && !codec.parse(file.text).value.JArray? ==>
                r.error == BadRecord(0, NotAnObject)
  {
    match StoredRecords(file, codec)
    case Err(cause) => Err(cause)
    case Ok(records) => DecodeAll(records, iso)
  }

  /** Where both read the file as a list, `save_thread` and `load_threads`
      see the same records; `load_threads` also accepts `{}` and `""` as
      empty, which `save_thread` cannot append to. */
  lemma SaveAndLoadReadAlike(file: FileState, codec: JsonCodec)
    ensures PriorHistory(file, codec).Ok? ==> StoredRecords(file, codec) == PriorHistory(file, codec)
    ensures file.Stored? && codec.parse(file.text) == Some(JObject(map[])) ==>
              PriorHistory(file, codec) == Err(NotAList) && StoredRecords(file, codec) == Ok([])
  {
  }

  /** What a save writes is what the next load returns: the threads that
      were there, then the saved one. */
  lemma SaveThenLoad(history: seq<Json>, t: ThreadState, codec: JsonCodec, iso: IsoCodec)
    requires Readable(history + [EncodeRecord(t, iso)], codec)
    requires iso.parse(iso.format(t.createdAt)) == Some(t.createdAt)
    requires DecodeAll(history, iso).Ok?
    ensures LoadedStates(Stored(HistoryText(history + [EncodeRecord(t, iso)], codec)), codec, iso)
              == Ok(DecodeAll(history, iso).value + [t])
  {
    var records := history + [EncodeRecord(t, iso)];
    RecordRoundTrip(t, iso);
    var loaded := LoadedStates(Stored(HistoryText(records, codec)), codec, iso);
    assert StoredRecords(Stored(HistoryText(records, codec)), codec) == Ok(records);
    forall i | 0 <= i < |records| ensures DecodeRecord(records[i], iso).Ok? {
      if i < |history| {
        assert records[i] == history[i];
      }
    }
    assert loaded.Ok?;
    var expected := DecodeAll(history, iso).value + [t];
    assert |loaded.value| == |expected|;
    forall i | 0 <= i < |records| ensures loaded.value[i] == expected[i] {
      assert DecodeRecord(records[i], iso) == Ok(loaded.value[i]);
      if i < |history| {
        assert records[i] == history[i];
        assert DecodeRecord(history[i], iso) == Ok(expected[i]);
      } else {
        assert records[i] == EncodeRecord(t, iso);
      }
    }
    assert loaded.value == expected;
  }

  /** The generator, holding the file system its history files live in
      (a path that is not a key is `Missing`). */
  class ThreadGenerator {
    var files: map<string, FileState>

    constructor (files: map<string, FileState>)
      ensures this.files == files
    {
      this.files := files;
    }

    function FileAt(path: string): FileState
      reads this
    {
      if path in files then files[path] else Missing
    }

    /** `ThreadGenerator.research_and_generate`: the research outcome (a
        parsed value or an error record; `research_with_search` never
        raises) becomes the thread's research data, and the thread reply
        written from that data becomes its tweets. `depth` is accepted and
        not used. */
    method ResearchAndGenerate(topic: string, depth: string,
                               researchReply: ResearchClient.Reply,
                               threadReply: Json -> ResearchClient.Reply,
                               parse: ResearchClient.Parser, now: Timestamp)
      returns (r: Result<Thread, ResearchClient.ResearchError>)
      ensures var data := ResearchClient.OutcomeJson(ResearchClient.ResearchWithSearch(researchReply, parse));
        var generated := ResearchClient.GenerateThread(threadReply(data), parse);
        (r.Ok? <==> generated.Ok?) &&
        (r.Err? ==> r.error == generated.error) &&
        (r.Ok? ==> fresh(r.value) && r.value.State() == ThreadState(topic, generated.value, data, now, None))
    {
      var researchData := ResearchClient.OutcomeJson(ResearchClient.ResearchWithSearch(researchReply, parse));
      var tweets := ResearchClient.GenerateThread(threadReply(researchData), parse);
      if tweets.Err? {
        return Err(tweets.error);
      }
      var thread := new Thread(topic, tweets.value, researchData, now);
      return Ok(thread);
    }

    /** `ThreadGenerator.post_thread`: the media variant is used exactly
        when there are media paths; on success only `tweet_ids` changes, to
        the ids the client returned, and on failure the thread is left as
        it was. */
    method PostThread(thread: Thread, mediaPaths: seq<string>, api: TwitterClient.Platform<Json>)
      returns (result: Outcome<TwitterClient.PostError>, calls: seq<TwitterClient.Call<Json>>)
      modifies thread
      ensures result.Pass? ==>
        thread.tweetIds.Some? &&
        thread.State() == old(thread.State()).(tweetIds := thread.tweetIds) &&
        |thread.tweetIds.value| == |thread.tweets| &&
        TwitterClient.Posted(thread.tweets, mediaPaths, api, calls, thread.tweetIds.value)
      ensures result.Fail? ==> thread.State() == old(thread.State())
      ensures var prefix := if mediaPaths != [] then TwitterClient.MediaFailurePrefix
                            else TwitterClient.ThreadFailurePrefix;
        result.Fail? ==>
          exists ids :: TwitterClient.Aborted(thread.tweets, mediaPaths, api, calls, ids, result.error, prefix)
    {
      var posted: Result<seq<TwitterClient.TweetId>, TwitterClient.PostError>;
      if mediaPaths != [] {
        posted, calls := TwitterClient.PostThreadWithMedia(thread.tweets, mediaPaths, api);
      } else {
        posted, calls := TwitterClient.PostThread(thread.tweets, api);
      }
      if posted.Err? {
        return Fail(posted.error), calls;
      }
      thread.tweetIds := Some(posted.value);
      result := Pass;
    }

    /** `ThreadGenerator.save_thread`: read the history (missing or not
        JSON is empty), append the thread's record, write the history back. */
    method SaveThread(thread: Thread, path: string, codec: JsonCodec, iso: IsoCodec, fault: WriteFault)
      returns (result: Outcome<StorageError>)
      modifies this
      ensures var prior := PriorHistory(old(FileAt(path)), codec);
        prior.Err? ==> result == Fail(SaveFailed(prior.error)) && files == old(files)
      ensures var prior := PriorHistory(old(FileAt(path)), codec);
        prior.Ok? ==>
          var text := HistoryText(prior.value + [EncodeRecord(thread.State(), iso)], codec);
          (fault.NoFault? ==> result == Pass && files == old(files)[path := Stored(text)]) &&
          (fault.OpenFailed? ==> result == Fail(SaveFailed(OsError(fault.reason))) && files == old(files)) &&
          (fault.Interrupted? ==>
             result == Fail(SaveFailed(OsError(fault.reason))) &&
             files == old(files)[path := Stored(PrefixOf(text, fault.kept))])
    {
      var threads: seq<Json>;
      match FileAt(path) {
        case Missing => threads := [];
        case Unreadable(reason) => return Fail(SaveFailed(OsError(reason)));
        case Stored(content) =>
          match codec.parse(content) {
            case None => threads := [];
            case Some(JArray(items)) => threads := items;
            case Some(_) => return Fail(SaveFailed(NotAList));
          }
      }
      threads := threads + [EncodeRecord(thread.State(), iso)];
      var text := codec.dump(JArray(threads));
      match fault {
        case NoFault =>
          files := files[path := Stored(text)];
          result := Pass;
        case OpenFailed(reason) =>
          result := Fail(SaveFailed(OsError(reason)));
        case Interrupted(kept, reason) =>
          files := files[path := Stored(PrefixOf(text, kept))];
          result := Fail(SaveFailed(OsError(reason)));
      }
    }

    /** `ThreadGenerator.load_threads`: a new `Thread` for every record of
        the history, in file order. */
    method LoadThreads(path: string, codec: JsonCodec, iso: IsoCodec)
      returns (result: Result<seq<Thread>, StorageError>)
      ensures var loaded := LoadedStates(FileAt(path), codec, iso);
        (result.Ok? <==> loaded.Ok?) &&
        (result.Err? ==> result.error == LoadFailed(loaded.error)) &&
        (result.Ok? ==>
           |result.value| == |loaded.value| &&
           forall i :: 0 <= i < |result.value| ==>
             fresh(result.value[i]) && result.value[i].State() == loaded.value[i])
    {
      var records := StoredRecords(FileAt(path), codec);
      if records.Err? {
        return Err(LoadFailed(records.error));
      }
      var threads: seq<Thread> := [];
      for i := 0 to |records.value|
        invariant |threads| == i
        invariant forall j :: 0 <= j < i ==> DecodeRecord(records.value[j], iso).Ok?
        invariant forall j :: 0 <= j < i ==>
          fresh(threads[j]) && threads[j].State() == DecodeRecord(records.value[j], iso).value
      {
        var thread := Thread.FromDict(records.value[i], iso);
        if thread.Err? {
          return Err(LoadFailed(BadRecord(i, thread.error)));
        }
        threads := threads + [thread.value];
      }
      result := Ok(threads);
    }
  }
}
