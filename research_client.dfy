/** The Gemini research client: how a model reply becomes a parsed value or
    an error record (`research_with_search`, `research_without_search`), and
    how the thread-writing reply becomes a list of tweets or a
    `ResearchError` (`generate_thread`).

    The Gemini call itself is not modelled: each operation receives the
    `Reply` the call produced. `json.loads` is the `Parser` parameter, a
    partial function whose `None` stands for `json.JSONDecodeError`. */
module ResearchClient {
  import opened Wrappers
  import opened JsonValues
  import opened Strings

  /** What `generate_content(...).text` gave: the reply's text, or the
      message of the exception raised on the way (network, quota, a
      blocked reply, ...). */
  datatype Reply = Text(text: string) | Raised(message: string)

  /** `json.loads` on a string: the decoded value, or `None` when it raises
      `JSONDecodeError`. */
  type Parser = string -> Option<Json>

  /** The three-backtick code fence that models wrap JSON in. */
  const Fence: string := "```"

  /** The `details` of the record returned for an empty reply. */
  const NoContentDetails: string := "The model did not return any content"

  /** The `error` field of the records the research calls return instead of raising. */
  datatype ErrorKind = NoResponse | InvalidJson | ResearchFailed

  function ErrorText(kind: ErrorKind): string {
    match kind
    case NoResponse => "No response generated"
    case InvalidJson => "Invalid JSON response"
    case ResearchFailed => "Research failed"
  }

  /** What `research_with_search` and `research_without_search` return: the
      parsed reply, or a `{"error": ..., "details": ...}` record. */
  datatype ResearchOutcome = Parsed(value: Json) | ErrorRecord(kind: ErrorKind, details: string)

  /** The dictionary a research outcome is, as `json.dumps` sees it. */
  function OutcomeJson(o: ResearchOutcome): (j: Json)
    ensures o.Parsed? ==> j == o.value
    ensures o.ErrorRecord? ==>
              j.JObject? && j.members.Keys == {"error", "details"} && j.members["details"] == JString(o.details)
  {
    match o
    case Parsed(v) => v
    case ErrorRecord(kind, details) =>
      JObject(map["error" := JString(ErrorText(kind)), "details" := JString(details)])
  }

  /** The exception `generate_thread` raises. */
  datatype ResearchError = ResearchError(message: string)

  const GenerateFailedPrefix: string := "Failed to generate thread: "

  function Lines(s: string): seq<string> {
    Split(s, '\n')
  }

  function Unlines(lines: seq<string>): string {
    Join(lines, "\n")
  }

  /** `"\n".join(s.split("\n")[1:])`: everything after the first line
      break, and nothing for a text of one line. */
  function DropFirstLine(s: string): (r: string)
    ensures '\n' !in s ==> r == ""
    ensures '\n' in s ==>
              |r| < |s| && s == s[..|s| - |r| - 1] + "\n" + r && '\n' !in s[..|s| - |r| - 1]
  {
    FirstLineSplit(s);
    Unlines(Lines(s)[1..])
  }

  /** A text is its first line, then, if it has a line break, the break
      and the later lines joined back together. */
  lemma FirstLineSplit(s: string)
    ensures var r := Unlines(Lines(s)[1..]);
            ('\n' !in s ==> r == "")
            && ('\n' in s ==>
                  |r| < |s| && s == s[..|s| - |r| - 1] + "\n" + r && '\n' !in s[..|s| - |r| - 1])
  {
    var p := Lines(s);
    JoinSplit(s, '\n');
    if '\n' !in s {
      SplitWithoutSeparator(s, '\n');
    } else {
      assert |p| != 1;
      var r := Unlines(p[1..]);
      assert s == p[0] + "\n" + r;
      assert s[..|p[0]|] == p[0];
    }
  }

  /** The language-tag test: only these two spellings, as a prefix, so a
      mixed-case `Json` is not a tag. */
  predicate HasJsonTag(s: string)
    ensures HasJsonTag(s) <==> |s| >= 4 && s[..4] in {"json", "JSON"}
    ensures StartsWith(s, "Json") ==> !HasJsonTag(s)
  {
    StartsWith(s, "json") || StartsWith(s, "JSON")
  }

  /** The clean-up of a reply's text before parsing: trim it, and when the
      trimmed text begins and ends with a fence and has more than two lines,
      keep the lines between the first and the last, dropping the first of
      those too when it starts with `json` or `JSON`. */
  function CleanResponse(raw: string): (text: string)
    ensures var t := Strip(raw);
            !(StartsWith(t, Fence) && EndsWith(t, Fence)) ==> text == t
    ensures var t := Strip(raw);
            '\n' !in t ==> text == t
    ensures var t := Strip(raw);
            |Lines(t)| <= 2 ==> text == t
  {
    CleanTrimmed(Strip(raw))
  }

  /** The clean-up after trimming: only a text that begins and ends with a
      fence and has more than two lines is changed. */
  function CleanTrimmed(t: string): (text: string)
    ensures !(StartsWith(t, Fence) && EndsWith(t, Fence)) ==> text == t
    ensures '\n' !in t ==> text == t
    ensures |Lines(t)| <= 2 ==> text == t
  {
    SingleLineUntouched(t);
    if StartsWith(t, Fence) && EndsWith(t, Fence) then
      var lines := Lines(t);
      if |lines| > 2 then
        var inner := Unlines(lines[1..|lines| - 1]);
        if HasJsonTag(inner) then DropFirstLine(inner) else inner
      else
        t
    else
      t
  }

  /** A text without a line break is one line. */
  lemma SingleLineUntouched(t: string)
    ensures '\n' !in t ==> |Lines(t)| == 1
  {
    if '\n' !in t {
      SplitWithoutSeparator(t, '\n');
    }
  }

  /** The text handed to `json.loads` by the fence-stripping callers: it
      has no whitespace at either end, and is the trimmed reply itself when
      there is no fence to take off. */
  function JsonCandidate(raw: string): (c: string)
    ensures c == [] || (c[0] !in Whitespace && c[|c| - 1] !in Whitespace)
    ensures !(StartsWith(Strip(raw), Fence) && EndsWith(Strip(raw), Fence)) ==> c == Strip(raw)
  {
    StripCharsIdempotent(raw, Whitespace);
    Strip(CleanResponse(raw))
  }

  /** The clean-up only sees the trimmed reply: whitespace around a reply
      changes neither the cleaned text nor what reaches the parser. */
  lemma CleanDependsOnTrimmed(raw: string)
    ensures CleanResponse(raw) == CleanResponse(Strip(raw))
    ensures JsonCandidate(raw) == JsonCandidate(Strip(raw))
  {
    StripCharsIdempotent(raw, Whitespace);
  }

  /** Whitespace before and after a reply whose ends are not whitespace
      (a fenced block, say) is ignored. */
  lemma PaddedReplyCleansAlike(before: string, t: string, after: string)
    requires Blank(before) && Blank(after)
    requires t != [] && t[0] !in Whitespace && t[|t| - 1] !in Whitespace
    ensures CleanResponse(before + t + after) == CleanResponse(t)
    ensures JsonCandidate(before + t + after) == JsonCandidate(t)
  {
    StripPadded(before, t, after, Whitespace);
    CleanDependsOnTrimmed(before + t + after);
    CleanDependsOnTrimmed(t);
  }

  /** `research_with_search`: an empty reply, a backend exception and a reply
      that does not parse each give their own error record; the parser only
      ever sees the cleaned text, and an unparsable reply's record carries the
      cleaned text, not the raw one. Nothing is raised. */
  function ResearchWithSearch(reply: Reply, parse: Parser): (r: ResearchOutcome)
    ensures (r.ErrorRecord? && r.kind == NoResponse) <==> reply == Text("")
    ensures reply == Text("") ==> r.details == NoContentDetails
    ensures (r.ErrorRecord? && r.kind == ResearchFailed) <==> reply.Raised?
    ensures reply.Raised? ==> r.details == reply.message
    ensures r.Parsed? <==> reply.Text? && reply.text != "" && parse(JsonCandidate(reply.text)).Some?
    ensures r.Parsed? ==> parse(JsonCandidate(reply.text)) == Some(r.value)
    ensures r.ErrorRecord? && r.kind == InvalidJson ==> r.details == CleanResponse(reply.text)
  {
    match reply
    case Raised(message) => ErrorRecord(ResearchFailed, message)
    case Text(s) =>
      if s == "" then ErrorRecord(NoResponse, NoContentDetails)
      else
        var text := CleanResponse(s);
        match parse(Strip(text))
        case Some(v) => Parsed(v)
        case None => ErrorRecord(InvalidJson, text)
  }

  /** `research_without_search`: the same classification, but the raw reply
      text goes to the parser untouched (no trimming, no fence removal) and an
      unparsable reply's record carries that raw text. */
  function ResearchWithoutSearch(reply: Reply, parse: Parser): (r: ResearchOutcome)
    ensures (r.ErrorRecord? && r.kind == NoResponse) <==> reply == Text("")
    ensures reply == Text("") ==> r.details == NoContentDetails
    ensures (r.ErrorRecord? && r.kind == ResearchFailed) <==> reply.Raised?
    ensures reply.Raised? ==> r.details == reply.message
    ensures r.Parsed? <==> reply.Text? && reply.text != "" && parse(reply.text).Some?
    ensures r.Parsed? ==> parse(reply.text) == Some(r.value)
    ensures r.ErrorRecord? && r.kind == InvalidJson ==> r.details == reply.text
  {
    match reply
    case Raised(message) => ErrorRecord(ResearchFailed, message)
    case Text(s) =>
      if s == "" then ErrorRecord(NoResponse, NoContentDetails)
      else
        match parse(s)
        case Some(v) => Parsed(v)
        case None => ErrorRecord(InvalidJson, s)
  }

  /** `generate_thread`: a list of tweets only when the cleaned reply parses
      to a non-empty JSON array; every other case raises a `ResearchError`
      whose message starts with "Failed to generate thread: ", because the
      errors raised inside the `try` are caught again and re-wrapped. */
  function GenerateThread(reply: Reply, parse: Parser): (r: Result<seq<Json>, ResearchError>)
    ensures r.Ok? ==> r.value != [] && reply.Text? && reply.text != ""
                      && parse(JsonCandidate(reply.text)) == Some(JArray(r.value))
    ensures (reply.Text? && reply.text != "" && parse(JsonCandidate(reply.text)).Some?
             && parse(JsonCandidate(reply.text)).value.JArray?
             && parse(JsonCandidate(reply.text)).value.items != []) ==> r.Ok?
    ensures r.Err? ==> StartsWith(r.error.message, GenerateFailedPrefix)
  {
    match reply
    case Raised(message) => Err(ResearchError(GenerateFailedPrefix + message))
    case Text(s) =>
      if s == "" then Err(ResearchError(GenerateFailedPrefix + "No response generated"))
      else
        var text := CleanResponse(s);
        match parse(Strip(text))
        case None => Err(ResearchError(GenerateFailedPrefix + "Failed to parse tweets: " + text))
        case Some(v) =>
          if v.JArray? && v.items != [] then Ok(v.items)
          else Err(ResearchError(GenerateFailedPrefix + "Invalid tweet list format"))
  }

  /** An empty reply is answered without consulting the parser. */
  lemma EmptyReplySkipsParser(p: Parser, q: Parser)
    ensures ResearchWithSearch(Text(""), p) == ResearchWithSearch(Text(""), q)
    ensures ResearchWithoutSearch(Text(""), p) == ResearchWithoutSearch(Text(""), q)
    ensures GenerateThread(Text(""), p) == GenerateThread(Text(""), q)
  {
  }

  /** `generate_thread` cleans the reply exactly as `research_with_search`
      does: it succeeds exactly when the research call would have parsed the
      same reply to a non-empty array, with the same items, and each of its
      errors carries what the research call's error record carries. */
  lemma GenerateThreadSharesCleanup(reply: Reply, parse: Parser)
    ensures var o := ResearchWithSearch(reply, parse);
            var g := GenerateThread(reply, parse);
            && (g.Ok? <==> o.Parsed? && o.value.JArray? && o.value.items != [])
            && (g.Ok? ==> o.value == JArray(g.value))
            && (o.ErrorRecord? ==> g.Err?)
            && (o == ErrorRecord(NoResponse, NoContentDetails) ==>
                  g.error.message == GenerateFailedPrefix + "No response generated")
            && (o.ErrorRecord? && o.kind == InvalidJson ==>
                  g.error.message == GenerateFailedPrefix + "Failed to parse tweets: " + o.details)
            && (o.ErrorRecord? && o.kind == ResearchFailed ==>
                  g.error.message == GenerateFailedPrefix + o.details)
  {
    match reply
    case Raised(message) =>
    case Text(s) =>
      if s != "" {
        var text := CleanResponse(s);
        assert JsonCandidate(s) == Strip(text);
        match parse(Strip(text)) {
          case None =>
          case Some(v) =>
        }
      }
  }

  /** The first line is dropped whole; a text of one line leaves nothing. */
  lemma DropFirstLineOf(first: string, rest: string)
    requires '\n' !in first
    ensures DropFirstLine(first) == ""
    ensures DropFirstLine(first + "\n" + rest) == rest
  {
    SplitWithoutSeparator(first, '\n');
    SplitAround(first, '\n', rest);
    assert first + "\n" + rest == first + ['\n'] + rest;
    JoinSplit(rest, '\n');
  }

  /** A block from a line starting with the fence to a line ending with it
      starts and ends with the fence. */
  lemma FencedBlockEnds(opening: string, body: string, closing: string)
    requires StartsWith(opening, Fence) && EndsWith(closing, Fence)
    ensures var block := opening + "\n" + body + "\n" + closing;
            StartsWith(block, Fence) && EndsWith(block, Fence)
            && block[0] == '`' && block[|block| - 1] == '`'
  {
    var block := opening + "\n" + body + "\n" + closing;
    assert block[..3] == opening[..3];
    assert block[|block| - 3..] == closing[|closing| - 3..];
  }

  /** A fenced block: an opening line that starts with the fence, the body,
      and a closing line that ends with it. The whole opening and closing
      lines go (so a tag written on the opening line, as in `` ```json ``,
      goes with it), and a body that starts with `json`/`JSON` loses its
      first line as well. */
  lemma {:induction false} CleanFencedBlock(opening: string, body: string, closing: string)
    requires StartsWith(opening, Fence) && '\n' !in opening
    requires EndsWith(closing, Fence) && '\n' !in closing
    ensures CleanResponse(opening + "\n" + body + "\n" + closing)
            == if HasJsonTag(body) then DropFirstLine(body) else body
  {
    var block := opening + "\n" + body + "\n" + closing;
    FencedBlockEnds(opening, body, closing);
    assert Strip(block) == block;
    FencedBlockLines(opening, body, closing);
    var lines := Lines(block);
    assert lines[1..|lines| - 1] == Lines(body);
    JoinSplit(body, '\n');
    assert Unlines(lines[1..|lines| - 1]) == body;
  }

  /** The lines of a fenced block: the opening line, the body's lines, the
      closing line. */
  lemma FencedBlockLines(opening: string, body: string, closing: string)
    requires '\n' !in opening && '\n' !in closing
    ensures Lines(opening + "\n" + body + "\n" + closing) == [opening] + Lines(body) + [closing]
  {
    var block := opening + "\n" + body + "\n" + closing;
    assert block == opening + ['\n'] + (body + ['\n'] + closing);
    SplitAround(opening, '\n', body + ['\n'] + closing);
    SplitAround(body, '\n', closing);
    SplitWithoutSeparator(opening, '\n');
    SplitWithoutSeparator(closing, '\n');
  }

  /** The reply `opening`, optionally a tag line, `content`, closing fence. */
  function Fenced(opening: string, tag: Option<string>, content: string): string {
    opening + "\n" + (if tag.Some? then tag.value + "\n" else "") + content + "\n" + Fence
  }

  /** The first and last characters of a fenced reply are backticks. */
  lemma FencedEnds(opening: string, tag: Option<string>, content: string)
    requires StartsWith(opening, Fence)
    ensures var f := Fenced(opening, tag, content);
            f != [] && f[0] == '`' && f[|f| - 1] == '`'
  {
    var f := Fenced(opening, tag, content);
    assert f[0] == opening[0];
    assert f[|f| - 1] == Fence[2];
  }

  /** Cleaning a fenced reply leaves exactly its content, whether the
      tag is on the opening line, on a line of its own, or absent, and
      whatever whitespace surrounds the block. */
  lemma CleanFencedContent(before: string, opening: string, tag: Option<string>, content: string, after: string)
    requires Blank(before) && Blank(after)
    requires StartsWith(opening, Fence) && '\n' !in opening
    requires tag.Some? ==> HasJsonTag(tag.value) && '\n' !in tag.value
    requires tag.None? ==> !HasJsonTag(content)
    ensures CleanResponse(before + Fenced(opening, tag, content) + after) == content
  {
    FencedEnds(opening, tag, content);
    PaddedReplyCleansAlike(before, Fenced(opening, tag, content), after);
    CleanBareFence(opening, tag, content);
  }

  /** The same without surrounding whitespace. */
  lemma CleanBareFence(opening: string, tag: Option<string>, content: string)
    requires StartsWith(opening, Fence) && '\n' !in opening
    requires tag.Some? ==> HasJsonTag(tag.value) && '\n' !in tag.value
    requires tag.None? ==> !HasJsonTag(content)
    ensures CleanResponse(Fenced(opening, tag, content)) == content
  {
    match tag
    case None => CleanUntaggedFence(opening, content);
    case Some(t) => CleanTaggedFence(opening, t, content);
  }

  /** A fenced reply without a tag line cleans to its content. */
  lemma CleanUntaggedFence(opening: string, content: string)
    requires StartsWith(opening, Fence) && '\n' !in opening
    requires !HasJsonTag(content)
    ensures CleanResponse(Fenced(opening, None, content)) == content
  {
    assert EndsWith(Fence, Fence);
    assert Fenced(opening, None, content) == opening + "\n" + content + "\n" + Fence;
    CleanFencedBlock(opening, content, Fence);
  }

  /** A fenced reply with a tag line cleans to what follows the tag line. */
  lemma CleanTaggedFence(opening: string, t: string, content: string)
    requires StartsWith(opening, Fence) && '\n' !in opening
    requires HasJsonTag(t) && '\n' !in t
    ensures CleanResponse(Fenced(opening, Some(t), content)) == content
  {
    var body := t + "\n" + content;
    assert HasJsonTag(body) by {
      assert body[..4] == t[..4];
    }
    assert CleanResponse(Fenced(opening, Some(t), content)) == DropFirstLine(body) by {
      assert EndsWith(Fence, Fence);
      assert Fenced(opening, Some(t), content) == opening + "\n" + body + "\n" + Fence;
      CleanFencedBlock(opening, body, Fence);
    }
    assert DropFirstLine(body) == content by {
      DropFirstLineOf(t, content);
    }
  }

  /** A reply wrapped in a fenced block, with the tag on the opening line, on
      a line of its own, or absent, and with any whitespace around it, hands
      the parser the same text as the bare content, so it parses to the same
      value. */
  lemma FencedMatchesUnwrapped(before: string, opening: string, tag: Option<string>, content: string,
                               after: string, parse: Parser, reply: string)
    requires reply == before + Fenced(opening, tag, content) + after
    requires Blank(before) && Blank(after)
    requires StartsWith(opening, Fence) && '\n' !in opening
    requires tag.Some? ==> HasJsonTag(tag.value) && '\n' !in tag.value
    requires tag.None? ==> !HasJsonTag(content)
    requires !StartsWith(Strip(content), Fence)
    ensures JsonCandidate(reply) == JsonCandidate(content)
    ensures content != "" ==>
              ResearchWithSearch(Text(reply), parse).Parsed? == ResearchWithSearch(Text(content), parse).Parsed?
    ensures content != "" && ResearchWithSearch(Text(content), parse).Parsed? ==>
              ResearchWithSearch(Text(reply), parse) == ResearchWithSearch(Text(content), parse)
  {
    FencedCandidate(before, opening, tag, content, after);
    FencedEnds(opening, tag, content);
    assert reply != "";
    if content != "" {
      SameCandidateSameResearch(reply, content, parse);
    }
  }

  /** The text a padded fenced reply hands the parser is that of its content. */
  lemma FencedCandidate(before: string, opening: string, tag: Option<string>, content: string, after: string)
    requires Blank(before) && Blank(after)
    requires StartsWith(opening, Fence) && '\n' !in opening
    requires tag.Some? ==> HasJsonTag(tag.value) && '\n' !in tag.value
    requires tag.None? ==> !HasJsonTag(content)
    requires !StartsWith(Strip(content), Fence)
    ensures JsonCandidate(before + Fenced(opening, tag, content) + after) == JsonCandidate(content)
  {
    CleanFencedContent(before, opening, tag, content, after);
    StripCharsIdempotent(content, Whitespace);
  }

  /** Two non-empty replies that hand the parser the same text get the same
      research outcome whenever either parses. */
  lemma SameCandidateSameResearch(a: string, b: string, parse: Parser)
    requires a != "" && b != "" && JsonCandidate(a) == JsonCandidate(b)
    ensures ResearchWithSearch(Text(a), parse).Parsed? == ResearchWithSearch(Text(b), parse).Parsed?
    ensures ResearchWithSearch(Text(b), parse).Parsed? ==>
              ResearchWithSearch(Text(a), parse) == ResearchWithSearch(Text(b), parse)
  {
  }
}
