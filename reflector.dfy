/** The reflection service: endpoint normalisation and client gating at
    construction, and the chain that turns one chat-completion reply into a
    parsed JSON value or `None` (strip, drop Markdown fences, decode, else
    decode the greedy `{...}` span), with the fixed silence record as the
    fallback of `reflect`. */
module Reflector {
  import opened Wrappers
  import opened Text
  import opened JsonValues

  // ---------------------------------------------------------------------
  // The fallback record
  // ---------------------------------------------------------------------

  const ReflectionText: string :=
    "You spoke about something that has been sitting with you, and for now it does not need to be "
    + "turned into clearer language or shaped into meaning. This moment can end here, without carrying "
    + "anything forward."

  /** A flashcard: a string title and exactly three string bullets. */
  predicate IsFlashcard(card: Json) {
    Field(card, "title").Some? && Field(card, "title").value.Str?
    && Field(card, "bullets").Some? && Field(card, "bullets").value.Array?
    && |Field(card, "bullets").value.items| == 3
    && forall b <- Field(card, "bullets").value.items :: b.Str?
  }

  /** The record shape the caller relies on: a string reflection, a flashcard
      and a confidence between 0 and 1. */
  predicate IsReflectionRecord(v: Json) {
    Field(v, "reflection").Some? && Field(v, "reflection").value.Str?
    && Field(v, "flashcard").Some? && IsFlashcard(Field(v, "flashcard").value)
    && Field(v, "confidence").Some?
    && match Field(v, "confidence").value
       case Float(f) => 0.0 <= f <= 1.0
       case Int(i) => 0 <= i <= 1
       case _ => false
  }

  /** The flashcard of `SILENCE_FALLBACK`. */
  function HeldCard(): (c: Json)
    ensures IsFlashcard(c)
    ensures Field(c, "title") == Some(Str("Held"))
    ensures Field(c, "bullets") == Some(Array([Str("Spoken"), Str("Received"), Str("Released")]))
  {
    var bullets := Array([Str("Spoken"), Str("Received"), Str("Released")]);
    LookupTwo("title", Str("Held"), "bullets", bullets);
    Object([("title", Str("Held")), ("bullets", bullets)])
  }

  /** `SILENCE_FALLBACK`. */
  function SilenceFallback(): (r: Json)
    ensures IsReflectionRecord(r) && Truthy(r)
    ensures Field(r, "reflection") == Some(Str(ReflectionText))
    ensures Field(Field(r, "flashcard").GetOr(Null), "title") == Some(Str("Held"))
    ensures Field(Field(r, "flashcard").GetOr(Null), "bullets")
         == Some(Array([Str("Spoken"), Str("Received"), Str("Released")]))
    ensures Field(r, "confidence") == Some(Float(0.1))
  {
    var card := HeldCard();
    LookupThree("reflection", Str(ReflectionText), "flashcard", card, "confidence", Float(0.1));
    Object([("reflection", Str(ReflectionText)), ("flashcard", card), ("confidence", Float(0.1))])
  }

  // ---------------------------------------------------------------------
  // Construction
  // ---------------------------------------------------------------------

  /** The endpoint as given, with `https://` put in front when it is neither
      empty nor already starts with `http://` or `https://`. */
  function NormalizeEndpoint(endpoint: string): (r: string)
    ensures r == endpoint
        <==> endpoint == "" || StartsWith(endpoint, "http://") || StartsWith(endpoint, "https://")
    ensures r != endpoint ==> r == "https://" + endpoint
    ensures r == "" <==> endpoint == ""
    ensures r == "" || StartsWith(r, "http://") || StartsWith(r, "https://")
  {
    if endpoint != "" && !StartsWith(endpoint, "http://") && !StartsWith(endpoint, "https://") then
      var r := "https://" + endpoint;
      assert r[..8] == "https://";
      r
    else
      endpoint
  }

  lemma NormalizeEndpointIdempotent(endpoint: string)
    ensures NormalizeEndpoint(NormalizeEndpoint(endpoint)) == NormalizeEndpoint(endpoint)
  {
  }

  /** The variables read from the environment (`None` when unset). */
  datatype Environment = Environment(
    apiKey: Option<string>,        // OPENAI_API_KEY
    apiBase: Option<string>,       // OPENAI_API_BASE
    apiVersion: Option<string>,    // OPENAI_API_VERSION
    deploymentName: Option<string> // OPENAI_DEPLOYMENT_NAME
  )

  const DefaultApiVersion: string := "2024-12-01-preview"
  const TokenLimit: int := 800

  /** What the Azure OpenAI client is built from. */
  datatype AzureClient = AzureClient(apiKey: string, endpoint: string, apiVersion: string)

  // ---------------------------------------------------------------------
  // One chat completion and its outcomes
  // ---------------------------------------------------------------------

  /** The call the service makes: deployment name, the user message (the
      transcript; the fixed system prompt is not modelled) and the token cap. */
  datatype ChatRequest = ChatRequest(model: Option<string>, transcript: string, maxCompletionTokens: int)

  /** What `client.chat.completions.create` gives back: an exception, an empty
      `choices` list, a first choice without a message or without content, or
      the content string of the first choice's message. */
  datatype ChatOutcome = CallRaised | NoChoices | NoContent | Content(text: string)

  /** What `json.loads` does with one string: a value, a `JSONDecodeError`, or
      another exception (such as `RecursionError` on deep nesting). */
  datatype Decoded = Parsed(value: Json) | JsonDecodeError | OtherException

  // ---------------------------------------------------------------------
  // Cleaning
  // ---------------------------------------------------------------------

  /** Three backticks at `k`, character by character. */
  lemma TicksAt(s: string, k: int)
    ensures At(s, "```", k) <==> 0 <= k && k + 3 <= |s| && s[k] == '`' && s[k + 1] == '`' && s[k + 2] == '`'
  {
    if 0 <= k && k + 3 <= |s| {
      assert s[k..k + 3] == [s[k], s[k + 1], s[k + 2]];
    }
  }

  /** `replace("```", "")` leaves no "```" behind: the first occurrence is
      never preceded by a backtick, so no run can re-form across a deletion. */
  lemma {:induction false} RemoveAllTicksLeavesNone(s: string)
    ensures !Contains(RemoveAll(s, "```"), "```")
    decreases |s|
  {
    match Find(s, "```")
    case None =>
    case Some(i) =>
      var rest := s[i + 3..];
      RemoveAllTicksLeavesNone(rest);
      var tail := RemoveAll(rest, "```");
      var r := s[..i] + tail;
      assert RemoveAll(s, "```") == r;
      TicksAt(s, i);
      if i > 0 {
        TicksAt(s, i - 1);
        assert s[i - 1] != '`';
      }
      forall k ensures !At(r, "```", k) {
        TicksAt(r, k);
        if 0 <= k && k + 3 <= |r| {
          if k + 3 <= i {
            TicksAt(s, k);
            assert r[k] == s[k] && r[k + 1] == s[k + 1] && r[k + 2] == s[k + 2];
          } else if k >= i {
            TicksAt(tail, k - i);
            assert r[k] == tail[k - i] && r[k + 1] == tail[k - i + 1] && r[k + 2] == tail[k - i + 2];
          } else {
            assert r[i - 1] == s[i - 1];
          }
        }
      }
  }

  /** `.replace("```json", "").replace("```", "")`: no "```" is left. */
  function Unfence(s: string): (r: string)
    ensures !Contains(r, "```")
  {
    RemoveAllTicksLeavesNone(RemoveAll(s, "```json"));
    RemoveAll(RemoveAll(s, "```json"), "```")
  }

  /** `content.strip()`, then `.replace("```json", "").replace("```", "").strip()`:
      the result holds no "```" and has no surrounding whitespace. */
  function Clean(content: string): (r: string)
    ensures !Contains(r, "```")
    ensures Trimmed(r)
  {
    StripKeepsAbsence(Unfence(Strip(content)), "```");
    Strip(Unfence(Strip(content)))
  }

  /** Text with no backtick passes `Unfence` unchanged. */
  lemma UnfenceKeepsPlainText(body: string)
    requires '`' !in body
    ensures Unfence(body) == body
  {
    AbsentLead(body, "```json");
    AbsentLead(body, "```");
  }

  /** Text with no backtick that `strip()` leaves alone is its own cleaning. */
  lemma CleanKeepsPlainText(body: string)
    requires '`' !in body && Trimmed(body)
    ensures Clean(body) == body
  {
    assert [] + body + [] == body;
    StripUnique([], body, []);
    UnfenceKeepsPlainText(body);
  }

  /** The fenced text starts and ends with a backtick, so `strip()` keeps it. */
  lemma StripKeepsFence(body: string)
    ensures Strip("```json\n" + body + "\n```") == "```json\n" + body + "\n```"
  {
    var f := "```json\n" + body + "\n```";
    assert [] + f + [] == f;
    StripUnique([], f, []);
  }

  /** Only the opening "```json" goes in the first replacement. */
  lemma OpeningFenceRemoved(body: string)
    requires '`' !in body
    ensures RemoveAll("```json\n" + body + "\n```", "```json") == "\n" + body + "\n```"
  {
    var g := "\n" + body + "\n```";
    assert "```json\n" + body + "\n```" == "```json" + g;
    RemoveAllLeading("```json", g);
    NoOpeningAfterFence(body);
  }

  /** Past the opening fence, no "```json" is left: the only backticks are
      the three closing ones, too few for it. */
  lemma NoOpeningAfterFence(body: string)
    requires '`' !in body
    ensures !Contains("\n" + body + "\n```", "```json")
  {
    var g := "\n" + body + "\n```";
    forall k | 0 <= k < |g| - 3 ensures g[k] != '`' {
      if 1 <= k <= |body| { assert g[k] == body[k - 1]; }
    }
    forall k ensures !At(g, "```json", k) {
      if 0 <= k && k + 7 <= |g| {
        assert g[k..k + 7][0] == g[k];
      }
    }
  }

  /** The closing fence is the first "```" left, and the last thing. */
  lemma ClosingFenceRemoved(body: string)
    requires '`' !in body
    ensures RemoveAll("\n" + body + "\n```", "```") == "\n" + body + "\n"
  {
    var g := "\n" + body + "\n```";
    var m := |g| - 3;
    forall k | 0 <= k < m ensures g[k] != '`' {
      if 1 <= k <= |body| { assert g[k] == body[k - 1]; }
    }
    TicksAt(g, m);
    var j := Find(g, "```").value;
    TicksAt(g, j);
    assert j == m;
    assert g[m + 3..] == [];
    assert g[..m] == "\n" + body + "\n";
  }

  /** A reply wrapped in a "```json" fence cleans to what the bare reply
      cleans to. */
  lemma FenceIsRemoved(body: string)
    requires '`' !in body
    ensures Clean("```json\n" + body + "\n```") == Clean(body)
  {
    var f := "```json\n" + body + "\n```";
    calc {
      Clean(f);
      Strip(Unfence(Strip(f)));
      { StripKeepsFence(body); }
      Strip(RemoveAll(RemoveAll(f, "```json"), "```"));
      { OpeningFenceRemoved(body); }
      Strip(RemoveAll("\n" + body + "\n```", "```"));
      { ClosingFenceRemoved(body); }
      Strip("\n" + body + "\n");
      { StripIgnoresSurroundingSpace("\n", body, "\n"); }
      Strip(body);
    }
    var t := Strip(body);
    var u1, u2 := StripParts(body);
    forall k | 0 <= k < |t| ensures t[k] != '`' { assert t[k] == body[|u1| + k]; }
    calc {
      Clean(body);
      Strip(Unfence(t));
      { UnfenceKeepsPlainText(t); }
      Strip(t);
      { StripIdempotent(body); }
      t;
    }
  }

  // ---------------------------------------------------------------------
  // Extraction: re.search(r"\{[\s\S]*\}", cleaned)
  // ---------------------------------------------------------------------

  /** `match.span()`: the match is `s[start..end]`. */
  datatype Span = Span(start: nat, end: nat)

  /** The span from the first `{` to the last `}`, when a `}` follows the
      first `{`. */
  function BraceSpan(s: string): (r: Option<Span>)
    ensures r.Some? <==> exists i, j | 0 <= i < j < |s| :: s[i] == '{' && s[j] == '}'
    ensures r.Some? ==> r.value.start + 2 <= r.value.end <= |s|
    ensures r.Some? ==> s[r.value.start] == '{' && forall k | 0 <= k < r.value.start :: s[k] != '{'
    ensures r.Some? ==> s[r.value.end - 1] == '}' && forall k | r.value.end <= k < |s| :: s[k] != '}'
  {
    match FirstIndexOf(s, '{')
    case None => None
    case Some(i) =>
      match LastIndexOf(s, '}')
      case None => None
      case Some(j) => if i < j then Some(Span(i, j + 1)) else None
  }

  /** The regex engine's own reading of `[\s\S]*\}` after the `{` at `i`:
      greedy, so it tries the longest candidate ending at `e` first and
      backtracks one character at a time. */
  function Backtrack(s: string, i: nat, e: nat): (r: Option<nat>)
    requires i < e <= |s|
    ensures r.Some? ==> i + 2 <= r.value <= e && s[r.value - 1] == '}'
    ensures r.Some? ==> forall k | r.value <= k < e :: s[k] != '}'
    ensures r.None? ==> forall k | i < k < e :: s[k] != '}'
    decreases e
  {
    if e < i + 2 then None
    else if s[e - 1] == '}' then Some(e)
    else Backtrack(s, i, e - 1)
  }

  /** `re.search` from position `i`: the leftmost start at which the pattern
      matches, with the greedy end found there. */
  function SearchFrom(s: string, i: nat): (r: Option<Span>)
    requires i <= |s|
    ensures r.Some? ==> i <= r.value.start && r.value.start + 2 <= r.value.end <= |s|
    ensures r.Some? ==> s[r.value.start] == '{' && s[r.value.end - 1] == '}'
    decreases |s| - i
  {
    if i == |s| then None
    else if s[i] == '{' && Backtrack(s, i, |s|).Some? then Some(Span(i, Backtrack(s, i, |s|).value))
    else SearchFrom(s, i + 1)
  }

  lemma {:induction false} SearchFromWithoutClose(s: string, i: nat)
    requires i <= |s|
    requires forall k | i <= k < |s| :: s[k] != '}'
    ensures SearchFrom(s, i) == None
    decreases |s| - i
  {
    if i < |s| {
      SearchFromWithoutClose(s, i + 1);
    }
  }

  lemma {:induction false} SearchFromIsBraceSpan(s: string, i: nat)
    requires i <= |s|
    requires forall k | 0 <= k < i :: s[k] != '{'
    ensures SearchFrom(s, i) == BraceSpan(s)
    decreases |s| - i
  {
    if i == |s| {
    } else if s[i] == '{' {
      var b := Backtrack(s, i, |s|);
      if b.Some? {
        var e := b.value;
        assert s[i] == '{' && s[e - 1] == '}' && i < e - 1;
        var r := BraceSpan(s);
        assert r.value.start == i;
        assert r.value.end == e;
      } else {
        SearchFromWithoutClose(s, i + 1);
        assert forall a, c | 0 <= a < c < |s| && s[a] == '{' :: s[c] != '}';
      }
    } else {
      SearchFromIsBraceSpan(s, i + 1);
    }
  }

  /** The leftmost-longest search and the first-`{`-to-last-`}` span agree. */
  lemma RegexSearchIsBraceSpan(s: string)
    ensures SearchFrom(s, 0) == BraceSpan(s)
  {
    SearchFromIsBraceSpan(s, 0);
  }

  /** `match.group(0)`, or `None` when there is no match. */
  function MatchGroup(s: string): (r: Option<string>)
    ensures r.Some? <==> exists i, j | 0 <= i < j < |s| :: s[i] == '{' && s[j] == '}'
    ensures r.Some? ==> |r.value| >= 2 && r.value[0] == '{' && r.value[|r.value| - 1] == '}'
  {
    match BraceSpan(s)
    case None => None
    case Some(span) => Some(s[span.start..span.end])
  }

  /** Prose around one object: the object is what the search finds. */
  lemma EmbeddedObjectIsExtracted(before: string, obj: string, after: string)
    requires forall k | 0 <= k < |before| :: before[k] != '{'
    requires forall k | 0 <= k < |after| :: after[k] != '}'
    requires |obj| >= 2 && obj[0] == '{' && obj[|obj| - 1] == '}'
    ensures MatchGroup(before + obj + after) == Some(obj)
  {
    var s := before + obj + after;
    var i, j := |before|, |before| + |obj| - 1;
    assert s[i] == '{' && s[j] == '}';
    var span := BraceSpan(s).value;
    assert forall k | 0 <= k < i :: s[k] == before[k];
    assert forall k | j < k < |s| :: s[k] == after[k - j - 1];
    assert span.start == i;
    assert span.end == j + 1;
    assert s[i..j + 1] == obj;
  }

  // ---------------------------------------------------------------------
  // _call_model
  // ---------------------------------------------------------------------

  /** The decoding part of `_call_model`, on the cleaned text: the direct
      decode first; after a `JSONDecodeError` the matched span; `None` for
      everything else. */
  function ParseCleaned(cleaned: string, decode: string -> Decoded): (r: Option<Json>)
    ensures decode(cleaned).Parsed? ==> r == Some(decode(cleaned).value)
    ensures decode(cleaned).OtherException? ==> r == None
    ensures r.Some? ==>
      (decode(cleaned) == Parsed(r.value)
       || (decode(cleaned).JsonDecodeError? && MatchGroup(cleaned).Some?
           && decode(MatchGroup(cleaned).value) == Parsed(r.value)))
    ensures decode(cleaned).JsonDecodeError? && MatchGroup(cleaned).Some?
            && decode(MatchGroup(cleaned).value).Parsed?
        ==> r == Some(decode(MatchGroup(cleaned).value).value)
  {
    match decode(cleaned)
    case Parsed(v) => Some(v)
    case OtherException => None
    case JsonDecodeError =>
      match MatchGroup(cleaned)
      case None => None
      case Some(g) => if decode(g).Parsed? then Some(decode(g).value) else None
  }

  /** `_call_model` on the reply of the chat call: every failure is `None`. */
  function CallModel(reply: ChatOutcome, decode: string -> Decoded): (r: Option<Json>)
    ensures !reply.Content? ==> r == None
    ensures reply == Content("") ==> r == None
    ensures reply.Content? && reply.text != "" ==> r == ParseCleaned(Clean(reply.text), decode)
  {
    match reply
    case Content(text) => if text == "" then None else ParseCleaned(Clean(text), decode)
    case _ => None
  }

  /** A non-empty reply whose cleaned text decodes gives that value. */
  lemma CleanedReplyDecodes(reply: string, decode: string -> Decoded, v: Json)
    requires reply != "" && decode(Clean(reply)) == Parsed(v)
    ensures CallModel(Content(reply), decode) == Some(v)
  {
  }

  /** When the direct decode succeeds, nothing after it is consulted: two
      decoders that agree on the cleaned text give the same result. */
  lemma DirectDecodeDecides(reply: string, d1: string -> Decoded, d2: string -> Decoded)
    requires d1(Clean(reply)) == d2(Clean(reply)) && d1(Clean(reply)).Parsed?
    ensures CallModel(Content(reply), d1) == CallModel(Content(reply), d2)
  {
  }

  /** A fenced reply is read exactly as the bare reply would be. */
  lemma FencedReplyReadsAsBare(body: string, decode: string -> Decoded)
    requires '`' !in body && body != ""
    ensures CallModel(Content("```json\n" + body + "\n```"), decode) == CallModel(Content(body), decode)
  {
    FenceIsRemoved(body);
  }

  /** A model that answers with a fenced JSON text gets that value back. */
  lemma FencedJsonIsDecoded(body: string, decode: string -> Decoded)
    requires '`' !in body && body != "" && Trimmed(body)
    requires decode(body).Parsed?
    ensures CallModel(Content("```json\n" + body + "\n```"), decode) == Some(decode(body).value)
  {
    FenceIsRemoved(body);
    CleanKeepsPlainText(body);
  }

  /** Prose before and after one object: when the whole text does not decode
      but the object does, the object's value is returned. */
  lemma ObjectInProseIsDecoded(before: string, obj: string, after: string, decode: string -> Decoded)
    requires forall k | 0 <= k < |before| :: before[k] != '{'
    requires forall k | 0 <= k < |after| :: after[k] != '}'
    requires |obj| >= 2 && obj[0] == '{' && obj[|obj| - 1] == '}'
    requires decode(before + obj + after) == JsonDecodeError && decode(obj).Parsed?
    ensures ParseCleaned(before + obj + after, decode) == Some(decode(obj).value)
  {
    EmbeddedObjectIsExtracted(before, obj, after);
  }

  // ---------------------------------------------------------------------
  // The service
  // ---------------------------------------------------------------------

  class ReflectorService {
    var client: Option<AzureClient>
    var model: Option<string>
    var tokenLimit: int

    /** `__init__`: `clientFails` says whether building the Azure client raises. */
    constructor (env: Environment, clientFails: bool)
      ensures client.Some?
          <==> IsSet(env.apiKey) && IsSet(env.apiBase) && IsSet(env.deploymentName) && !clientFails
      ensures client.Some? ==> client.value == AzureClient(
        env.apiKey.value, NormalizeEndpoint(env.apiBase.value), env.apiVersion.GetOr(DefaultApiVersion))
      ensures model == env.deploymentName && tokenLimit == TokenLimit
    {
      var apiKey := env.apiKey;
      var endpoint := env.apiBase.GetOr("");
      var apiVersion := env.apiVersion.GetOr(DefaultApiVersion);
      var deploymentName := env.deploymentName;
      endpoint := NormalizeEndpoint(endpoint);
      if !IsSet(apiKey) || endpoint == "" {
        client := None;
      } else if !IsSet(deploymentName) {
        client := None;
      } else if clientFails {
        client := None;
      } else {
        client := Some(AzureClient(apiKey.value, endpoint, apiVersion));
      }
      model := deploymentName;
      tokenLimit := TokenLimit;
    }

    /** The request `_call_model` sends for a transcript. */
    function Request(transcript: string): ChatRequest
      reads this
    {
      ChatRequest(model, transcript, tokenLimit)
    }

    /** `reflect`: the silence record when there is no client or the model
        gave nothing truthy, the decoded value otherwise (its shape is not
        checked). `chat` stands for the remote completion service. */
    function Reflect(transcript: string, chat: ChatRequest -> ChatOutcome, decode: string -> Decoded): (r: Json)
      reads this
      ensures Truthy(r)
      ensures client.None? ==> r == SilenceFallback()
      ensures r != SilenceFallback() ==> client.Some? && CallModel(chat(Request(transcript)), decode) == Some(r)
      ensures client.Some? && CallModel(chat(Request(transcript)), decode).Some? ==>
        (r == CallModel(chat(Request(transcript)), decode).value
         <==> Truthy(CallModel(chat(Request(transcript)), decode).value))
    {
      if client.None? then SilenceFallback()
      else
        match CallModel(chat(Request(transcript)), decode)
        case Some(v) => if Truthy(v) then v else SilenceFallback()
        case None => SilenceFallback()
    }
  }

  /** Without a client, the completion service is never consulted. */
  lemma NoClientNoCall(svc: ReflectorService, transcript: string,
                       chat1: ChatRequest -> ChatOutcome, chat2: ChatRequest -> ChatOutcome,
                       decode: string -> Decoded)
    requires svc.client.None?
    ensures svc.Reflect(transcript, chat1, decode) == svc.Reflect(transcript, chat2, decode) == SilenceFallback()
  {
  }

  /** The completion service is consulted only with the transcript as given,
      the deployment name and the token cap: two services that agree on that
      one request give the same reflection. */
  lemma ReflectAsksOnlyTheRequest(svc: ReflectorService, transcript: string,
                                  chat1: ChatRequest -> ChatOutcome, chat2: ChatRequest -> ChatOutcome,
                                  decode: string -> Decoded)
    requires chat1(ChatRequest(svc.model, transcript, svc.tokenLimit))
          == chat2(ChatRequest(svc.model, transcript, svc.tokenLimit))
    ensures svc.Reflect(transcript, chat1, decode) == svc.Reflect(transcript, chat2, decode)
  {
  }

  /** A truthy value from `_call_model` is what `reflect` returns. */
  lemma TruthyResultIsReturned(svc: ReflectorService, transcript: string,
                               chat: ChatRequest -> ChatOutcome, decode: string -> Decoded, v: Json)
    requires svc.client.Some? && Truthy(v)
    requires CallModel(chat(svc.Request(transcript)), decode) == Some(v)
    ensures svc.Reflect(transcript, chat, decode) == v
  {
  }

  /** Whatever truthy value the model's reply decodes to is passed on, even
      one that is not a reflection record. */
  lemma ReflectDoesNotCheckShape(svc: ReflectorService, transcript: string, reply: string,
                                 chat: ChatRequest -> ChatOutcome, decode: string -> Decoded)
    requires svc.client.Some? && reply != ""
    requires chat(svc.Request(transcript)) == Content(reply)
    requires decode(Clean(reply)) == Parsed(Array([Int(1)]))
    ensures svc.Reflect(transcript, chat, decode) == Array([Int(1)])
    ensures !IsReflectionRecord(svc.Reflect(transcript, chat, decode))
  {
    var v := Array([Int(1)]);
    CleanedReplyDecodes(reply, decode, v);
    TruthyResultIsReturned(svc, transcript, chat, decode, v);
    assert Field(v, "reflection") == None;
  }
}
