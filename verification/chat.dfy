/**
 * The `/chat` handler as one state transition: the stop command, the cache
 * lookup, the history window, the retrieval chain (an opaque function), the
 * citation rendering, and the writes to the chat log and the cache.
 */
module Chat {
  import opened Common
  import opened Strings
  import opened History
  import opened ResponseCache
  import opened Citations

  const StopReply: string := "Exiting chat..."

  /** `user_input.lower() == "stop"`. */
  predicate IsStop(input: string) {
    Lower(input) == "stop"
  }

  /** The stop command is "stop" in any mix of upper and lower case, and nothing else. */
  lemma StopSpellings(input: string)
    ensures IsStop(input) <==>
      |input| == 4 && input[0] in "sS" && input[1] in "tT" && input[2] in "oO" && input[3] in "pP"
  {
    if IsStop(input) {
      assert Lower(input)[0] == 's' && Lower(input)[1] == 't' && Lower(input)[2] == 'o' && Lower(input)[3] == 'p';
    }
    if |input| == 4 && input[0] in "sS" && input[1] in "tT" && input[2] in "oO" && input[3] in "pP" {
      assert Lower(input) == "stop";
    }
  }

  /** The `history` query parameter: absent, an integer, or text `int()` rejects. */
  datatype HistoryArg = Absent | Given(n: int) | Unparsable

  /** What the retrieval chain returns, or that it raised. */
  datatype ChainOutcome = Answered(answer: string, sourceDocuments: seq<SourceDocument>) | Raised

  /** The JSON body `{"response": ..., "stop": ...}`, or an unhandled exception. */
  datatype Response = Reply(text: string, stop: bool) | ServerError

  /**
   * The handler's state: the response cache, the chat log it writes, and the
   * history snapshot read from the log once at start-up.
   */
  datatype Server = Server(cache: Cache, log: seq<Turn>, history: seq<Turn>)

  /**
   * One POST: the JSON `message` if present, the `history` parameter, and two
   * clock readings: `now` when the cache is read, `answeredAt` when the
   * answer is stored, after the retrieval chain has returned.
   */
  datatype Request = Request(message: Option<string>, historyArg: HistoryArg, now: int, answeredAt: int)

  datatype StepResult = StepResult(response: Response, server: Server)

  /** The retrieval chain: (question, chat history window) to answer and source documents. */
  type RetrievalChain = (string, seq<Turn>) -> ChainOutcome

  /** `request.json.get("message", "")`. */
  function MessageText(request: Request): (text: string) {
    request.message.GetOr("")
  }

  /** A cached value counts only when it is truthy, i.e. a non-empty string. */
  function CacheHit(server: Server, input: string, now: int): (hit: Option<string>)
    ensures hit.Some? ==> hit.value != "" && Get(server.cache, CacheKey(input), now) == hit
    ensures hit.None? ==> Get(server.cache, CacheKey(input), now) in {None, Some("")}
  {
    match Get(server.cache, CacheKey(input), now)
    case Some(v) => if v != "" then Some(v) else None
    case None => None
  }

  /** The window size: the parsed parameter, or 5 when it is absent. */
  function WindowSize(arg: HistoryArg): (size: int)
    requires !arg.Unparsable?
  {
    if arg.Given? then arg.n else DefaultWindow
  }

  /** One call of the `/chat` handler. */
  function Step(server: Server, request: Request, baseUrl: string, chain: RetrievalChain): (r: StepResult)
    ensures r.server.history == server.history
    ensures r.response.Reply? && r.response.stop <==> IsStop(MessageText(request))
    ensures r.server == server
         || (&& r.response.Reply? && !r.response.stop
             && r.server.log == server.log + [Turn(MessageText(request), r.response.text)]
             && r.server.cache == Put(server.cache, CacheKey(MessageText(request)), r.response.text, request.answeredAt, ResponseTimeout))
    ensures r.response.ServerError? ==> r.server == server
  {
    var input := MessageText(request);
    if IsStop(input) then
      StepResult(Reply(StopReply, true), server)
    else if CacheHit(server, input, request.now).Some? then
      StepResult(Reply(CacheHit(server, input, request.now).value, false), server)
    else if request.historyArg.Unparsable? then
      StepResult(ServerError, server)
    else
      match chain(input, Window(server.history, WindowSize(request.historyArg)))
      case Raised => StepResult(ServerError, server)
      case Answered(answer, docs) =>
        var text := Render(answer, docs, baseUrl);
        StepResult(
          Reply(text, false),
          Server(Put(server.cache, CacheKey(input), text, request.answeredAt, ResponseTimeout),
                 server.log + [Turn(input, text)],
                 server.history))
  }

  /** The stop command answers "Exiting chat..." and touches neither the cache, the log nor the chain. */
  lemma StopShortCircuits(server: Server, request: Request, baseUrl: string, chain: RetrievalChain, other: RetrievalChain)
    requires IsStop(MessageText(request))
    ensures Step(server, request, baseUrl, chain) == StepResult(Reply(StopReply, true), server)
    ensures Step(server, request, baseUrl, chain) == Step(server, request, baseUrl, other)
  {
  }

  /** A live, non-empty cached answer is returned as it is, without consulting the chain or writing anything. */
  lemma CacheHitReturnsCached(server: Server, request: Request, baseUrl: string, chain: RetrievalChain,
                              other: RetrievalChain, cached: string)
    requires !IsStop(MessageText(request))
    requires Get(server.cache, CacheKey(MessageText(request)), request.now) == Some(cached)
    requires cached != ""
    ensures Step(server, request, baseUrl, chain) == StepResult(Reply(cached, false), server)
    ensures Step(server, request, baseUrl, chain) == Step(server, request, baseUrl, other)
  {
  }

  /**
   * On a miss the chain sees the history window, and its answer with the
   * citation block is returned, appended to the log and cached for 300 seconds.
   */
  lemma MissAnswersAndRecords(server: Server, request: Request, baseUrl: string, chain: RetrievalChain)
    requires !IsStop(MessageText(request))
    requires CacheHit(server, MessageText(request), request.now).None?
    requires !request.historyArg.Unparsable?
    requires chain(MessageText(request), Window(server.history, WindowSize(request.historyArg))).Answered?
    ensures var outcome := chain(MessageText(request), Window(server.history, WindowSize(request.historyArg)));
            var text := Render(outcome.answer, outcome.sourceDocuments, baseUrl);
            Step(server, request, baseUrl, chain)
            == StepResult(Reply(text, false),
                          Server(Put(server.cache, CacheKey(MessageText(request)), text, request.answeredAt, ResponseTimeout),
                                 server.log + [Turn(MessageText(request), text)],
                                 server.history))
  {
  }

  /** The window depends on the start-up snapshot only: the turns logged since then change no response. */
  lemma LogDoesNotAffectResponse(cache: Cache, log: seq<Turn>, log': seq<Turn>, history: seq<Turn>,
                                 request: Request, baseUrl: string, chain: RetrievalChain)
    ensures Step(Server(cache, log, history), request, baseUrl, chain).response
         == Step(Server(cache, log', history), request, baseUrl, chain).response
  {
  }

  /** Every answer the handler renders carries the citation header, so it is never empty. */
  lemma RenderedAnswerIsNonEmpty(answer: string, docs: seq<SourceDocument>, baseUrl: string)
    ensures |Render(answer, docs, baseUrl)| >= |SourcesHeader|
  {
  }

  /**
   * Asking the same question again less than 300 seconds after a fresh
   * answer was stored returns that answer from the cache and changes nothing.
   */
  lemma RepeatWithinTimeoutHitsCache(server: Server, request: Request, again: Request, baseUrl: string,
                                     chain: RetrievalChain, chain': RetrievalChain)
    requires Step(server, request, baseUrl, chain).server != server
    requires MessageText(again) == MessageText(request)
    requires again.now < request.answeredAt + ResponseTimeout
    ensures var first := Step(server, request, baseUrl, chain);
            Step(first.server, again, baseUrl, chain') == StepResult(first.response, first.server)
  {
    var first := Step(server, request, baseUrl, chain);
    var input := MessageText(request);
    var text := first.response.text;
    PutThenGet(server.cache, CacheKey(input), text, request.answeredAt, ResponseTimeout, again.now);
    assert !IsStop(input);
    assert text != "" by {
      var outcome := chain(input, Window(server.history, WindowSize(request.historyArg)));
      RenderedAnswerIsNonEmpty(outcome.answer, outcome.sourceDocuments, baseUrl);
    }
  }

  /** Once 300 seconds have passed since the answer was stored, the cached answer is no longer used. */
  lemma RepeatAfterTimeoutMisses(server: Server, request: Request, again: Request, baseUrl: string, chain: RetrievalChain)
    requires Step(server, request, baseUrl, chain).server != server
    requires MessageText(again) == MessageText(request)
    requires again.now >= request.answeredAt + ResponseTimeout
    ensures CacheHit(Step(server, request, baseUrl, chain).server, MessageText(again), again.now).None?
  {
    var input := MessageText(request);
    PutThenGet(server.cache, CacheKey(input), Step(server, request, baseUrl, chain).response.text,
               request.answeredAt, ResponseTimeout, again.now);
  }

  /**
   * A sequence of requests handled one after another. The model behind the
   * retrieval chain samples its answers, so each request meets a chain of its own.
   */
  function Run(server: Server, requests: seq<Request>, baseUrl: string, chains: seq<RetrievalChain>): (final: Server)
    requires |chains| == |requests|
    decreases |requests|
  {
    if |requests| == 0 then server
    else Run(Step(server, requests[0], baseUrl, chains[0]).server, requests[1..], baseUrl, chains[1..])
  }

  /**
   * Over any number of requests the history snapshot never changes, and the
   * chat log only grows at its end, by at most one turn per request.
   */
  lemma {:induction false} RunKeepsSnapshotAndAppendsLog(server: Server, requests: seq<Request>, baseUrl: string,
                                                         chains: seq<RetrievalChain>)
    requires |chains| == |requests|
    ensures Run(server, requests, baseUrl, chains).history == server.history
    ensures |server.log| <= |Run(server, requests, baseUrl, chains).log| <= |server.log| + |requests|
    ensures Run(server, requests, baseUrl, chains).log[..|server.log|] == server.log
    decreases |requests|
  {
    if |requests| > 0 {
      var next := Step(server, requests[0], baseUrl, chains[0]).server;
      RunKeepsSnapshotAndAppendsLog(next, requests[1..], baseUrl, chains[1..]);
      var final := Run(next, requests[1..], baseUrl, chains[1..]);
      assert final.log[..|server.log|] == final.log[..|next.log|][..|server.log|];
    }
  }
}
