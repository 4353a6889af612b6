/**
 * The review runner of scripts/review.py: the single-review sanitizer
 * (`clean_and_parse_json`), the round text and backend routing of
 * `review_pair`, and the truncate-and-tag loop of `main`.
 */
module Review {
  import opened Wrappers
  import opened Text
  import opened JsonValues

  // ---------------------------------------------------------------------------
  // clean_and_parse_json (lines 29-40)
  // ---------------------------------------------------------------------------

  const JsonFence: string := "```json"
  const RawOutputKey: string := "raw_output"

  /**
   * The text `clean_and_parse_json` hands to the parser: from the trimmed
   * text remove a leading fence with a `json` tag, then go on with CleanTail.
   */
  function CleanReview(raw: string): string {
    CleanTail(RemoveLeading(Strip(raw), JsonFence))
  }

  /**
   * The remaining steps: remove a leading bare fence, then a trailing fence,
   * trimming before each step and at the end. Each `$`-anchored step is
   * applied to a trimmed text, which never ends in a newline, so it only
   * removes a fence at the very end.
   */
  function CleanTail(s: string): string {
    Strip(RemoveTrailing(Strip(RemoveLeading(Strip(s), Fence)), Fence))
  }

  /** Text that has no fence at either end after trimming is parsed as exactly `raw.strip()`. */
  lemma UnfencedReviewIsTrimmed(raw: string)
    requires !StartsWith(Strip(raw), Fence) && !EndsWith(Strip(raw), Fence)
    ensures CleanReview(raw) == Strip(raw)
  {
    JsonFenceIsFence(Strip(raw));
    StripIdempotent(raw);
    CleanTailKeepsUnfenced(Strip(raw));
  }

  /** A text that starts with the `json` fence starts with a bare fence. */
  lemma JsonFenceIsFence(s: string)
    ensures StartsWith(s, JsonFence) ==> StartsWith(s, Fence)
  {
    if StartsWith(s, JsonFence) {
      assert s[..|Fence|] == s[..|JsonFence|][..|Fence|];
    }
  }

  /** CleanTail leaves a trimmed text without fences alone. */
  lemma CleanTailKeepsUnfenced(s: string)
    requires Strip(s) == s && !StartsWith(s, Fence) && !EndsWith(s, Fence)
    ensures CleanTail(s) == s
  {
  }

  /**
   * A fenced body the bare-fence step cannot eat into: it is blank, or its
   * trimmed form does not start with a backtick.
   */
  predicate OpensCleanly(body: string) {
    Strip(body) == [] || Strip(body)[0] != '`'
  }

  /**
   * A reply wrapped as "```json" + body + "```" is parsed as the trimmed body,
   * provided the body is blank or holds something that does not itself start
   * with a backtick (otherwise the bare-fence step would eat into it).
   */
  lemma FencedReviewUnwrapped(raw: string, body: string)
    requires Strip(raw) == JsonFence + body + Fence
    requires OpensCleanly(body)
    ensures CleanReview(raw) == Strip(body)
  {
    JsonFenceDropped(Strip(raw), body);
    BodyThenFence(body);
  }

  /** A body followed by the closing fence is cleaned down to the trimmed body. */
  lemma BodyThenFence(body: string)
    requires OpensCleanly(body)
    ensures CleanTail(body + Fence) == Strip(body)
  {
    if Strip(body) == [] {
      BlankBodyThenFence(body);
    } else {
      FilledBodyThenFence(body);
    }
  }

  /** BodyThenFence for a blank body: only the fence is left to remove. */
  lemma BlankBodyThenFence(body: string)
    requires Strip(body) == []
    ensures CleanTail(body + Fence) == Strip(body)
  {
    BlankThenFence(body);
    CleanTailOfFence(body + Fence);
  }

  /** Text that trims to a lone fence is cleaned to the empty text. */
  lemma CleanTailOfFence(x: string)
    requires Strip(x) == Fence
    ensures CleanTail(x) == []
  {
    var e := RemoveLeading(Fence, Fence);
    assert e == [];
    assert Strip(e) == [];
    assert RemoveTrailing([], Fence) == [];
  }

  /** BodyThenFence for a body holding something that does not start with a backtick. */
  lemma FilledBodyThenFence(body: string)
    requires Strip(body) != [] && Strip(body)[0] != '`'
    ensures CleanTail(body + Fence) == Strip(body)
  {
    var before, after := StripParts(body);
    FenceTailRemoved(body, before, Strip(body), after);
  }

  /** A blank body followed by the closing fence trims to the fence alone. */
  lemma BlankThenFence(body: string)
    requires Strip(body) == []
    ensures Strip(body + Fence) == Fence
  {
    var before, after := StripParts(body);
    assert body == before + after;
    assert AllSpace(body) by {
      forall k | 0 <= k < |body| ensures IsSpace(body[k]) {
        if k < |before| {
          assert body[k] == before[k];
        } else {
          assert body[k] == after[k - |before|];
        }
      }
    }
    StripLeadingSpaces(body, Fence);
  }

  /**
   * A reply wrapped as "```" + body + "```" without a `json` tag is parsed as
   * the trimmed body: the json-fence step does not apply, the bare-fence step
   * removes the opening fence and the closing step the closing one. As for the
   * tagged fence, the body must be blank or hold something that does not start
   * with a backtick.
   */
  lemma BareFencedReviewUnwrapped(raw: string, body: string)
    requires Strip(raw) == Fence + body + Fence
    requires !StartsWith(body, "json")
    requires OpensCleanly(body)
    ensures CleanReview(raw) == Strip(body)
  {
    var s := Strip(raw);
    assert RemoveLeading(s, JsonFence) == s by {
      NoJsonTag(s, body);
    }
    BareCleanTail(s, body);
  }

  /** A bare fence is not a `json` fence when the body does not start with `json`. */
  lemma NoJsonTag(s: string, body: string)
    requires s == Fence + body + Fence
    requires !StartsWith(body, "json")
    ensures !StartsWith(s, JsonFence)
  {
    assert JsonFence[3..] == "json";
    if |body| >= 4 {
      assert s[..7][3..] == body[..4];
    } else if |s| >= 7 {
      assert s[..7][3 + |body|] == '`';
    }
  }

  /** CleanTail unwraps a bare-fenced text to its trimmed body. */
  lemma BareCleanTail(s: string, body: string)
    requires s == Fence + body + Fence
    requires OpensCleanly(body)
    ensures CleanTail(s) == Strip(body)
  {
    BareFenceOpened(s, body);
    CleanTailAfterOpening(s, body + Fence);
    BodyBeforeClosingFence(body);
  }

  /** CleanTail, once its bare-fence step has produced `t`, goes on with the closing-fence step on `t`. */
  lemma CleanTailAfterOpening(s: string, t: string)
    requires Strip(s) == s && RemoveLeading(s, Fence) == t
    ensures CleanTail(s) == Strip(RemoveTrailing(Strip(t), Fence))
  {
  }

  /** A bare-fenced text is already trimmed, and the bare-fence step removes exactly its opening fence. */
  lemma BareFenceOpened(s: string, body: string)
    requires s == Fence + body + Fence
    ensures Strip(s) == s && RemoveLeading(s, Fence) == body + Fence
  {
    assert s[..|Fence|] == Fence;
    assert s == Fence + (body + Fence);
    assert s[0] == '`' && s[|s| - 1] == '`';
    StripUnchanged(s);
  }

  /** A body followed by the closing fence, trimmed and stripped of that fence, is the trimmed body. */
  lemma BodyBeforeClosingFence(body: string)
    requires OpensCleanly(body)
    ensures Strip(RemoveTrailing(Strip(body + Fence), Fence)) == Strip(body)
  {
    if Strip(body) == [] {
      BlankThenFence(body);
    } else {
      FilledBodyBeforeClosingFence(body);
    }
  }

  /** BodyBeforeClosingFence for a body holding something that does not start with a backtick. */
  lemma FilledBodyBeforeClosingFence(body: string)
    requires Strip(body) != [] && Strip(body)[0] != '`'
    ensures Strip(RemoveTrailing(Strip(body + Fence), Fence)) == Strip(body)
  {
    var before, after := StripParts(body);
    BareFenceTailRemoved(body, before, Strip(body), after);
  }

  /** After the bare opening fence is gone, trimming and the closing step keep the payload between the spaces and the closing fence. */
  lemma BareFenceTailRemoved(body: string, before: string, m: string, after: string)
    requires body == before + m + after
    requires AllSpace(before) && AllSpace(after)
    requires m != [] && !IsSpace(m[0]) && !IsSpace(m[|m| - 1]) && m[0] != '`'
    ensures Strip(RemoveTrailing(Strip(body + Fence), Fence)) == m
  {
    var core := m + after + Fence;
    Regroup(body, before, m, after, Fence);
    PayloadThenFence(m, after);
    StripTrailingSpaces(m, after);
    StripLeadingSpaces(before, core);
  }

  /** The json-fence step removes exactly the opening `json` fence. */
  lemma JsonFenceDropped(stripped: string, body: string)
    requires stripped == JsonFence + body + Fence
    ensures RemoveLeading(stripped, JsonFence) == body + Fence
  {
    assert stripped[..|JsonFence|] == JsonFence;
    assert stripped == JsonFence + (body + Fence);
  }

  /** Gluing a fence behind `before + m + after` regroups as `before` and then `m + after + fence`. */
  lemma Regroup<T>(body: seq<T>, before: seq<T>, m: seq<T>, after: seq<T>, fence: seq<T>)
    requires body == before + m + after
    ensures body + fence == before + (m + after + fence)
  {
  }

  /** A payload that does not start with a backtick, followed by spaces and a fence: only the closing step applies to it. */
  lemma PayloadThenFence(m: string, after: string)
    requires m != [] && m[0] != '`'
    ensures var core := m + after + Fence;
      core[0] == m[0] && core[|core| - 1] == '`' &&
      RemoveLeading(core, Fence) == core && RemoveTrailing(core, Fence) == m + after
  {
    var core := m + after + Fence;
    assert core[0] == m[0];
    assert core[|core| - |Fence|..] == Fence;
    assert core == (m + after) + Fence;
  }

  /** After the json fence is gone, CleanTail keeps the payload between the spaces and the closing fence. */
  lemma FenceTailRemoved(body: string, before: string, m: string, after: string)
    requires body == before + m + after
    requires AllSpace(before) && AllSpace(after)
    requires m != [] && !IsSpace(m[0]) && !IsSpace(m[|m| - 1]) && m[0] != '`'
    ensures CleanTail(body + Fence) == m
  {
    var core := m + after + Fence;
    Regroup(body, before, m, after, Fence);
    PayloadThenFence(m, after);
    StripTrailingSpaces(m, after);
    StripLeadingSpaces(before, core);
    StripUnchanged(core);
  }

  /**
   * `clean_and_parse_json(raw)`, with `json.loads` as the parameter `parse`
   * (None where it raises JSONDecodeError, the only error of `json.loads` that
   * the function catches).
   * No JSONDecodeError escapes: it returns what the parser made of the cleaned text, or, when
   * the parser rejects it, an object whose single key `raw_output` holds the
   * TRIMMED RAW text (not the cleaned one).
   */
  function CleanAndParse(parse: string -> Option<Json>, raw: string): (r: Json)
    ensures parse(CleanReview(raw)).Some? ==> r == parse(CleanReview(raw)).value
    ensures parse(CleanReview(raw)).None? ==> r == JObject([(RawOutputKey, JString(Strip(raw)))])
  {
    match parse(CleanReview(raw))
    case Some(value) => value
    case None => JObject([(RawOutputKey, JString(Strip(raw)))])
  }

  // ---------------------------------------------------------------------------
  // review_pair (lines 43-79)
  // ---------------------------------------------------------------------------

  /**
   * One comparison item of a field's corpus. The source's `abstract` key is
   * the field `summary`, because `abstract` is a Dafny keyword.
   */
  datatype Pair = Pair(id: Json, titleA: string, titleB: string, titleC: string, summary: string)

  const TitleOnlyRound: string := "title-only"

  /** The three title lines every round shows. */
  function TitleLines(pair: Pair): string {
    "\nTitle A: " + pair.titleA + "\nTitle B: " + pair.titleB + "\nTitle C: " + pair.titleC + "\n"
  }

  /** The abstract line only rounds other than `title-only` show. */
  function AbstractLine(pair: Pair): string {
    "Shared Abstract: " + pair.summary + "\n"
  }

  /**
   * The text of one item for a round: the round named exactly `title-only`
   * shows the titles only; every other round name shows the titles and then
   * the shared abstract.
   */
  function RoundText(roundName: string, pair: Pair): (text: string)
    ensures roundName == TitleOnlyRound ==> text == TitleLines(pair)
    ensures roundName != TitleOnlyRound ==> text == TitleLines(pair) + AbstractLine(pair)
  {
    if roundName == TitleOnlyRound then
      TitleLines(pair)
    else
      TitleLines(pair) + AbstractLine(pair)
  }

  /** The `title-only` text does not depend on the abstract at all. */
  lemma TitleOnlyIgnoresAbstract(pair: Pair, otherAbstract: string)
    ensures RoundText(TitleOnlyRound, pair) == RoundText(TitleOnlyRound, pair.(summary := otherAbstract))
  {
  }

  /**
   * Any other round shows the `title-only` text followed by the abstract line,
   * and two items that differ only in their abstract get different texts.
   */
  lemma AbstractRoundExtendsTitleOnly(roundName: string, pair: Pair, otherAbstract: string)
    requires roundName != TitleOnlyRound
    ensures RoundText(roundName, pair) == RoundText(TitleOnlyRound, pair) + AbstractLine(pair)
    ensures otherAbstract != pair.summary ==>
      RoundText(roundName, pair) != RoundText(roundName, pair.(summary := otherAbstract))
  {
    var other := pair.(summary := otherAbstract);
    var head := TitleLines(pair) + "Shared Abstract: ";
    assert TitleLines(other) == TitleLines(pair);
    assert RoundText(roundName, pair) == head + pair.summary + "\n";
    assert RoundText(roundName, other) == head + otherAbstract + "\n";
    if RoundText(roundName, pair) == RoundText(roundName, other) {
      var t := RoundText(roundName, pair);
      assert |pair.summary| == |otherAbstract|;
      assert pair.summary == t[|head|..|t| - 1];
      assert otherAbstract == RoundText(roundName, other)[|head|..|t| - 1];
    }
  }

  /** The prompt: the round's template, a blank line, then the item's text. */
  function Prompt(cfg: ReviewConfig, pair: Pair): string {
    cfg.template + "\n\n" + RoundText(cfg.roundName, pair)
  }

  const ClaudePrefix: string := "claude"
  const ClaudeModel: string := "claude-3-7-sonnet-20250219"
  const ClaudeMaxTokens: nat := 1000
  const ReviewTemperature: real := 0.0

  /** The request a backend receives: which path was taken and with what parameters. */
  datatype Request =
    | ClaudeMessages(model: string, maxTokens: nat, content: string)
    | OpenAIChat(model: string, temperature: real, content: string)

  /** What can abort a review run. */
  datatype Error =
    | ClaudeUnavailable         // RuntimeError: the Claude client could not be constructed
    | BackendRaised(message: string)  // the backend call itself raised
    | NotAnObject               // TypeError: `res["id"] = ...` on a parsed value that is not a dict

  /** What one run is configured with: the round's template, the round name, the model identifier and whether a Claude client exists. */
  datatype ReviewConfig = ReviewConfig(template: string, roundName: string, model: string, claudeAvailable: bool)

  /**
   * Backend routing. An identifier that starts with `claude` always takes the
   * Claude path, with the fixed model name and token limit and without passing
   * the identifier on; without a Claude client that path fails and never falls
   * back. Every other identifier takes the OpenAI path with the identifier
   * passed through and temperature 0.
   */
  function Route(model: string, prompt: string, claudeAvailable: bool): (r: Result<Request, Error>)
    ensures StartsWith(model, ClaudePrefix) && claudeAvailable ==>
      r == Success(ClaudeMessages(ClaudeModel, ClaudeMaxTokens, prompt))
    ensures StartsWith(model, ClaudePrefix) && !claudeAvailable ==> r == Failure(ClaudeUnavailable)
    ensures !StartsWith(model, ClaudePrefix) ==> r == Success(OpenAIChat(model, ReviewTemperature, prompt))
  {
    if StartsWith(model, ClaudePrefix) then
      if claudeAvailable then Success(ClaudeMessages(ClaudeModel, ClaudeMaxTokens, prompt))
      else Failure(ClaudeUnavailable)
    else
      Success(OpenAIChat(model, ReviewTemperature, prompt))
  }

  /** On the Claude path the identifier itself is never used: all `claude...` identifiers send the same request. */
  lemma ClaudeIdentifiersAreInterchangeable(model1: string, model2: string, prompt: string, claudeAvailable: bool)
    requires StartsWith(model1, ClaudePrefix) && StartsWith(model2, ClaudePrefix)
    ensures Route(model1, prompt, claudeAvailable) == Route(model2, prompt, claudeAvailable)
  {
  }

  /**
   * `review_pair(pair, round_name, model)`, with the backend call as the
   * parameter `complete` (Failure where the client raises). The backend's reply
   * is trimmed and handed to the sanitizer; a routing failure or a raising
   * backend propagates.
   */
  function ReviewPair(parse: string -> Option<Json>, complete: Request -> Result<string, Error>, cfg: ReviewConfig, pair: Pair): (r: Result<Json, Error>)
    ensures Route(cfg.model, Prompt(cfg, pair), cfg.claudeAvailable).Failure? ==>
      r == Failure(Route(cfg.model, Prompt(cfg, pair), cfg.claudeAvailable).error)
    ensures Route(cfg.model, Prompt(cfg, pair), cfg.claudeAvailable).Success? ==>
      var reply := complete(Route(cfg.model, Prompt(cfg, pair), cfg.claudeAvailable).value);
      (reply.Failure? ==> r == Failure(reply.error)) &&
      (reply.Success? ==> r == Success(CleanAndParse(parse, Strip(reply.value))))
  {
    match Route(cfg.model, Prompt(cfg, pair), cfg.claudeAvailable)
    case Failure(e) => Failure(e)
    case Success(request) =>
      match complete(request)
      case Failure(e) => Failure(e)
      case Success(reply) => Success(CleanAndParse(parse, Strip(reply)))
  }

  /** A `claude...` identifier without a Claude client fails before any backend is called, whatever the backend would do. */
  lemma ClaudeUnavailableNeverCallsBackend(parse: string -> Option<Json>, complete: Request -> Result<string, Error>, cfg: ReviewConfig, pair: Pair)
    requires StartsWith(cfg.model, ClaudePrefix) && !cfg.claudeAvailable
    ensures ReviewPair(parse, complete, cfg, pair) == Failure(ClaudeUnavailable)
  {
  }

  // ---------------------------------------------------------------------------
  // main: truncate, then review and tag every pair in order (lines 103-111)
  // ---------------------------------------------------------------------------

  const IdKey: string := "id"

  /**
   * `res["id"] = pair["id"]`: on an object the id is set (replacing any id the
   * model returned, in its place) and every other key keeps its value; on
   * anything else Python raises TypeError.
   */
  function TagWithId(res: Json, id: Json): (r: Result<Json, Error>)
    ensures !res.JObject? ==> r == Failure(NotAnObject)
    ensures res.JObject? ==> r.Success? && r.value.JObject?
    ensures res.JObject? ==> Lookup(r.value.fields, IdKey) == Some(id)
    ensures res.JObject? ==> forall k :: k != IdKey ==> Lookup(r.value.fields, k) == Lookup(res.fields, k)
    ensures res.JObject? ==> Keys(r.value.fields) == if IdKey in Keys(res.fields) then Keys(res.fields) else Keys(res.fields) + [IdKey]
  {
    match res
    case JObject(fields) =>
      SetKeyFacts(fields, IdKey, id);
      Success(JObject(SetKey(fields, IdKey, id)))
    case _ => Failure(NotAnObject)
  }

  /** Tagging a dict gives a dict: no key occurs twice afterwards. */
  lemma TagKeepsDistinctKeys(res: Json, id: Json)
    requires res.JObject? && DistinctKeys(res.fields)
    ensures TagWithId(res, id).Success? && DistinctKeys(TagWithId(res, id).value.fields)
  {
    SetKeyKeepsDistinct(res.fields, IdKey, id);
  }

  /** One iteration of the loop: review the pair, then tag the result with the pair's id. */
  function ReviewAndTag(parse: string -> Option<Json>, complete: Request -> Result<string, Error>, cfg: ReviewConfig, pair: Pair): Result<Json, Error> {
    match ReviewPair(parse, complete, cfg, pair)
    case Failure(e) => Failure(e)
    case Success(res) => TagWithId(res, pair.id)
  }

  /** The loop body as a function of the pair alone, for one run's configuration and backends. */
  function Step(parse: string -> Option<Json>, complete: Request -> Result<string, Error>, cfg: ReviewConfig): Pair -> Result<Json, Error> {
    pair => ReviewAndTag(parse, complete, cfg, pair)
  }

  /**
   * `if args.num: pairs = pairs[:args.num]`. None and 0 are falsy and keep
   * every pair; a positive cap keeps at most that many; a negative cap is a
   * Python slice from the end and drops that many pairs from the end.
   */
  function Truncate<T>(pairs: seq<T>, num: Option<int>): (r: seq<T>)
    ensures |r| <= |pairs| && r == pairs[..|r|]
    ensures num == None || num == Some(0) ==> r == pairs
    ensures num.Some? && num.value > 0 ==> |r| == if num.value < |pairs| then num.value else |pairs|
    ensures num.Some? && num.value < 0 ==> |r| == if |pairs| + num.value > 0 then |pairs| + num.value else 0
  {
    match num
    case None => pairs
    case Some(k) =>
      if k == 0 then pairs
      else if k > 0 then pairs[..if k < |pairs| then k else |pairs|]
      else pairs[..if |pairs| + k > 0 then |pairs| + k else 0]
  }

  /**
   * A loop that applies `step` to every item in order and appends what it
   * returns, where the first failure aborts the loop and loses every result
   * gathered so far (`main` writes the results only after the loop).
   */
  function RunAll<T, R>(step: T -> Result<R, Error>, items: seq<T>): (r: Result<seq<R>, Error>)
    ensures r.Success? <==> forall i :: 0 <= i < |items| ==> step(items[i]).Success?
    ensures r.Success? ==> |r.value| == |items|
    ensures r.Success? ==> forall i :: 0 <= i < |items| ==> step(items[i]) == Success(r.value[i])
    ensures r.Failure? ==> exists i :: 0 <= i < |items| && step(items[i]) == Failure(r.error) && AllSucceed(step, items[..i])
    decreases |items|
  {
    if items == [] then Success([])
    else
      var n := |items| - 1;
      var init := items[..n];
      assert forall i :: 0 <= i < n ==> init[i] == items[i];
      match RunAll(step, init)
      case Failure(e) =>
        ghost var i :| 0 <= i < n && step(init[i]) == Failure(e) && AllSucceed(step, init[..i]);
        assert init[..i] == items[..i];
        Failure(e)
      case Success(done) =>
        match step(items[n])
        case Failure(e) => assert init == items[..n]; Failure(e)
        case Success(last) => Success(done + [last])
  }

  /** Every item of `items` passes `step`. */
  predicate AllSucceed<T, R>(step: T -> Result<R, Error>, items: seq<T>) {
    forall i :: 0 <= i < |items| ==> step(items[i]).Success?
  }

  /** The results of `main`'s loop over the (already truncated) pairs. */
  function ReviewAll(parse: string -> Option<Json>, complete: Request -> Result<string, Error>, cfg: ReviewConfig, pairs: seq<Pair>): Result<seq<Json>, Error> {
    RunAll(Step(parse, complete, cfg), pairs)
  }

  /**
   * Every result of a completed run is an object carrying its own pair's id,
   * and apart from `id` it has exactly the keys and values the review
   * returned, degraded records included.
   */
  lemma ResultsCarryTheirPairsId(parse: string -> Option<Json>, complete: Request -> Result<string, Error>, cfg: ReviewConfig, pairs: seq<Pair>, i: nat)
    requires ReviewAll(parse, complete, cfg, pairs).Success? && i < |pairs|
    ensures var results := ReviewAll(parse, complete, cfg, pairs).value;
      var review := ReviewPair(parse, complete, cfg, pairs[i]);
      review.Success? && review.value.JObject? && |results| == |pairs| && results[i].JObject? &&
      Lookup(results[i].fields, IdKey) == Some(pairs[i].id) &&
      forall k :: k != IdKey ==> Lookup(results[i].fields, k) == Lookup(review.value.fields, k)
  {
    var step := Step(parse, complete, cfg);
    var results := ReviewAll(parse, complete, cfg, pairs).value;
    assert step(pairs[i]) == Success(results[i]);
    var review := ReviewPair(parse, complete, cfg, pairs[i]);
    assert review.Success? && TagWithId(review.value, pairs[i].id) == Success(results[i]);
  }

  /** A run over a positive cap `num` that completes returns exactly min(num, N) results. */
  lemma CappedRunLength(parse: string -> Option<Json>, complete: Request -> Result<string, Error>, cfg: ReviewConfig, pairs: seq<Pair>, num: int)
    requires num > 0
    requires ReviewAll(parse, complete, cfg, Truncate(pairs, Some(num))).Success?
    ensures |ReviewAll(parse, complete, cfg, Truncate(pairs, Some(num))).value| == if num < |pairs| then num else |pairs|
  {
  }

  /** Tagging a degraded record appends the id behind `raw_output`. */
  lemma DegradedTagging(text: string, id: Json)
    ensures TagWithId(JObject([(RawOutputKey, JString(text))]), id) == Success(JObject([(RawOutputKey, JString(text)), (IdKey, id)]))
  {
    var fields := [(RawOutputKey, JString(text))];
    assert Keys(fields) == [RawOutputKey] by { assert fields[1..] == []; }
    assert IdKey != RawOutputKey by { assert IdKey[0] != RawOutputKey[0]; }
    SetKeyAppends(fields, IdKey, id);
    assert fields + [(IdKey, id)] == [(RawOutputKey, JString(text)), (IdKey, id)];
  }

  /** A degraded record, too, is tagged: it holds the trimmed reply under `raw_output`, then the pair's id. */
  lemma DegradedRecordIsTagged(parse: string -> Option<Json>, complete: Request -> Result<string, Error>, cfg: ReviewConfig, pair: Pair, reply: string)
    requires Route(cfg.model, Prompt(cfg, pair), cfg.claudeAvailable).Success?
    requires complete(Route(cfg.model, Prompt(cfg, pair), cfg.claudeAvailable).value) == Success(reply)
    requires parse(CleanReview(Strip(reply))).None?
    ensures ReviewAndTag(parse, complete, cfg, pair) == Success(JObject([(RawOutputKey, JString(Strip(reply))), (IdKey, pair.id)]))
  {
    StripIdempotent(reply);
    assert ReviewPair(parse, complete, cfg, pair) == Success(JObject([(RawOutputKey, JString(Strip(reply)))]));
    DegradedTagging(Strip(reply), pair.id);
  }

  /** A run over a single item that passes returns its result alone. */
  lemma RunAllSingleton<T, R>(step: T -> Result<R, Error>, item: T, r: R)
    requires step(item) == Success(r)
    ensures RunAll(step, [item]) == Success([r])
  {
    assert [item][..0] == [];
    assert RunAll(step, []) == Success([]);
    assert [item][0] == item;
    var v := RunAll(step, [item]).value;
    assert |v| == 1 && v[0] == r;
    assert v == [r];
  }

  /** A run over a single pair returns its tagged review alone. */
  lemma SingletonRun(parse: string -> Option<Json>, complete: Request -> Result<string, Error>, cfg: ReviewConfig, pair: Pair, tagged: Json)
    requires ReviewAndTag(parse, complete, cfg, pair) == Success(tagged)
    ensures ReviewAll(parse, complete, cfg, [pair]) == Success([tagged])
  {
    RunAllSingleton(Step(parse, complete, cfg), pair, tagged);
  }

  /** A parsed object without an `id` of its own gets the pair's id appended as its last key. */
  lemma ParsedObjectIsTagged(parse: string -> Option<Json>, complete: Request -> Result<string, Error>, cfg: ReviewConfig, pair: Pair, reply: string, fields: seq<(string, Json)>)
    requires Route(cfg.model, Prompt(cfg, pair), cfg.claudeAvailable).Success?
    requires complete(Route(cfg.model, Prompt(cfg, pair), cfg.claudeAvailable).value) == Success(reply)
    requires parse(CleanReview(Strip(reply))) == Some(JObject(fields))
    requires IdKey !in Keys(fields)
    ensures ReviewAndTag(parse, complete, cfg, pair) == Success(JObject(fields + [(IdKey, pair.id)]))
  {
    assert ReviewPair(parse, complete, cfg, pair) == Success(JObject(fields));
    NewIdIsAppended(fields, pair.id);
  }

  /** Tagging an object that has no `id` appends the id as its last key. */
  lemma NewIdIsAppended(fields: seq<(string, Json)>, id: Json)
    requires IdKey !in Keys(fields)
    ensures TagWithId(JObject(fields), id) == Success(JObject(fields + [(IdKey, id)]))
  {
    SetKeyAppends(fields, IdKey, id);
  }

  /** The corpus of the worked examples: one pair with id 1. */
  const ExamplePair: Pair := Pair(JNumber(1), "X", "Y", "Z", "A")

  /** The object text of the fenced worked example. */
  const ExamplePayload: string := "{\"winner\":\"A\"}"

  /**
   * Worked example: a backend that answers "```json\n" + `{"winner":"A"}` +
   * "\n```" yields that object with the pair's id appended.
   */
  lemma ExampleFencedReply(parse: string -> Option<Json>, complete: Request -> Result<string, Error>, cfg: ReviewConfig)
    requires Route(cfg.model, Prompt(cfg, ExamplePair), cfg.claudeAvailable).Success?
    requires complete(Route(cfg.model, Prompt(cfg, ExamplePair), cfg.claudeAvailable).value) == Success(JsonFence + "\n" + ExamplePayload + "\n" + Fence)
    requires parse(ExamplePayload) == Some(JObject([("winner", JString("A"))]))
    ensures ReviewAll(parse, complete, cfg, [ExamplePair]) == Success([JObject([("winner", JString("A")), (IdKey, JNumber(1))])])
  {
    var fields := [("winner", JString("A"))];
    var tagged := JObject([("winner", JString("A")), (IdKey, JNumber(1))]);
    assert ReviewAndTag(parse, complete, cfg, ExamplePair) == Success(tagged) by {
      ExamplePayloadShape(ExamplePayload);
      NewlineFencedPayloadCleaned(ExamplePayload);
      assert ReviewPair(parse, complete, cfg, ExamplePair) == Success(JObject(fields));
      ExampleTagging(fields, tagged);
    }
    SingletonRun(parse, complete, cfg, ExamplePair, tagged);
  }

  /** The example payload has no whitespace at its ends and does not start with a backtick. */
  lemma ExamplePayloadShape(payload: string)
    requires payload == ExamplePayload
    ensures payload != [] && !IsSpace(payload[0]) && !IsSpace(payload[|payload| - 1]) && payload[0] != '`'
  {
  }

  /** The tagging part of the fenced worked example. */
  lemma ExampleTagging(fields: seq<(string, Json)>, tagged: Json)
    requires fields == [("winner", JString("A"))]
    requires tagged == JObject([("winner", JString("A")), (IdKey, JNumber(1))])
    ensures TagWithId(JObject(fields), JNumber(1)) == Success(tagged)
  {
    assert Keys(fields) == ["winner"] by { assert fields[1..] == []; }
    assert IdKey != "winner";
    NewIdIsAppended(fields, JNumber(1));
    assert fields + [(IdKey, JNumber(1))] == tagged.fields;
  }

  /** A newline is whitespace. */
  lemma NewlineIsSpace()
    ensures AllSpace("\n")
  {
    assert "\n"[0] == '\n';
  }

  /** Five pieces glued together regroup around the middle three. */
  lemma RegroupMiddle<T>(a: seq<T>, b: seq<T>, c: seq<T>, d: seq<T>, e: seq<T>)
    ensures a + b + c + d + e == a + (b + c + d) + e
  {
  }

  /** A text between a `json` fence and a closing fence starts and ends with a backtick. */
  lemma JsonFencedEnds(body: string)
    ensures var r := JsonFence + body + Fence; r[0] == '`' && r[|r| - 1] == '`'
  {
  }

  /**
   * The usual shape of a fenced reply, "```json\n" + payload + "\n```", is
   * cleaned to exactly the payload, for any payload with no whitespace at its
   * ends that does not start with a backtick.
   */
  lemma NewlineFencedPayloadCleaned(payload: string)
    requires payload != [] && !IsSpace(payload[0]) && !IsSpace(payload[|payload| - 1]) && payload[0] != '`'
    ensures var reply := JsonFence + "\n" + payload + "\n" + Fence; CleanReview(Strip(reply)) == payload
  {
    var body := "\n" + payload + "\n";
    var reply := JsonFence + "\n" + payload + "\n" + Fence;
    RegroupMiddle(JsonFence, "\n", payload, "\n", Fence);
    JsonFencedEnds(body);
    NewlineIsSpace();
    StripAround("\n", payload, "\n");
    FencedReviewUnwrapped(reply, body);
    StripUnchanged(reply);
  }

  /** Worked example: a reply that is not JSON yields the degraded record with the pair's id appended. */
  lemma ExampleDegradedReply(parse: string -> Option<Json>, complete: Request -> Result<string, Error>, cfg: ReviewConfig)
    requires Route(cfg.model, Prompt(cfg, ExamplePair), cfg.claudeAvailable).Success?
    requires complete(Route(cfg.model, Prompt(cfg, ExamplePair), cfg.claudeAvailable).value) == Success("not json at all")
    requires parse("not json at all").None?
    ensures ReviewAll(parse, complete, cfg, [ExamplePair]) == Success([JObject([(RawOutputKey, JString("not json at all")), (IdKey, JNumber(1))])])
  {
    var reply := "not json at all";
    var tagged := JObject([(RawOutputKey, JString(reply)), (IdKey, JNumber(1))]);
    assert ReviewAndTag(parse, complete, cfg, ExamplePair) == Success(tagged) by {
      ExampleDegradedCleaning(reply);
      DegradedRecordIsTagged(parse, complete, cfg, ExamplePair, reply);
    }
    SingletonRun(parse, complete, cfg, ExamplePair, tagged);
  }

  /** The sanitizer leaves the degraded example's reply as it is. */
  lemma ExampleDegradedCleaning(reply: string)
    requires reply == "not json at all"
    ensures Strip(reply) == reply && CleanReview(Strip(reply)) == reply
  {
    assert !StartsWith(reply, Fence) by { assert reply[0] != Fence[0]; }
    assert !EndsWith(reply, Fence) by { assert reply[|reply| - 1] != Fence[2]; }
    StripUnchanged(reply);
    UnfencedReviewIsTrimmed(reply);
  }

  /**
   * The loop of `main`: truncate the corpus, then review each pair in order,
   * tag its result with the pair's id and append it; the first failure aborts.
   */
  method RunReview(parse: string -> Option<Json>, complete: Request -> Result<string, Error>, cfg: ReviewConfig, pairs: seq<Pair>, num: Option<int>)
    returns (outcome: Result<seq<Json>, Error>)
    ensures outcome == ReviewAll(parse, complete, cfg, Truncate(pairs, num))
  {
    var todo := Truncate(pairs, num);
    ghost var step := Step(parse, complete, cfg);
    var results: seq<Json> := [];
    for i := 0 to |todo|
      invariant RunAll(step, todo[..i]) == Success(results)
    {
      var res := ReviewPair(parse, complete, cfg, todo[i]);
      if res.Failure? {
        assert step(todo[i]) == Failure(res.error);
        FailureAborts(step, todo, i);
        return Failure(res.error);
      }
      var tagged := TagWithId(res.value, todo[i].id);
      if tagged.Failure? {
        assert step(todo[i]) == Failure(tagged.error);
        FailureAborts(step, todo, i);
        return Failure(tagged.error);
      }
      assert step(todo[i]) == Success(tagged.value);
      RunAllExtends(step, todo, i, results, tagged.value);
      results := results + [tagged.value];
    }
    assert todo[..|todo|] == todo;
    outcome := Success(results);
  }

  /** One more passing item appends its result to a run that so far has passed. */
  lemma RunAllExtends<T, R>(step: T -> Result<R, Error>, items: seq<T>, i: nat, done: seq<R>, last: R)
    requires i < |items| && RunAll(step, items[..i]) == Success(done) && step(items[i]) == Success(last)
    ensures RunAll(step, items[..i + 1]) == Success(done + [last])
  {
    var prefix := items[..i + 1];
    assert prefix[..i] == items[..i];
    assert prefix[i] == items[i];
  }

  /** Once every item before `i` has passed and item `i` fails, the whole run fails with item `i`'s error. */
  lemma {:induction false} FailureAborts<T, R>(step: T -> Result<R, Error>, items: seq<T>, i: nat)
    requires i < |items| && RunAll(step, items[..i]).Success? && step(items[i]).Failure?
    ensures RunAll(step, items) == Failure(step(items[i]).error)
    decreases |items|
  {
    if |items| - 1 == i {
      assert items[..|items| - 1] == items[..i];
    } else {
      var n := |items| - 1;
      assert items[..n][..i] == items[..i];
      FailureAborts(step, items[..n], i);
    }
  }
}
