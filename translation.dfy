/** The translation step: `googleTranslatePost` against a provider given as a function from
    request to reply, the batch request `translateBatchGoogle`, and the block-by-block
    `translateSequentialFallback` it falls back to. */
module Translation {
  import opened Wrappers
  import opened Errors
  import opened Strings
  import opened Finalizer

  /** The separator the batch request puts between block texts. */
  const Separator: string := "\n\n"

  /** The text a block gets when the provider refuses with 429 during the fallback. */
  const LimitMarker: string := "\U{26D4} Limit"

  /** What is sent: the trimmed text `q` and the target language code `tl`. */
  datatype Request = Request(q: string, tl: string)

  /** The decoded body of a reply: `Json(None)` when `data[0]` is missing or falsy, otherwise
      the first field of every segment of `data[0]`; `NotJson` when the body does not parse. */
  datatype Body = Json(first: Option<seq<string>>) | NotJson

  /** A reply of the provider, or a request that never got one. */
  datatype HttpReply = NetworkFailure | Response(status: int, body: Body)

  /** How one call of `googleTranslatePost` ends: a text, the 429 refusal, or any other error. */
  datatype Outcome = Translated(text: string) | TooManyRequests | Failed

  /** A block together with its translation (`{ ...block, translatedText }`). */
  datatype TranslatedBlock = TranslatedBlock(block: TextBlock, translatedText: string)

  /** The `tl` parameter: "en" for the target "eng", the default "id" for "idn" and anything else. */
  function TargetCode(tgtLang: string): (tl: string)
    ensures tl == "en" || tl == "id"
    ensures tl == "en" <==> tgtLang == "eng"
  {
    if tgtLang == "eng" then "en" else "id"
  }

  /** The request `googleTranslatePost` sends for `text`: none when the text trims to nothing. */
  function PostRequest(text: string, tgtLang: string): (req: Option<Request>)
    ensures req.None? <==> Trim(text) == ""
    ensures req.Some? ==> req.value.q == Trim(text) && req.value.tl == TargetCode(tgtLang)
  {
    var clean := Trim(text);
    if clean == "" then None else Some(Request(clean, TargetCode(tgtLang)))
  }

  /** The requests one call of `googleTranslatePost` sends: at most one. */
  function PostCalls(text: string, tgtLang: string): (calls: seq<Request>)
    ensures |calls| <= 1 && (|calls| == 0 <==> Trim(text) == "")
  {
    match PostRequest(text, tgtLang)
    case None => []
    case Some(req) => [req]
  }

  /** `googleTranslatePost(text, config)`. A blank text gives "" without a request. Otherwise
      the provider's reply decides: 429 is the rate-limit refusal; any other status outside
      200..299, a failed request or an unparsable body is an error; a parsed body yields the
      concatenated segments, or the untrimmed `text` when `data[0]` is falsy. */
  function TranslatePost(text: string, tgtLang: string, provider: Request -> HttpReply): (o: Outcome)
    ensures Trim(text) == "" ==> o == Translated("")
    ensures o == TooManyRequests ==> PostRequest(text, tgtLang).Some?
  {
    match PostRequest(text, tgtLang)
    case None => Translated("")
    case Some(req) =>
      match provider(req)
      case NetworkFailure => Failed
      case Response(status, body) =>
        if status == 429 then TooManyRequests
        else if !(200 <= status < 300) then Failed
        else
          match body
          case NotJson => Failed
          case Json(None) => Translated(text)
          case Json(Some(segments)) => Translated(Join(segments, ""))
  }

  /** How `googleTranslatePost` ends: a blank text gives "" without a request; the 429
      refusal is exactly a 429 reply to the request sent; a translation of a non-blank text
      comes from a 2xx reply with a parsed body. */
  lemma TranslatePostCases(text: string, tgtLang: string, provider: Request -> HttpReply)
    ensures Trim(text) == "" ==> TranslatePost(text, tgtLang, provider) == Translated("")
    ensures TranslatePost(text, tgtLang, provider) == TooManyRequests <==>
      PostRequest(text, tgtLang).Some? && provider(PostRequest(text, tgtLang).value).Response?
      && provider(PostRequest(text, tgtLang).value).status == 429
    ensures TranslatePost(text, tgtLang, provider).Translated? && Trim(text) != "" ==>
      var reply := provider(PostRequest(text, tgtLang).value);
      reply.Response? && 200 <= reply.status < 300 && reply.body.Json?
    ensures Trim(text) != "" ==>
      var reply := provider(PostRequest(text, tgtLang).value);
      reply.Response? && 200 <= reply.status < 300 && reply.body.Json? ==>
        TranslatePost(text, tgtLang, provider)
          == Translated(if reply.body.first.Some? then Join(reply.body.first.value, "") else text)
  {
  }

  /** A blank text never reaches the provider, whatever the provider would answer. */
  lemma BlankTextNeedsNoProvider(text: string, tgtLang: string, p1: Request -> HttpReply, p2: Request -> HttpReply)
    requires Trim(text) == ""
    ensures TranslatePost(text, tgtLang, p1) == TranslatePost(text, tgtLang, p2) == Translated("")
    ensures PostCalls(text, tgtLang) == []
  {
  }

  /** The outcome only depends on the provider's answer to the one request sent. */
  lemma TranslatePostDependsOnlyOnReply(text: string, tgtLang: string, p1: Request -> HttpReply, p2: Request -> HttpReply)
    requires Trim(text) != ""
    requires p1(PostRequest(text, tgtLang).value) == p2(PostRequest(text, tgtLang).value)
    ensures TranslatePost(text, tgtLang, p1) == TranslatePost(text, tgtLang, p2)
  {
  }

  /** The block texts of a batch. */
  function OriginalTexts(blocks: seq<TextBlock>): (texts: seq<string>)
    ensures |texts| == |blocks| && forall k :: 0 <= k < |blocks| ==> texts[k] == blocks[k].originalText
  {
    seq(|blocks|, k requires 0 <= k < |blocks| => blocks[k].originalText)
  }

  /** The combined text of the batch request. Splitting it on the separator gives back the
      block texts when there is a block and none contains the separator. */
  function BatchText(blocks: seq<TextBlock>): (s: string)
    ensures |blocks| > 0 && (forall k :: 0 <= k < |blocks| ==> SeparatorFree(blocks[k].originalText, Separator)) ==>
      Split(s, Separator) == OriginalTexts(blocks)
  {
    var texts := OriginalTexts(blocks);
    assert |blocks| > 0 && (forall k :: 0 <= k < |blocks| ==> SeparatorFree(blocks[k].originalText, Separator)) ==>
      Split(Join(texts, Separator), Separator) == texts by {
      if |blocks| > 0 && forall k :: 0 <= k < |blocks| ==> SeparatorFree(blocks[k].originalText, Separator) {
        SplitJoin(texts, Separator);
      }
    }
    Join(texts, Separator)
  }

  /** The `blocks.map` of a successful batch: block `k` gets piece `k` of the split reply,
      trimmed, unless that piece is missing or empty, in which case it keeps its own text. */
  function ZipTranslations(blocks: seq<TextBlock>, pieces: seq<string>): (r: seq<TranslatedBlock>)
    ensures |r| == |blocks|
    ensures forall k :: 0 <= k < |blocks| ==> r[k].block == blocks[k]
    ensures forall k :: 0 <= k < |blocks| ==>
      if k < |pieces| && pieces[k] != "" then r[k].translatedText == Trim(pieces[k])
      else r[k].translatedText == blocks[k].originalText
  {
    seq(|blocks|, k requires 0 <= k < |blocks| =>
      TranslatedBlock(blocks[k], if k < |pieces| && pieces[k] != "" then Trim(pieces[k]) else blocks[k].originalText))
  }

  lemma TrimEmpty()
    ensures Trim("") == ""
  {
  }

  /** Joining the block texts and splitting them again gives every block its own text back,
      trimmed, provided no block text contains the separator: a provider that returns the
      batch unchanged leaves every block with its own trimmed text. */
  lemma {:induction false} BatchRoundTrip(blocks: seq<TextBlock>)
    requires |blocks| > 0
    requires forall k :: 0 <= k < |blocks| ==> SeparatorFree(blocks[k].originalText, Separator)
    ensures var r := ZipTranslations(blocks, Split(BatchText(blocks), Separator));
      forall k :: 0 <= k < |blocks| ==> r[k].translatedText == Trim(blocks[k].originalText)
  {
    var texts := OriginalTexts(blocks);
    SplitJoin(texts, Separator);
    TrimEmpty();
  }

  /** A provider that answers every request with a single segment holding the request's own
      text: the batch request comes back unchanged except for `googleTranslatePost`'s trim. */
  function Echo(req: Request): HttpReply
  {
    Response(200, Json(Some([req.q])))
  }

  /** Through `googleTranslatePost` and an echoing provider the joined texts come back
      unchanged when trimming them changes nothing, and then every block is zipped with its
      own trimmed text. */
  lemma EchoBatchRoundTrip(blocks: seq<TextBlock>, tgtLang: string)
    requires |blocks| > 0
    requires forall k :: 0 <= k < |blocks| ==> SeparatorFree(blocks[k].originalText, Separator)
    requires Trim(BatchText(blocks)) == BatchText(blocks)
    ensures TranslatePost(BatchText(blocks), tgtLang, Echo) == Translated(BatchText(blocks))
    ensures var r := ZipTranslations(blocks, Split(BatchText(blocks), Separator));
      forall k :: 0 <= k < |blocks| ==> r[k].translatedText == Trim(blocks[k].originalText)
  {
    EchoTrims(BatchText(blocks), tgtLang);
    BatchRoundTrip(blocks);
  }

  /** An echoing provider gives back the trimmed text. */
  lemma EchoTrims(text: string, tgtLang: string)
    ensures TranslatePost(text, tgtLang, Echo) == Translated(Trim(text))
  {
    if Trim(text) != "" {
      var req := Request(Trim(text), TargetCode(tgtLang));
      assert PostRequest(text, tgtLang) == Some(req);
      assert Echo(req) == Response(200, Json(Some([Trim(text)])));
      assert Join([Trim(text)], "") == Trim(text);
    }
  }

  lemma TrimSamples()
    ensures Trim(" \n\na") == "a" && Trim(" ") == ""
  {
    assert IsWhitespace(' ') && IsWhitespace('\n') && !IsWhitespace('a');
    assert TrimStart("a") == "a";
    assert TrimStart("\na") == TrimStart("a") by { assert "\na"[1..] == "a"; }
    assert TrimStart("\n\na") == TrimStart("\na") by { assert "\n\na"[1..] == "\na"; }
    assert TrimStart(" \n\na") == TrimStart("\n\na") by { assert " \n\na"[1..] == "\n\na"; }
    assert TrimEnd("a") == "a";
    assert TrimStart(" ") == TrimStart("") by { assert " "[1..] == ""; }
  }

  /** Without that condition the pieces can shift: with a blank first block the trim of the
      joined texts swallows the first separator, so the first block receives the second
      block's text and the second block keeps its own untranslated text. */
  lemma BlankFirstBlockShifts(tgtLang: string, box: Box)
    ensures var blocks := [TextBlock(" ", box), TextBlock("a", box)];
      && TranslatePost(BatchText(blocks), tgtLang, Echo) == Translated("a")
      && ZipTranslations(blocks, Split("a", Separator))[0].translatedText == "a"
      && ZipTranslations(blocks, Split("a", Separator))[1].translatedText == "a"
      && Trim(blocks[0].originalText) == ""
  {
    var blocks := [TextBlock(" ", box), TextBlock("a", box)];
    BatchTextOfTwo(blocks[0], blocks[1]);
    assert BatchText(blocks) == " \n\na";
    TrimSamples();
    EchoTrims(" \n\na", tgtLang);
    assert Split("a", Separator) == ["a"];
  }

  lemma BatchTextOfTwo(b0: TextBlock, b1: TextBlock)
    ensures BatchText([b0, b1]) == b0.originalText + Separator + b1.originalText
  {
    assert OriginalTexts([b0, b1]) == [b0.originalText, b1.originalText];
    var texts := [b0.originalText, b1.originalText];
    assert texts[1..] == [b1.originalText];
    assert Join(texts[1..], Separator) == b1.originalText;
    assert Join(texts, Separator) == texts[0] + Separator + Join(texts[1..], Separator);
  }

  /** What the fallback records for a block after one attempt. */
  function Settle(block: TextBlock, o: Outcome): (r: TranslatedBlock)
    ensures r.block == block
    ensures o.Translated? ==> r.translatedText == o.text
    ensures o == TooManyRequests ==> r.translatedText == LimitMarker
    ensures o == Failed ==> r.translatedText == block.originalText
  {
    match o
    case Translated(t) => TranslatedBlock(block, t)
    case TooManyRequests => TranslatedBlock(block, LimitMarker)
    case Failed => TranslatedBlock(block, block.originalText)
  }

  /** The outcome of the fallback's attempt on each block, in order. */
  function Attempts(blocks: seq<TextBlock>, tgtLang: string, provider: Request -> HttpReply): (os: seq<Outcome>)
    ensures |os| == |blocks|
    ensures forall k :: 0 <= k < |blocks| ==> os[k] == TranslatePost(blocks[k].originalText, tgtLang, provider)
  {
    seq(|blocks|, k requires 0 <= k < |blocks| => TranslatePost(blocks[k].originalText, tgtLang, provider))
  }

  /** No attempt before position `i` was refused with 429. */
  ghost predicate NoLimitBefore(outcomes: seq<Outcome>, i: int)
  {
    forall k :: 0 <= k < i && k < |outcomes| ==> outcomes[k] != TooManyRequests
  }

  lemma NoLimitStep(outcomes: seq<Outcome>, i: nat)
    requires NoLimitBefore(outcomes, i) && i < |outcomes| && outcomes[i] != TooManyRequests
    ensures NoLimitBefore(outcomes, i + 1)
  {
  }

  /** The results of `translateSequentialFallback` when attempt `k` on block `k` ends with
      `outcomes[k]`: the blocks settled one by one, in order, up to and including the first
      one refused with 429. */
  function SequentialRun(blocks: seq<TextBlock>, outcomes: seq<Outcome>): (r: seq<TranslatedBlock>)
    requires |outcomes| == |blocks|
    ensures |r| <= |blocks| && (|r| == 0 <==> |blocks| == 0)
  {
    if blocks == [] then []
    else if outcomes[0] == TooManyRequests then [Settle(blocks[0], outcomes[0])]
    else [Settle(blocks[0], outcomes[0])] + SequentialRun(blocks[1..], outcomes[1..])
  }

  /** The run is aligned with the blocks: result `k` settles block `k` with its own outcome;
      no attempt before the last result was refused with 429, and a run that stops early
      stops at a 429. */
  lemma {:induction false} SequentialRunShape(blocks: seq<TextBlock>, outcomes: seq<Outcome>)
    requires |outcomes| == |blocks|
    ensures var r := SequentialRun(blocks, outcomes);
      && (forall k :: 0 <= k < |r| ==> r[k] == Settle(blocks[k], outcomes[k]))
      && NoLimitBefore(outcomes, |r| - 1)
      && (|r| < |blocks| ==> outcomes[|r| - 1] == TooManyRequests)
  {
    if blocks != [] && outcomes[0] != TooManyRequests {
      SequentialRunShape(blocks[1..], outcomes[1..]);
      assert forall k :: 0 < k < |blocks| ==> blocks[1..][k - 1] == blocks[k] && outcomes[1..][k - 1] == outcomes[k];
    }
  }

  /** The first 429, at position `k`, ends the run: `k + 1` results, the last one marked. */
  lemma SequentialRunStopsAtFirstLimit(blocks: seq<TextBlock>, outcomes: seq<Outcome>, k: nat)
    requires |outcomes| == |blocks| && k < |blocks|
    requires outcomes[k] == TooManyRequests && NoLimitBefore(outcomes, k)
    ensures var r := SequentialRun(blocks, outcomes);
      |r| == k + 1 && r[k].translatedText == LimitMarker && r[k].block == blocks[k]
  {
    SequentialRunShape(blocks, outcomes);
  }

  /** Without any 429 every block gets a result. */
  lemma SequentialRunCompletes(blocks: seq<TextBlock>, outcomes: seq<Outcome>)
    requires |outcomes| == |blocks| && NoLimitBefore(outcomes, |blocks|)
    ensures |SequentialRun(blocks, outcomes)| == |blocks|
  {
    SequentialRunShape(blocks, outcomes);
  }

  /** The requests the fallback sends for the blocks it attempts: one per non-blank text. */
  function CallsFor(blocks: seq<TextBlock>, tgtLang: string): (calls: seq<Request>)
    ensures |calls| <= |blocks|
  {
    if blocks == [] then []
    else CallsFor(blocks[..|blocks| - 1], tgtLang) + PostCalls(blocks[|blocks| - 1].originalText, tgtLang)
  }

  lemma CallsForStep(blocks: seq<TextBlock>, tgtLang: string, i: nat)
    requires i < |blocks|
    ensures CallsFor(blocks[..i + 1], tgtLang) == CallsFor(blocks[..i], tgtLang) + PostCalls(blocks[i].originalText, tgtLang)
  {
    assert blocks[..i + 1][..i] == blocks[..i];
  }

  /** While no 429 intervenes, one more block extends the run by that block settled. */
  lemma {:induction false} SequentialRunPrefix(blocks: seq<TextBlock>, outcomes: seq<Outcome>, i: nat)
    requires |outcomes| == |blocks| && i < |blocks| && NoLimitBefore(outcomes, i)
    ensures SequentialRun(blocks[..i + 1], outcomes[..i + 1])
         == SequentialRun(blocks[..i], outcomes[..i]) + [Settle(blocks[i], outcomes[i])]
  {
    if i > 0 {
      var bs, os := blocks[1..], outcomes[1..];
      assert NoLimitBefore(os, i - 1) by {
        assert forall k :: 0 <= k < i - 1 ==> os[k] == outcomes[k + 1];
      }
      SequentialRunPrefix(bs, os, i - 1);
      assert outcomes[..i + 1][0] == outcomes[..i][0] == outcomes[0];
      assert blocks[..i + 1][1..] == bs[..i] && blocks[..i][1..] == bs[..i - 1];
      assert outcomes[..i + 1][1..] == os[..i] && outcomes[..i][1..] == os[..i - 1];
    }
  }

  /** A 429 at position `i` with none before it: the run on the blocks up to `i` is the whole run. */
  lemma {:induction false} SequentialRunTruncate(blocks: seq<TextBlock>, outcomes: seq<Outcome>, i: nat)
    requires |outcomes| == |blocks| && i < |blocks| && NoLimitBefore(outcomes, i)
    requires outcomes[i] == TooManyRequests
    ensures SequentialRun(blocks, outcomes) == SequentialRun(blocks[..i + 1], outcomes[..i + 1])
  {
    if i > 0 {
      var bs, os := blocks[1..], outcomes[1..];
      assert NoLimitBefore(os, i - 1) by {
        assert forall k :: 0 <= k < i - 1 ==> os[k] == outcomes[k + 1];
      }
      SequentialRunTruncate(bs, os, i - 1);
      assert outcomes[..i + 1][0] == outcomes[0];
      assert blocks[..i + 1][1..] == bs[..i] && outcomes[..i + 1][1..] == os[..i];
    }
  }

  /** The state of the fallback loop after the blocks below `i`: no 429 so far, the results
      are the run on those blocks and the requests are theirs. */
  ghost predicate FallbackAfter(blocks: seq<TextBlock>, outcomes: seq<Outcome>, tgtLang: string, i: nat,
                                results: seq<TranslatedBlock>, calls: seq<Request>)
  {
    && |outcomes| == |blocks| && i <= |blocks|
    && NoLimitBefore(outcomes, i)
    && results == SequentialRun(blocks[..i], outcomes[..i]) && |results| == i
    && calls == CallsFor(blocks[..i], tgtLang)
  }

  lemma FallbackStep(blocks: seq<TextBlock>, outcomes: seq<Outcome>, tgtLang: string, i: nat,
                     results: seq<TranslatedBlock>, calls: seq<Request>)
    requires FallbackAfter(blocks, outcomes, tgtLang, i, results, calls) && i < |blocks|
    requires outcomes[i] != TooManyRequests
    ensures FallbackAfter(blocks, outcomes, tgtLang, i + 1, results + [Settle(blocks[i], outcomes[i])],
                          calls + PostCalls(blocks[i].originalText, tgtLang))
  {
    SequentialRunPrefix(blocks, outcomes, i);
    CallsForStep(blocks, tgtLang, i);
    NoLimitStep(outcomes, i);
  }

  lemma FallbackStop(blocks: seq<TextBlock>, outcomes: seq<Outcome>, tgtLang: string, i: nat,
                     results: seq<TranslatedBlock>, calls: seq<Request>)
    requires FallbackAfter(blocks, outcomes, tgtLang, i, results, calls) && i < |blocks|
    requires outcomes[i] == TooManyRequests
    ensures var results' := results + [Settle(blocks[i], outcomes[i])];
      && results' == SequentialRun(blocks, outcomes)
      && calls + PostCalls(blocks[i].originalText, tgtLang) == CallsFor(blocks[..|results'|], tgtLang)
  {
    SequentialRunPrefix(blocks, outcomes, i);
    SequentialRunTruncate(blocks, outcomes, i);
    CallsForStep(blocks, tgtLang, i);
  }

  lemma FallbackDone(blocks: seq<TextBlock>, outcomes: seq<Outcome>, tgtLang: string,
                     results: seq<TranslatedBlock>, calls: seq<Request>)
    requires FallbackAfter(blocks, outcomes, tgtLang, |blocks|, results, calls)
    ensures results == SequentialRun(blocks, outcomes) && calls == CallsFor(blocks[..|results|], tgtLang)
  {
    assert blocks[..|blocks|] == blocks && outcomes[..|blocks|] == outcomes;
  }

  /** `translateSequentialFallback`: one request per block, in order; a block's translation,
      or its own text after any error other than 429; the first 429 records the limit marker
      and stops the loop. */
  method TranslateSequentialFallback(blocks: seq<TextBlock>, tgtLang: string, provider: Request -> HttpReply)
    returns (results: seq<TranslatedBlock>, calls: seq<Request>)
    ensures results == SequentialRun(blocks, Attempts(blocks, tgtLang, provider))
    ensures calls == CallsFor(blocks[..|results|], tgtLang)
  {
    ghost var outcomes := Attempts(blocks, tgtLang, provider);
    results, calls := [], [];
    for i := 0 to |blocks|
      invariant FallbackAfter(blocks, outcomes, tgtLang, i, results, calls)
    {
      var o := TranslatePost(blocks[i].originalText, tgtLang, provider);
      assert o == outcomes[i];
      if o == TooManyRequests {
        FallbackStop(blocks, outcomes, tgtLang, i, results, calls);
        results := results + [Settle(blocks[i], o)];
        calls := calls + PostCalls(blocks[i].originalText, tgtLang);
        return;
      }
      FallbackStep(blocks, outcomes, tgtLang, i, results, calls);
      results := results + [Settle(blocks[i], o)];
      calls := calls + PostCalls(blocks[i].originalText, tgtLang);
    }
    FallbackDone(blocks, outcomes, tgtLang, results, calls);
  }

  /** What `translateBatchGoogle` promises: no block gives no result and no request;
      otherwise the outcome of the one request for the joined texts decides. A translation is
      split and zipped onto the blocks; a 429 fails the whole batch with `RateLimited` after
      exactly that request; any other failure gives the fallback's results, after the batch
      request and the fallback's own requests. */
  ghost predicate BatchTranslated(blocks: seq<TextBlock>, tgtLang: string, provider: Request -> HttpReply,
                                  result: Result<seq<TranslatedBlock>, PipelineError>, calls: seq<Request>)
  {
    && (blocks == [] ==> result == Ok([]) && calls == [])
    && (blocks != [] ==>
         match TranslatePost(BatchText(blocks), tgtLang, provider)
         case Translated(t) =>
           && result == Ok(ZipTranslations(blocks, Split(t, Separator)))
           && calls == PostCalls(BatchText(blocks), tgtLang)
         case TooManyRequests =>
           && result == Err(RateLimited)
           && calls == PostCalls(BatchText(blocks), tgtLang) && |calls| == 1
         case Failed =>
           && result == Ok(SequentialRun(blocks, Attempts(blocks, tgtLang, provider)))
           && calls == PostCalls(BatchText(blocks), tgtLang) + CallsFor(blocks[..|result.value|], tgtLang))
  }

  /** `translateBatchGoogle`. No block: no request and no result. Otherwise one request for
      the joined texts: a translation is split and zipped onto the blocks; a 429 fails the
      whole batch without falling back; any other error hands over to the fallback. */
  method TranslateBatch(blocks: seq<TextBlock>, tgtLang: string, provider: Request -> HttpReply)
    returns (result: Result<seq<TranslatedBlock>, PipelineError>, calls: seq<Request>)
    ensures BatchTranslated(blocks, tgtLang, provider, result, calls)
  {
    if |blocks| == 0 {
      return Ok([]), [];
    }
    var combined := BatchText(blocks);
    var o := TranslatePost(combined, tgtLang, provider);
    TranslatePostCases(combined, tgtLang, provider);
    calls := PostCalls(combined, tgtLang);
    match o
    case Translated(t) =>
      result := Ok(ZipTranslations(blocks, Split(t, Separator)));
    case TooManyRequests =>
      result := Err(RateLimited);
    case Failed =>
      var results, more := TranslateSequentialFallback(blocks, tgtLang, provider);
      result := Ok(results);
      calls := calls + more;
  }
}
