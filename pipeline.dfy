/** `processMangaImage`: recognise the text of an image, group the recognised lines into
    blocks and translate the blocks, stopping at the first failure. */
module Pipeline {
  import opened Wrappers
  import opened Errors
  import opened Strings
  import opened Geometry
  import opened Finalizer
  import opened Clustering
  import opened Translation

  /** The settings a request carries: the OCR API key (absent when never set) and the target
      language ("idn" or "eng"). */
  datatype Config = Config(apiKey: Option<string>, tgtLang: string)

  /** What is sent to the OCR provider: the base64 image and the API key. */
  datatype OcrRequest = OcrRequest(image: string, apiKey: string)

  /** The decoded body of an OCR reply: the `IsErroredOnProcessing` flag and the overlay lines
      of the first parsed result, `None` when any step of that path is missing. */
  datatype OcrBody = OcrJson(isErroredOnProcessing: bool, overlayLines: Option<seq<RecognizedLine>>) | OcrNotJson

  /** A reply of the OCR provider, or a request that never got one. */
  datatype OcrReply = OcrNetworkFailure | OcrResponse(status: int, body: OcrBody)

  /** The API-key guard of `callOCRSpace`: a key is usable when it is set, non-empty and does
      not contain the placeholder "Null". */
  function ApiKeyUsable(key: Option<string>): (ok: bool)
    ensures ok <==> key.Some? && |key.value| > 0 && forall i: nat :: !OccursAt(key.value, "Null", i)
  {
    key.Some? && key.value != "" && !Contains(key.value, "Null")
  }

  /** `callOCRSpace` followed by the `ParsedResults?.[0]?.TextOverlay?.Lines || []` step of
      `performSuperSmartClustering`: the recognised lines, or why there are none. */
  function RecognizeLines(image: string, config: Config, ocr: OcrRequest -> OcrReply): (r: Result<seq<RecognizedLine>, PipelineError>)
    ensures !ApiKeyUsable(config.apiKey) ==> r == Err(ConfigurationError)
    ensures ApiKeyUsable(config.apiKey) ==>
      var reply := ocr(OcrRequest(image, config.apiKey.value));
      && (r == Err(AccessDenied) <==> reply.OcrResponse? && reply.status == 403)
      && (r == Err(TransportError) <==>
            || reply.OcrNetworkFailure?
            || (reply.OcrResponse? && reply.status != 403 && !(200 <= reply.status < 300))
            || (reply.OcrResponse? && 200 <= reply.status < 300 && reply.body.OcrNotJson?))
      && (r == Err(ProviderProcessingError) <==>
            reply.OcrResponse? && 200 <= reply.status < 300 && reply.body.OcrJson? && reply.body.isErroredOnProcessing)
      && (r.Ok? <==>
            reply.OcrResponse? && 200 <= reply.status < 300 && reply.body.OcrJson? && !reply.body.isErroredOnProcessing)
      && (r.Ok? ==> r.value == (if reply.body.overlayLines.Some? then reply.body.overlayLines.value else []))
    ensures r != Err(RateLimited) && r != Err(NoTextDetected)
  {
    if !ApiKeyUsable(config.apiKey) then Err(ConfigurationError)
    else
      match ocr(OcrRequest(image, config.apiKey.value))
      case OcrNetworkFailure => Err(TransportError)
      case OcrResponse(status, body) =>
        if status == 403 then Err(AccessDenied)
        else if !(200 <= status < 300) then Err(TransportError)
        else
          match body
          case OcrNotJson => Err(TransportError)
          case OcrJson(errored, lines) =>
            if errored then Err(ProviderProcessingError)
            else if lines.Some? then Ok(lines.value)
            else Ok([])
  }

  /** `processMangaImage`. A failed recognition ends the request with its error and no
      translation request; recognised text without any line ends it with `NoTextDetected`;
      otherwise the lines are clustered into `blocks` and the batch translation of those
      blocks, with its requests, is the outcome: one entry per block, or a prefix of them when
      the fallback met the rate limit, or `RateLimited` when the batch request met it. */
  method ProcessMangaImage(image: string, config: Config, ocr: OcrRequest -> OcrReply, provider: Request -> HttpReply)
    returns (result: Result<seq<TranslatedBlock>, PipelineError>, calls: seq<Request>,
             ghost blocks: seq<TextBlock>, ghost clusters: seq<seq<nat>>)
    ensures RecognizeLines(image, config, ocr).Err? ==>
      result == Err(RecognizeLines(image, config, ocr).error) && calls == []
    ensures result == Err(NoTextDetected) <==> RecognizeLines(image, config, ocr) == Ok([])
    ensures result == Err(NoTextDetected) ==> calls == []
    ensures RecognizeLines(image, config, ocr).Ok? && RecognizeLines(image, config, ocr).value != [] ==>
      && Clustered(RecognizeLines(image, config, ocr).value, blocks, clusters)
      && BatchTranslated(blocks, config.tgtLang, provider, result, calls)
    ensures result.Ok? ==>
      RecognizeLines(image, config, ocr).Ok? && 0 < |result.value| <= |RecognizeLines(image, config, ocr).value|
  {
    blocks, clusters := [], [];
    var recognized := RecognizeLines(image, config, ocr);
    if recognized.Err? {
      return Err(recognized.error), [], blocks, clusters;
    }
    var lines := recognized.value;
    var grouped, clustered := PerformSuperSmartClustering(lines);
    blocks, clusters := grouped, clustered;
    if |grouped| == 0 {
      return Err(NoTextDetected), [], blocks, clusters;
    }
    result, calls := TranslateBatch(grouped, config.tgtLang, provider);
  }
}
