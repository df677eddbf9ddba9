/** The error kinds a whole image-processing request can end with. */
module Errors {

  datatype PipelineError =
    | ConfigurationError       // the OCR API key is missing or a placeholder
    | AccessDenied             // the OCR provider answered 403
    | RateLimited              // the translation provider answered 429 to the batch request
    | ProviderProcessingError  // the OCR provider reported it could not process the image
    | TransportError           // any other non-2xx answer or a failed request
    | NoTextDetected           // recognition succeeded but produced no text block
}
