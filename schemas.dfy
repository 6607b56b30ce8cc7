/** The pydantic models of main.py as values. */
module Schemas {
  import opened Outcomes

  /** One recommended plant-protection product. */
  datatype Product = Product(name: string, dose: string, storeTalkHint: string)

  /** The JSON contract returned to the caller. */
  datatype AdviceResponse = AdviceResponse(
    summary: string,
    products: seq<Product>,
    sources: seq<string>,
    disclaimer: string)

  /** The request body; `crop` and `status` are required, the rest optional.
      The day count is a plain (possibly negative) Python `int`. */
  datatype AdviceRequest = AdviceRequest(
    crop: string,
    status: string,
    bbch: Option<string>,
    seasonContext: Option<string>,
    timeSinceLastSprayDays: Option<int>,
    situationDescription: Option<string>)

  /** What `json.loads` followed by `AdviceResponse.model_validate` makes of a
      text: the validated response, or the message of the exception raised. */
  datatype ParseResult = Parsed(response: AdviceResponse) | ParseError(message: string)

  /** JSON decoding plus schema validation, left abstract. */
  type JsonParser = string -> ParseResult
}
