/** The exceptions of the modelled code paths of the ticket pipeline, one constructor per
    cause; the ones on paths the model leaves out have none. */
module Failures {

  datatype Error =
    /** `binascii.Error` from `urlsafe_b64decode` on malformed base64url data. */
    | InvalidBase64
    /** Every one of the five attempts was rate-limited, so `response` is never bound
        and reading it raises `UnboundLocalError`. */
    | NoResponse
    /** An error of the completion service other than a rate limit. */
    | ServiceFailure(reason: string)
    /** `json.loads(None)`: the reply carried no text content (`TypeError`). */
    | NoContent
    /** `ValueError("Réponse modèle invalide : ...")`: the reply is not JSON and holds no
        `{ ... }` span; the reply text is attached. */
    | MalformedResponse(content: string)
    /** `json.JSONDecodeError` raised by the second parse, of the brace span. */
    | JsonDecodeError(text: string)
    /** `AttributeError`: the parsed JSON value is not an object, so it has no `get`. */
    | NotAnObject
    /** `AttributeError`: `synthese` is present but is not a string, so it has no `strip`. */
    | SummaryNotText
    /** `TypeError`: `categorie` is a JSON array or object, which cannot be hashed for the
        dictionary membership test. */
    | UnhashableCategory
    /** `KeyError` from `CATEGORY_TO_SHEET[category_key]`. */
    | UnknownCategory(key: string)
    /** An error raised by the Sheets append request's `execute`. */
    | AppendFailed(reason: string)
    /** An error of the mailbox collaborator while fetching a message. */
    | FetchFailed(reason: string)
    /** `NameError`: an `except` clause names `RateLimitError`, which is not imported. */
    | NameError(name: string)
}
