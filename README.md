# Support-ticket triage, modelled in Dafny

The system reads support emails from a Gmail mailbox. It asks a Groq-hosted language model
to classify each one into a category, an urgency level and a short summary. It then appends
one row per ticket to the Google Sheets tab of that category. This project models the
deterministic code around those three services and proves properties of it:

- `config.dfy` (module `Config`): the closed category-to-tab table and the ordered urgency
  levels.
- `gmail_client.dfy` (module `GmailClient`): case-insensitive header lookup, base64url body
  decoding with UTF-8 first and Latin-1 as fallback, the recursive multipart walk that
  collects `text/plain` and `text/html` leaves (a class whose two lists grow as the tree is
  visited), plain-over-HTML body selection, the paging loop with its `limit` truncation, and
  the fetch loop of `get_all_emails`.
- `groq_model.dfy` (module `GroqModel`): the five-attempt retry loop on rate limits, parsing
  of the reply (first as a whole, then its first-`{` to last-`}` span), and normalisation
  against the closed sets.
- `sheets_client.dfy` (module `SheetsClient`): building the append request, with its quoted
  A1 range and its fixed three-field row.
- `pipeline.dfy` (module `Pipeline`): `process_all_tickets`, the loop that classifies and
  appends each email and counts processed and skipped tickets.
- Support modules: `wrappers.dfy` (Option, Result, Outcome), `bytes.dfy`, `failures.dfy`
  (the Python exceptions of the modelled code paths, one constructor per cause, as one
  `Error` datatype; those on the paths listed under "Left out" have none), `text.dfy` (Python's
  `strip`, `lower`, `join` and `startswith` on `seq<char>`), `base64url.dfy` (section 5 of
  RFC 4648), `utf8.dfy` (the strict decoder of Table 3-7 of the Unicode Standard, and
  Latin-1).

The services are parameters:

- The completion service is a function from the user message and the attempt number to a
  reply, a rate limit or another error. There is one such function per ticket position.
- `json.loads` is an oracle `string -> Option<Json>`.
- BeautifulSoup's text extraction is a `string -> Option<string>`, where None means that it
  raised.
- A Gmail `messages().get` is `string -> Result<Message, Error>`.
- The `messages().list` responses are a sequence of pages, the last of which has no
  next-page token.
- Running a Sheets append request is `(position, request) -> Outcome<string>`.

Sleeps are recorded as events rather than taken.

What the code does (and does not do):

- The code keeps no ledger of processed message ids and does no deduplication: every
  fetched email is analysed on every run.
- The fallback parse takes the span from the first `{` to the last `}` (a greedy regular
  expression), not a balanced-brace span.
- A failure while fetching an email aborts the run before any ticket is handled. A failing listing call is not modelled (see "Left out").

## Model

| member | source | states |
|---|---|---|
| Config.CategoryKeys | config.py:22-30 | the category table has exactly the five keys probleme_technique, demande_administrative, probleme_acces_auth, support_utilisateur and bug_service |
| Config.SharedTechnicalSheet | config.py:22-30 | bug_service and probleme_technique share "Problème technique informatique", so the five categories route to exactly four distinct tabs |
| Config.UrgencyLevelsDistinct | config.py:34 | the urgency list holds five distinct levels, in the order Anodine, Faible, Modérée, Élevée, Critique |
| Config.DefaultsValid | config.py:22-34 | the fallbacks are valid: support_utilisateur is a key of the table and Modérée is one of the urgency levels |
| Text.Lower | gmail_client.py:44 | lower-casing keeps the length and lower-cases each character (ASCII letters) |
| Text.LowerIdempotent | gmail_client.py:44 | lower-casing twice is lower-casing once |
| Text.EqualsIgnoreCaseIff | gmail_client.py:44 | two names compare equal case-insensitively exactly when they agree character by character up to case |
| Text.TrimStart | gmail_client.py:116-117 | the result is a suffix of the input, and what was cut is all whitespace, and the result does not start with whitespace |
| Text.TrimEnd | gmail_client.py:116-117 | the result is a prefix of the input, and what was cut is all whitespace, and the result does not end with whitespace |
| Text.Strip | groq_model.py:99 | the result is a substring of the input with only whitespace around it, and it neither starts nor ends with whitespace |
| Text.StripIdempotent | groq_model.py:99 | stripping a stripped text changes nothing |
| Text.StripNoSpace | groq_model.py:99 | a text that neither starts nor ends with whitespace is stripped to itself |
| Text.Join | gmail_client.py:116-117 | joining no texts gives "", joining one text gives that text |
| Base64Url.LetterOf | gmail_client.py:61 | every sextet has a letter in the URL-safe alphabet that decodes back to it |
| Base64Url.LetterOfSextetOf | gmail_client.py:61 | a letter of the alphabet is the letter of its own sextet |
| Base64Url.DecodeQuad | gmail_client.py:61 | four characters decode to three bytes exactly when all four are letters of the alphabet |
| Base64Url.DecodeFinal | gmail_client.py:61 | a decodable last group yields between one and three bytes |
| Base64Url.Decode | gmail_client.py:61 | a decodable text has a length that is a multiple of four, and yields at most three bytes per group |
| Base64Url.EncodeTriple | gmail_client.py:61 | three bytes encode to four letters of the alphabet |
| Base64Url.Encode | gmail_client.py:61 | the encoding has four characters per started group of three bytes, all letters or padding |
| Base64Url.DecodeEncodeTriple | gmail_client.py:61 | decoding the encoding of three bytes gives them back |
| Base64Url.DecodeEncode | gmail_client.py:61 | base64url decoding inverts base64url encoding for every byte sequence |
| Utf8.DecodeFirst | gmail_client.py:63 | a well-formed first character consumes one to four bytes |
| Utf8.Decode | gmail_client.py:63 | strict UTF-8 decoding yields at most one character per byte |
| Utf8.EncodeChar | gmail_client.py:63 | a character encodes to one to four bytes |
| Utf8.Encode | gmail_client.py:63 | a text encodes to between one and four bytes per character |
| Utf8.DecodeFirstEncodeChar | gmail_client.py:63 | the first character of an encoding decodes back, with its own byte count |
| Utf8.DecodeEncode | gmail_client.py:63 | strict UTF-8 decoding inverts UTF-8 encoding for every string |
| Utf8.DecodeFirstIsEncoding | gmail_client.py:63 | the bytes of a well-formed first character are exactly that character's encoding |
| Utf8.DecodeIsEncoding | gmail_client.py:63 | every byte sequence the strict decoder accepts is the encoding of the text it returns |
| Utf8.DecodeIff | gmail_client.py:63 | strict UTF-8 decoding of some bytes gives a text exactly when those bytes are that text's encoding |
| Utf8.Latin1 | gmail_client.py:65 | Latin-1 decoding maps each byte to the character with that code |
| Utf8.Latin1Injective | gmail_client.py:65 | distinct byte sequences give distinct Latin-1 texts |
| GmailClient.HeaderValueIsFirstMatch | gmail_client.py:42-46 | the header value is "" when no header name matches case-insensitively, or when there are no headers; otherwise it is the value of the first matching header |
| GmailClient.HeaderValueIgnoresCase | gmail_client.py:44 | names that differ only in case find the same header value |
| GmailClient.GetHeader | gmail_client.py:38-46 | the loop with early return yields the header value of the message's headers |
| GmailClient.GetMessageSubject | gmail_client.py:49-50 | the subject is the value of the "Subject" header |
| GmailClient.DecodeBodyData | gmail_client.py:53-65 | absent or empty data gives ""; otherwise decoding fails exactly when the data is not base64url, and gives the UTF-8 text or, failing that, the Latin-1 text of the bytes |
| GmailClient.DecodeBodyDataOfText | gmail_client.py:53-63 | the base64url encoding of a UTF-8 text decodes back to that text |
| GmailClient.DecodeBodyDataFallsBackToLatin1 | gmail_client.py:62-65 | bytes that are not UTF-8 decode to their Latin-1 text |
| GmailClient.ThenAssociative | gmail_client.py:80-114 | collecting texts in sequence does not depend on grouping |
| GmailClient.ThenIdentity | gmail_client.py:80-114 | collecting nothing before or after changes nothing |
| GmailClient.Finish | gmail_client.py:116-117 | a result is absent exactly when no text was collected |
| GmailClient.ScanBodiesAppend | gmail_client.py:94-114 | scanning two runs of leaves is scanning one and then the other |
| GmailClient.WalkIsLeafScan | gmail_client.py:83-101 | walking a part collects exactly the bodies of its leaves in depth-first document order; a part with sub-parts contributes only through them |
| GmailClient.WalkAllIsLeafScan | gmail_client.py:89-91 | walking a list of parts collects the bodies of all their leaves in order |
| GmailClient.PayloadIsSourceScan | gmail_client.py:103-114 | the payload's own body comes first, then the leaves of its parts, in document order |
| GmailClient.BodyTextsEmptyIff | gmail_client.py:94-101 | one part adds a plain text exactly when it has data and a text/plain type, and an html text exactly when it has data and a text/html (not text/plain) type |
| GmailClient.ScanBodiesEmptyIff | gmail_client.py:94-101 | the plain list stays empty exactly when no scanned part with data is text/plain, and likewise for the html list |
| GmailClient.ExtractedNoneIff | gmail_client.py:116-117 | plain is None exactly when no part with data is text/plain, and html is None exactly when no part with data is text/html |
| GmailClient.TextCollector.constructor | gmail_client.py:80-81 | both lists start empty |
| GmailClient.TextCollector.Add | gmail_client.py:97-101 | a text goes to the plain list or to the html list by MIME type prefix, else nowhere |
| GmailClient.TextCollector.Walk | gmail_client.py:83-101 | the recursive walk appends to the two lists exactly the texts of the part's leaves, or stops with the decoding error |
| GmailClient.TextCollector.WalkEach | gmail_client.py:90-91 | walking the parts in order appends exactly their texts, or stops at the first error |
| GmailClient.WalkAllFailureStops | gmail_client.py:89-91 | once a part fails, the parts after it do not change the outcome |
| GmailClient.ExtractTextFromPayload | gmail_client.py:68-119 | the imperative collection returns the plain and html results of the payload's document-order leaf scan |
| GmailClient.GetMessageBody | gmail_client.py:122-147 | the body is the non-empty plain text if any, else the cleaned HTML (raw HTML when cleaning raises), else "" |
| GmailClient.SelectBody | gmail_client.py:134-147 | non-empty plain text wins; without it, non-empty HTML gives its converted text (the HTML itself when the converter fails); the body is empty exactly when there is neither or the converter turns the HTML into "" |
| GmailClient.PlainTextWins | gmail_client.py:134-135 | a message with non-empty plain text has that text as its body, whatever the HTML cleaner does |
| GmailClient.SinglePlainPartBody | gmail_client.py:83-135 | a multipart message with one text/plain part encoded as base64url UTF-8 has that text, stripped, as its body, for every text including the empty one |
| GmailClient.PyPrefix | gmail_client.py:199-200 | Python's `xs[:n]` is a prefix of xs, of length n for 0 <= n <= len(xs), all of xs beyond, and len(xs)+n for a negative n |
| GmailClient.ListMessageIds | gmail_client.py:173-200 | the paging loop, stopping at the last page or once limit ids are gathered, then the truncation, yields the listed ids |
| GmailClient.GatheredIsPrefix | gmail_client.py:176-197 | the pages gathered so far extend what was gathered before by a prefix of the remaining ids |
| GmailClient.ListedIdsIsBoundedPrefix | gmail_client.py:196-200 | the listed ids are a prefix of all ids in listing order, and at most limit of them when limit is positive |
| GmailClient.GatheredAll | gmail_client.py:176-197 | without a limit every page is read; with a positive limit at least min(limit, all ids) are gathered |
| GmailClient.ListedIdsCount | gmail_client.py:196-200 | without a limit all ids are listed; with a positive limit no larger than the listing exactly limit ids are listed |
| GmailClient.FetchEmail | gmail_client.py:204-218 | one turn of the loop builds exactly the email record of that id, or returns the error of the fetch or of the body decoding |
| GmailClient.FetchAll | gmail_client.py:201-221 | over a list of ids: succeeds exactly when every message can be fetched and its body decoded, and then returns one email per id, in order; otherwise returns the error of the first message that failed, all before it having succeeded |
| GmailClient.GetAllEmails | gmail_client.py:202-221 | the same, over the ids the listing yields: one email per listed id in order, or the error of the first listed message that cannot be fetched or decoded |
| GroqModel.FirstAnswered | groq_model.py:67-82 | the first attempt from a given one that is not rate-limited, or 5 when all are |
| GroqModel.RequestCompletion | groq_model.py:67-84 | the retry loop's response and events are those of the retry specification |
| GroqModel.RateLimitedRoundsShape | groq_model.py:80-82 | n rate-limited rounds are calls 0 to n-1, each followed by exactly one 10-second sleep |
| GroqModel.RetryEvents | groq_model.py:67-82 | the service is called at most 5 times and the loop stops at the first call that is not rate-limited; every rate-limited attempt, the fifth included, is followed by one 10-second sleep |
| GroqModel.RetryExhaustedIff | groq_model.py:67-84 | there is no response, which raises at its use, exactly when all 5 attempts were rate-limited |
| GroqModel.RetryAnswerIff | groq_model.py:67-78 | the response is content c exactly when some attempt replied c and every attempt before it was rate-limited |
| GroqModel.OtherErrorNotRetried | groq_model.py:68-80 | an error other than a rate limit on the first attempt propagates after that single call, with no sleep |
| GroqModel.IndexOf | groq_model.py:92 | the position of the first occurrence of a character, or None when it does not occur |
| GroqModel.LastIndexOf | groq_model.py:92 | the position of the last occurrence of a character, or None when it does not occur |
| GroqModel.BraceBounds | groq_model.py:92 | the span runs from the first '{' to the last '}', and exists exactly when some '{' comes before some '}' |
| GroqModel.BraceSpan | groq_model.py:92 | the matched text starts with '{', ends with '}', is the text between those bounds, and exists exactly when some '{' precedes some '}' |
| GroqModel.BraceSpanOfWrapped | groq_model.py:92 | a text without '{' before a braced span and without '}' after it yields exactly that span, whatever the span holds |
| GroqModel.ParseReply | groq_model.py:84-95 | a null content fails; a reply that parses is used as it is; otherwise its brace span is parsed; no span raises with the reply text, and a span that does not parse raises the decoding error |
| GroqModel.CategoryOf | groq_model.py:97-103 | the category is always a key of the table: the value itself when it is a key, support_utilisateur otherwise |
| GroqModel.UrgencyOf | groq_model.py:98-105 | the urgency is always one of the five levels: the value itself when it is one, Modérée otherwise |
| GroqModel.Normalise | groq_model.py:97-111 | validation succeeds exactly when the data is an object whose synthese, if present, is a string and whose categorie is hashable; the summary is the stripped synthese or "", and category and urgency lie in the closed sets |
| GroqModel.NormaliseOfClassification | groq_model.py:97-111 | a classification in the closed sets keeps its category and urgency and has its summary stripped |
| GroqModel.NormaliseKeepsValid | groq_model.py:97-111 | an object whose fields already are a known category, a known urgency and a stripped summary comes through unchanged |
| GroqModel.NormaliseIdempotent | groq_model.py:97-111 | normalising a normalised result again changes nothing |
| GroqModel.Analysis | groq_model.py:44-111 | a successful classification has its category in the table and its urgency among the five levels |
| GroqModel.AnalyzeTicket | groq_model.py:44-111 | `analyze_ticket` returns the classification of the ticket's user message, and its calls and sleeps are those of the retry loop |
| GroqModel.UserContent | groq_model.py:53 | the message is "Sujet: ", the subject, a blank line, "Contenu:", a newline and the body, 18 characters longer than subject and body |
| GroqModel.JsonInTextExample | groq_model.py:87-95 | a reply `noise {...} trailing` that does not parse as a whole is read from its brace span |
| GroqModel.ExampleNormalises | groq_model.py:97-111 | the example object validates to support_utilisateur, Faible, "ok" |
| GroqModel.JsonInTextAnalysis | groq_model.py:44-111 | a first reply holding the example object between noise classifies the ticket as support_utilisateur, Faible, "ok" |
| GroqModel.UnknownCategoryFallsBack | groq_model.py:102-103 | an unknown category literal becomes support_utilisateur |
| SheetsClient.RangeFor | sheets_client.py:51 | the range is an apostrophe, the tab name, then `'!A:C` |
| SheetsClient.SheetOfRangeFor | sheets_client.py:51 | the tab name can be read back from its range |
| SheetsClient.RangeForInjective | sheets_client.py:51 | two ranges are equal exactly when their tab names are |
| SheetsClient.SheetNamesUnquoted | sheets_client.py:50-51 | no configured tab name holds an ASCII apostrophe, which would end the quoted name |
| SheetsClient.AppendTicketRow | sheets_client.py:42-67 | a key outside the table fails with that key before any request is built; otherwise the request targets the key's tab with RAW input and INSERT_ROWS, and sends the one row subject, urgency, summary |
| SheetsClient.SameTabIff | sheets_client.py:48-51 | two categories target the same range exactly when the table maps them to the same tab |
| SheetsClient.BugReportsShareTechnicalTab | sheets_client.py:48 | a bug report builds the same request as a technical problem |
| Pipeline.Classify | main.py:26 | a ticket's classification has its category in the table and its urgency among the five levels |
| Pipeline.CountAppended | main.py:39 | the processed count is at most the number of tickets |
| Pipeline.CountAppendedAll | main.py:17-51 | all tickets are processed exactly when none is skipped |
| Pipeline.HandleTicket | main.py:24-51 | one ticket's outcome: classified, then appended with its original subject and the classification's urgency and summary, or skipped with the error that stopped it |
| Pipeline.ProcessEmails | main.py:17-51 | tickets are handled one at a time in order, each failure skips only its ticket, processed counts the appended tickets, and processed plus skipped is the number of emails |
| Pipeline.ProcessAllTickets | main.py:13-53 | the limit goes to the email listing unchanged; the first failure while fetching an email propagates before any ticket is handled; otherwise every listed email is handled, in order, and counted once |
| Pipeline.NeverUnknownCategory | main.py:26-37 | no ticket is ever skipped for an unknown category, because classifications are normalised |
| Pipeline.AppendedIff | main.py:26-39 | a ticket is processed exactly when its classification succeeded and its request ran; the row then goes to the tab of the chosen category and holds the original subject with the classification's urgency and summary |
| Pipeline.SkippedCause | main.py:42-51 | a skipped ticket carries the error of its classification or the reason its append failed |
| Pipeline.Outcomes | main.py:20 | there is one outcome per fetched email |
| Pipeline.RunAsWritten | main.py:20-46 | as written, the run ends without error exactly when every ticket was appended; any error is the NameError for RateLimitError, and no more rows are appended than there are tickets |
| Pipeline.AsWrittenStopsAtFirstSkip | main.py:42 | as written, the first failing ticket ends the run with NameError, after the rows of the tickets before it and before any later ticket |
| Pipeline.AsWrittenWithoutFailures | main.py:42 | as written, a run without failures appends every ticket and ends normally |
| Pipeline.FirstCallFailedSkips | main.py:24-51 | a ticket whose first completion call fails with an error other than a rate limit is skipped |
| Pipeline.FirstReplyAppends | main.py:24-39 | a ticket whose first completion call answers with JSON that validates is appended when its append request runs |
| Pipeline.NameErrorCounterexample | main.py:3-51 | with two tickets, a service error on the first and a good reply for the second, the run as written appends nothing and stops with NameError, while the second ticket would have been appended |

## Left out

- OAuth and token files (`get_gmail_service`, `get_sheets_service`): file I/O and a browser flow. `AppendTicketRow` builds the request; obtaining the service and `execute()` are the executor parameter.
- Network calls: Gmail `list` and `get`, the Groq completion call and the Sheets `execute` are parameters. The list query (`userId`, `maxResults`, `labelIds`, `q`, `pageToken`) is not modelled; the pages are given as the responses in order.
- The system prompt, the model name, the temperature and the token bound: constants of the request that do not affect the logic.
- `print` and `time.sleep`: sleeps are recorded as `Sleep` events; the log lines are not modelled.
- `json.loads` is an oracle: the JSON grammar is not modelled, and neither are errors other than `JSONDecodeError`, such as deep-nesting recursion errors.
- BeautifulSoup's HTML-to-text conversion is a parameter.
- `response.choices[0]` on an empty choice list: the reply is taken to have a first choice.
- Text.Lower: ASCII letters only, not Python's full Unicode `lower()`.
- GmailClient.ListMessageIds: the listing responses are given as values, so a failing `messages().list(...).execute()` (an error that would abort the run) is not modelled; only fetching a message can fail.
- Base64Url.Decode: strict decoding of section 5 of RFC 4648. Python's `urlsafe_b64decode` is lenient where the model returns None: it reads '+' and '/' as the values 62 and 63, skips a '=' at the start of a group and other misplaced padding, drops other characters outside the alphabet, and ignores data after complete padding (so "a+==" gives one byte and "====" no bytes). In the model such data makes the body decoding fail, which aborts the email fetching.
- GmailClient.DecodeBodyData: the Latin-1 fallback cannot fail, so its `errors="ignore"` has nothing to ignore.
- JSON fields holding null, and other non-dict or non-list values where the Gmail payload expects them, are not modelled: `Part` has a string MIME type, a list of headers and optional body data.
- Which service answers which ticket: the completion service and the executor are indexed by ticket position, not by real time.
- The test scripts `test_gmail.py`, `test_raw.py` and `test_sheets_categories.py`: they are manual scripts against live services.
- SheetsClient.AppendTicketRow: the source obtains the Sheets service before looking up the category, while the model does it inside the executor, after the lookup. A service that cannot be obtained together with an unknown category therefore raises the service error in the source but gives `UnknownCategory` in the model. The pipeline never passes an unknown category (see Pipeline.NeverUnknownCategory), so the difference cannot arise there.
- The environment variables of `config.py` (keys, mailbox, spreadsheet id): the spreadsheet id is a parameter.
- Any ledger of processed message ids: the code has none.
- Pipeline.ProcessAllTickets: models the intended skip-and-continue loop. The as-written loop is modelled separately, under Findings.

## Findings

| source | as written | input that shows it | evidently intended | confidence | as-written member | corrected member |
|---|---|---|---|---|---|---|
| main.py:42 | `except RateLimitError` names a class that main.py never imports (nor `time`). Any exception inside the `try` therefore raises `NameError` while the clause is matched, and the run stops. | two tickets, the completion service fails with an error on the first, the second classifies normally: the run stops with `NameError` and appends nothing | a failing ticket is skipped (`skipped += 1`) and the loop continues with the next ticket | not executed | Pipeline.NameErrorCounterexample | Pipeline.ProcessEmails |
