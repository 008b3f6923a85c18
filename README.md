# llm-gmail fetch core, modelled in Dafny

The program reads a user's recent unread, starred inbox mail from Gmail, turns each
message into a small record (body text, `from`, `subject`, `to`) and hands the records
to a local text-generation service. This project models the part of `main.py` that is
logic rather than glue:

- **Part selection** (`Mime`): a message is its headers plus either one payload
  (single-part) or the parts `msg.walk()` yields, in walk order. `parse_email` returns
  the extracted text of the *first* part whose content type contains `"html"`, and
  `None` when there is none. `callback_fetch_email` *concatenates* the extracted text of
  *every* html part, with no separator, starting from `''`. A single-part message gives
  the extracted payload in both, whatever its content type. `extract_text` is an
  uninterpreted `extract: string -> string`. The `"html" in content_type` test is a real
  substring test (`Text.Contains`).
- **The per-run accumulator** (`Fetch`): `EMAIL_CACHE` is the class `EmailCache`, with a
  `records` sequence. `fetch_emails` resets it before calling `list`. A failed list call is
  re-raised, so a `Failure` is returned. Otherwise the method queues one raw-format `get`
  per listed id; a missing `"messages"` key queues none. It then runs the callback once per
  completion and returns the cache. The order of completions is an arbitrary input
  sequence. Its ids must be a permutation of the queued ids, which is what the batch
  guarantees. The results hold for every such order.
- **The query string** (`Query`): `"is:unread is:starred in:inbox after:"` followed by the
  decimal seconds, which are an input.

`parse_email` keeps the first html part. The callback, which builds the records
`fetch_emails` returns, concatenates all of them. Both are modelled, and
`Mime.FirstHtmlStartsBody`, `Mime.OneHtmlPartAgrees` and `Mime.TwoHtmlParts` relate them.

Files: `wrappers.dfy` (Option, Result), `text.dfy` (substring test, case folding),
`mime.dfy`, `fetch.dfy`, `query.dfy`.

## Model

| member | source | states |
|---|---|---|
| Text.Contains | main.py:71 | `pat in s` holds exactly when `pat` occurs at some index of `s` |
| Mime.FirstHtml | main.py:67-72 | the result is `None` iff no part of the walk mentions html; otherwise it is the extracted text of the first part that does |
| Mime.ParseEmail | main.py:65-74 | single-part: the extracted payload, whatever the content type; multipart: `None` iff no html part, else the text of the first html part |
| Mime.LaterPartsIgnored | main.py:68-72 | two multipart walks that agree up to and including the first html part parse to the same result: later parts are never looked at |
| Mime.BuildBody | main.py:84-93 | the `+=` loop computes the callback body: the in-order concatenation over the html parts, or the extracted payload of a single-part message |
| Mime.HtmlConcatAppend | main.py:86-91 | the callback body of a walk split in two is the body of the first half followed by that of the second |
| Mime.HtmlConcatNoHtml | main.py:84-91 | with no html part the body stays `''` |
| Mime.NoHtmlPartDiffers | main.py:65-93 | a multipart message with no html part: `parse_email` gives `None`, the callback gives `''` |
| Mime.SinglePartAgrees | main.py:73-93 | single-part: both paths give the extracted payload |
| Mime.FirstHtmlStartsBody | main.py:65-93 | multipart: `parse_email`'s text is the first html part's, and the callback body is that text followed by the concatenation of the later parts' texts |
| Mime.OneHtmlPartAgrees | main.py:65-93 | with exactly one html part the two paths give the same text |
| Mime.TwoHtmlParts | main.py:65-93 | html parts A then B: `parse_email` gives A's text, the callback A's text then B's |
| Mime.GetHeader | main.py:96-98 | `msg[name]` is the value of the first header whose name matches regardless of case; it is `None`, not an error, iff no header matches |
| Fetch.MessageIds | main.py:112 | `results.get("messages", [])`: no ids when the key is absent, otherwise the listed ids in order |
| Fetch.EmailCache.constructor | main.py:26 | the cache starts empty |
| Fetch.EmailCache.Reset | main.py:105-106 | the cache is emptied |
| Fetch.EmailCache.OnComplete | main.py:77-100 | with an exception the cache is unchanged; otherwise exactly one record is appended, built from the callback body and the `from`/`subject`/`to` headers |
| Fetch.QueueRequests | main.py:113-116 | one `get(userId="me", id, format='raw')` per listed id, in list order |
| Fetch.FetchEmails | main.py:103-118 | a list failure is re-raised with the cache already empty; otherwise the result is exactly this run's records, one per completion without an exception, so its length is the number of ids minus the number of failures |
| Fetch.RecordsAppend | main.py:113-117 | the records of two consecutive runs of completions concatenate |
| Fetch.RecordsLength | main.py:78-100 | one record per completion that received no exception |
| Fetch.RecordsAreDelivered | main.py:105-118 | a record is in the result iff some completion of this run delivered the message it was built from: nothing leaks from an earlier run |
| Fetch.RecordsOrderIndependent | main.py:113-117 | any two completion orders of the same batch give the same multiset of records and the same count |
| Query.NatToStringValue | main.py:149 | `str(n)` for `n >= 0` is a nonempty digit string whose decimal value is `n` |
| Query.IntRoundTrip | main.py:149 | reading back `str(n)` gives `n`, negative values included |
| Query.QueryEncodesTime | main.py:148-149 | the query is the fixed filter prefix followed by text that reads back as the given seconds |
| Query.QueryInjective | main.py:148-149 | different boundaries give different queries |
| Query.QueryFilters | main.py:148-149 | the query contains `is:unread`, `is:starred`, `in:inbox` and `after:` |

## Left out

- OAuth, the `token.json` file and building the Gmail client (`gmail_client`) are credential and library plumbing.
- The Gmail list and get calls and the batch's HTTP execution are network I/O. A list response or a failure is an input, and so is the sequence of completions.
- MIME parsing, the `walk()` traversal and base64url decoding are library code. A message is given already walked, with text payloads.
- The UTF-8 `body.decode()` of a part's payload is not modelled. A decode error, or a malformed base64 payload, would raise inside `parse_email` or the callback. The batch's `execute` does not catch an exception raised in a callback, so it would escape `batch.execute()` and `fetch_emails` would raise instead of returning a list. The model has no such failure, so `Fetch.FetchEmails`'s one record per completion without an exception assumes every delivered message decodes.
- `extract_text` (BeautifulSoup and `html.unescape`) is an uninterpreted total function. The same function stands for both of its inputs: the bytes payload of a single-part message and a part's decoded text.
- Mime.GetHeader: names are compared with ASCII case folding only, where Python lower-cases all of Unicode. The header-value post-processing of the `email` policy is not modelled.
- The LLM path (`call_ramalama_api`, `summarize_email_with_ollama`) is an HTTP POST plus JSON. Its payload carries `n_predict` 128, and any exception yields `"Other"`. There is no logic there to verify.
- The time boundary `datetime.now() - timedelta(days=2)` and `round(date.timestamp())` depend on the wall clock and on float rounding. The integer seconds are a parameter.
- `print` and `logging` output is not modelled.
- Concurrency inside the batch is not modelled. Callbacks are taken to run one at a time, in some order.
