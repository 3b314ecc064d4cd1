# InterviewGPT service core, modelled in Dafny

InterviewGPT is a small web service for interview preparation. It has three groups of endpoints:

- **Chat** (`app/chatAi.py`). Conversations are rows of one table: an auto-assigned integer `conversation_id`, a short `tag` and a `messages` list of `{role, content}` turns. `create` stores the user's prompt and the model's reply as the first exchange. `get` reads a row back. `update` appends one more user/assistant exchange.
- **Cover letter** (`app/cover_letter_generator.py`). It checks that the upload is declared as a PDF and that the job description has 50 to 10000 characters. It then joins the PDF's page texts into a resume text, asks the text-generation service for a letter, and returns the part of the reply between `<cover_letter>` and `</cover_letter>` (`app/helpers/re_helper.py`).
- **Resume review** (`app/resume_review.py`). It checks only the content type, concatenates the page texts, and returns the service's reply unchanged.

Every endpoint answers with the envelope `{data, message, error}` and an HTTP status code. The tests' `validate_message_structure` (`testing.py`) defines when a list of turns is well formed: every role is `user` or `assistant`, every content is non-empty, and user turns sit at even indices and assistant turns at odd ones.

The project is organised as follows:

- `outcomes.dfy`: `Option`, and `Outcome` (a value, or an exception with its `str(e)` text).
- `messages.dfy`: the turn shape, `WellFormed` (the tests' predicate), `Paired` (even length and alternating), and lemmas that appending exchanges keeps both.
- `envelope.dfy`: the response datatype and the status codes.
- `decimal.dfy`: how `f"{len(...)}"` renders an integer, with a parser that reads it back.
- `tag_extraction.dfy`: the fixed-delimiter search and its properties (substring, round trip, no closing tag in the capture, fallback).
- `documents.dfy`: what the two document endpoints share: the rejection answer for a non-PDF upload (each endpoint's own `Validate` is its gate), the two page-joining specifications, and `Effect`. `Effect` records the outside steps an endpoint takes (reading the upload, calling the service), so the order of validation and I/O is part of each contract.
- `cover_letter.dfy`, `resume_review.dfy`: the endpoints. Each has a loop method building the resume text, proved against the specification function.
- `chat_store.dfy`: `class Store` with a `rows` map and the next id. Its invariant `Valid()` says the ids are exactly 1..n and every row holds complete user/assistant exchanges. The constructor establishes the invariant, `Create` and `Update` keep it, and the row `Create` adds is paired.

Foreign calls are parameters:

- The id the database assigns is modelled on SQLite's integer primary key with no deletes: the ids are 1, 2, ... in insertion order.
- The tag and the replies of the text-generation service are given to the chat operations.
- The document endpoints take the outcome of reading the PDF (`Outcome<seq<string>>`, the page texts in order). They also take the service as a function `complete(resume_text, job_description)` that returns an `Outcome<string>`.
- Dafny's `string` is a sequence of Unicode scalar values, so `|s|` is Python's `len(s)`.

## Model

| member | source | states |
|---|---|---|
| Messages.Message | app/chatAi.py:23-28 | one entry of a row's `messages` JSON column: a role string and a content string |
| ChatStore.Conversation | app/chatAi.py:23-28 | one row of the `messages` table: its tag and its list of turns, keyed in the store by `conversation_id` |
| Messages.WellFormed | testing.py:12-25 | validate_message_structure: every role is "user" or "assistant", every content non-empty, user at even and assistant at odd indices; equivalently, the roles alternate and no content is empty |
| Messages.ExpectedRole | testing.py:22-25 | the role required at index i is "user" exactly when i is even and "assistant" exactly when i is odd |
| Messages.Exchange | app/chatAi.py:299-302 | one exchange is exactly two turns, the user's prompt then the assistant's reply, and is itself paired |
| Messages.ExchangeWellFormed | testing.py:12-25 | the two-turn list that create stores passes validate_message_structure if and only if the prompt and the reply are both non-empty |
| Messages.AppendExchangeKeepsPaired | app/chatAi.py:254-257 | appending one user/assistant exchange to an even-length alternating list keeps it even-length and alternating |
| Messages.AppendExchangeKeepsWellFormed | testing.py:15-25 | appending an exchange with non-empty prompt and reply to a well-formed even-length list keeps it well formed |
| Messages.AppendExchangesKeepsPaired | app/chatAi.py:254-260 | after any sequence of updates an even-length alternating list stays so, the original list is a prefix, and exactly two turns are added per update |
| Messages.AppendExchangesKeepsWellFormed | testing.py:12-25 | after any sequence of updates with non-empty prompts and replies, a well-formed even-length list stays well formed |
| Decimal.Show | app/cover_letter_generator.py:99 | the length in the message is rendered as one or more decimal digits, with a leading zero only for 0 |
| Decimal.ValueOfShow | app/cover_letter_generator.py:99 | reading back the rendered digits gives the number that was rendered |
| Decimal.ShowInjective | app/cover_letter_generator.py:99 | different lengths give different messages |
| TagExtraction.Find | app/helpers/re_helper.py:5 | the search returns the first index at or after the start where the tag occurs, or none when the tag occurs nowhere from there on |
| TagExtraction.Extract | app/helpers/re_helper.py:3-8 | on a match the result is the text strictly between the end of the first opening tag and the start of the first closing tag after it; a match exists whenever an opening tag is followed by a closing tag; with no such pair the input is returned unchanged |
| TagExtraction.DelimitsUnique | app/helpers/re_helper.py:5-7 | the match, if any, is unique |
| TagExtraction.ExtractIsSubstring | app/helpers/re_helper.py:5-8 | the result is always a contiguous substring of the input and never longer than it |
| TagExtraction.ExtractDropsTags | app/helpers/re_helper.py:5-7 | on a match the result is shorter than the input by at least the lengths of both tags |
| TagExtraction.ExtractOmitsClose | app/cover_letter_generator.py:134 | on a match the lazy capture never contains the closing tag |
| TagExtraction.ExtractRoundTrip | app/cover_letter_generator.py:134 | for a body with no closing tag, after a preamble with no opening tag, extracting from preamble + opening tag + body + closing tag + trailer yields the body; preamble and trailer are dropped |
| TagExtraction.ExtractKeepsLineBreaks | app/helpers/re_helper.py:5 | worked example: for one three-line letter after a preamble line, DOTALL lets the capture run across the line breaks and the letter comes out whole (the general fact is ExtractRoundTrip) |
| Documents.NotPdf | app/cover_letter_generator.py:89-94 | a non-PDF upload gets status 400, message "File isn't a PDF", error true, data "" |
| Documents.JoinLinesLength | app/cover_letter_generator.py:107-110 | the line-joined resume text is as long as all pages together plus one per page |
| Documents.JoinLinesAppend | app/cover_letter_generator.py:107-110 | joining keeps page order: the text of two runs of pages is the text of the first followed by the text of the second |
| Documents.JoinLinesSingle | app/cover_letter_generator.py:110 | worked example: a one-page document gives that page's text followed by a line break (the general fact is JoinLinesAppend) |
| Documents.ConcatLength | app/resume_review.py:41-44 | the concatenated resume text is as long as all pages together: no separator is added |
| Documents.ConcatAppend | app/resume_review.py:41-44 | concatenation keeps page order in the same sense |
| CoverLetter.Validate | app/cover_letter_generator.py:89-101 | a non-PDF content type is rejected first with the PDF message; a PDF with a job description shorter than 50 or longer than 10000 characters is rejected with 400 and the range message naming the length; it passes exactly when the type is PDF and the length is in 50..10000 |
| CoverLetter.RangeMessage | app/cover_letter_generator.py:99 | the range message is the fixed text followed by decimal digits that read back as the length |
| CoverLetter.LengthBoundsInclusive | app/cover_letter_generator.py:96 | a PDF upload passes exactly when the description has between 50 and 10000 characters, both ends included |
| CoverLetter.RangeMessageNamesLength | app/cover_letter_generator.py:96-101 | a length rejection's message is the fixed prefix followed by digits that read back as the description's length |
| CoverLetter.ResumeText | app/cover_letter_generator.py:107-110 | the loop builds the in-order concatenation of every page's text followed by a line break; its length is the sum of the page lengths plus the page count |
| CoverLetter.LetterGenerator | app/cover_letter_generator.py:88-147 | validation failures are answered with no outside step taken; a failed upload read gives 500 with its message after the read alone; otherwise the service is called once with the joined resume text and the description, a raised call gives 500 with its message, and a reply gives 200 "Success" with the extracted letter; error holds exactly when the status is not 200, and then data is "" |
| ResumeReview.Validate | app/resume_review.py:27-32 | only the content type is checked: the request is rejected with the PDF message exactly when the type is not PDF, whatever the job description |
| ResumeReview.ResumeText | app/resume_review.py:41-44 | the loop builds the in-order concatenation of the page texts with no separator; its length is the sum of the page lengths |
| ResumeReview.Review | app/resume_review.py:26-72 | a non-PDF upload gets 400 before any outside step; a PDF upload is always read, with no length check; a failed read or service call gives 500 with its message and data ""; a reply gives 200 "Success" with the raw reply as data |
| ChatStore.NotFound | app/chatAi.py:229-234 | the not-found answer has status 404, message "Conversation not found", error true and data {} |
| ChatStore.Store.Valid | app/chatAi.py:26 | the store's invariant: ids are exactly 1..n, as an integer primary key assigns them with no deletes, and every row holds complete user/assistant exchanges; hence the next id is not yet taken |
| ChatStore.Store.constructor | app/chatAi.py:22-30 | a new table is empty, satisfies the invariant and gives id 1 to the first insert |
| ChatStore.Store.Create | app/chatAi.py:278-318 | the new row goes under an id not yet present and every existing row is unchanged; it holds the tag and exactly the user prompt then the assistant reply; the answer is 200 "Success" with that id, tag and list; the invariant is kept |
| ChatStore.Store.Get | app/chatAi.py:329-349 | an absent id gets 404 "Conversation not found" with data {}; a present id gets 200 with that row's id, tag and messages unchanged; the store is not modified |
| ChatStore.Store.Update | app/chatAi.py:223-274 | an absent id gets 404 "Conversation not found" and the store is unchanged; a raised service call gives 500 with its message and the store is unchanged; otherwise only the target row's messages change, to the old messages followed by the user prompt and the assistant reply, the tag and all other rows are untouched, the answer's data is the reply, and the invariant is kept |
| ChatStore.CreateUpdateGet | testing.py:45-96 | test_update_conversation extended with the read-back of test_get_conversation: create, then update that id, then read it back: the read shows the same id and tag and the four turns in order, and they are well formed exactly when all four texts are non-empty |

## Left out

- Calls to the text-generation service are not modelled. The chat operations take the tag and replies as parameters. The document endpoints take a `complete` function. The system prompts, the few-shot examples, the way the prompt text is assembled (including the stringified history in the update prompt) and the model settings are content, not behaviour.
- ChatStore.Store.Update: the reply is a parameter, so the contract cannot show that the service is called only after the lookup succeeds.
- PDF parsing is not modelled. The page texts arrive as a sequence. Any failure while reading or parsing the upload is one `Raised` outcome.
- Database sessions, commit, refresh and close are not modelled. The table is an in-memory map that starts empty. Database errors, and the 500 answers of `get` and `update` that only they could cause, are not modelled either.
- ChatStore.Store.Create: the failure path of `create_conversation` is not modelled, because its handler answers without a status code and its `finally` closes a session that was never opened.
- Deleting a conversation is not modelled: the tests call a delete route that the code does not define.
- Structured scoring of a resume review is not modelled: the code returns the reply without parsing it.
- Framework behaviour is not modelled: request-shape validation (422 on a bad id type, a missing form field), routing, asynchronous handling, and races between concurrent updates of one conversation.
- Messages.WellFormed: the type checks of `validate_message_structure` (a list, each entry with `role` and `content` keys, content a string) hold by construction of the datatype and are not restated.
