# A verified model of the chunk-and-ask core of a personal document assistant

The application is a single Streamlit page. The user pastes text or uploads `.txt` files.
The page cuts everything into overlapping chunks of about 500 characters and stores the
chunks. A question is then answered by sending every stored chunk, joined and cut to a
character budget, to the Gemini text-generation API. The API call is retried while the
service answers 429.

This project models that core in Dafny, in five modules:

- `Text` (`text.dfy`): Python's `str.isspace`, `str.strip` and `str.join` on strings. `Strip` removes whitespace first from the front, then from the back. Lemmas state what is left: an infix with only whitespace around it, empty exactly when the input is blank.
- `Chunker` (`chunker.dfy`): `chunk_text`, in two forms.
  - The specification is the list of cuts the loop takes. A cut is a character range; the last one may be the "tail". `CutsFrom` builds the list window by window, and `DropRepeatedTail` applies the duplicate-tail test. `Chunks` strips every cut and drops the empty pieces.
  - `ChunkText` is the loop itself, with `rfind`, the midpoint test, the tail test and the final filter. It is proved to return `Chunks`.
  - The properties proved about the specification: the snapping rule, the tail rule, ordered starts in steps of `size - overlap`, and bounded ranges. Two concrete texts show that the chunks do not always cover the text and that the tail can repeat the end of the previous chunk.
- `Context` (`context.dfy`): the guard of the question button and the context that is sent. The context is the chunks joined with blank lines, cut to 120000 characters.
- `GeminiClient` (`gemini.dfy`): the retry policy of `call_gemini_api`.
  - The transport is a list of replies, one per request; the delays are returned instead of slept.
  - A reply is an exception or a status with a body.
  - The body is a JSON value, and the code's lookups on it follow Python's rules (`get`, indexing, truthiness, the exceptions that land in the generic handler).
- `Application` (`application.dfy`): the two buttons and the page state.
  - The upload loop gathers the typed text and the files.
  - `Merge` joins the stored chunks with the addition and re-cuts the result.
  - The `Session` class holds `processed_documents`, the saves made to the document store and `ai_response`. It provides the upload and question actions.

## Behaviour of the code worth knowing

These are properties of the code as written. The model keeps them and proves them.

- **The chunks do not always cover the text.**
  - `Chunker.CoverageGap` exhibits a 552-character text. Its first window is cut after a `.` at position 251, and the next window starts at 450. Position 300 is in no chunk.
  - The midpoint test only rules out cuts in the first half of a window. A cut just past the midpoint still ends the chunk about 200 characters before the next window starts at 450, and the text in between is in no chunk.
- **The tail is added even when it only repeats the end of the previous chunk.**
  - The tail test runs only after a window that was not cut short, which already reaches the end of the text. So the tail chunk is always a repetition.
  - `Chunker.TailRepeatsEnd` shows a 480-character text giving two chunks: the whole text, then its last 30 characters.
  - `Chunker.TailRule` states the general rule.
- **`chunk_text` has no guard on its parameters.** With `overlap >= chunk_size` the step is zero or negative and the loop need not end. The model requires `overlap < size`.
- **Three 429 answers use up the three requests.**
  - The code sleeps after the third 429 too (delays 1, 2 and 4 seconds) and only then gives up (`GeminiClient.ThreeRateLimitsGiveUp`).
  - So "three retries" means three requests in all.

## Model

| member | source | states |
|---|---|---|
| Text.StripBlank | application.py:142 | `s.strip()` is empty exactly when every character of `s` is whitespace (`not s.strip()`) |
| Text.StripEnds | application.py:132 | a non-empty stripped string starts and ends with non-whitespace |
| Text.StripInfix | application.py:132 | `strip` only removes whitespace at the two ends: the result is an infix of the input with only whitespace around it |
| Text.StripTrimmed | application.py:132 | a string with non-whitespace at both ends strips to itself |
| Text.JoinSnoc | application.py:147 | joining one more string after a non-empty list adds one separator and that string |
| Text.JoinLength | application.py:251 | the join's length is the sum of the parts plus one separator between neighbours |
| Text.JoinStartsWithFirst | application.py:251 | the join starts with the first element |
| Chunker.RFind | application.py:125-127 | `rfind` gives -1 or an index in `[lo, hi)` holding the character, with no later occurrence in the range |
| Chunker.LastBreak | application.py:125-129 | the rightmost '.', '\n' or ' ' in the range, or -1 |
| Chunker.LastBreakIsLast | application.py:129 | no break character lies after `LastBreak` in the range |
| Chunker.BestBreakIsLastBreak | application.py:125-129 | `max` of the three `rfind` results is the rightmost break character |
| Chunker.WindowEnd | application.py:122-131 | a window ends after its start, inside the text, at most `chunk_size` characters on |
| Chunker.SnapRule | application.py:124-131 | a window reaching the text's end is never cut short; otherwise it ends after the rightmost break when that break is past the midpoint, else at full size |
| Chunker.WindowEnds | application.py:122-131 | the table of window ends fits the text and the size |
| Chunker.CutsFrom | application.py:121-137 | the cuts from start `i`: the first is the window at `i`; every cut starts at or after `i`, is non-empty, lies in the text and is at most `chunk_size` long |
| Chunker.DropRepeatedTail | application.py:135-136 | at most the last cut is dropped, and it is dropped exactly when it is a tail whose stripped text equals the previous chunk |
| Chunker.AllCuts | application.py:119-137 | every cut of the whole text lies in the text; an empty text has none |
| Chunker.Pieces | application.py:132 | one stripped piece per cut |
| Chunker.PiecesAt | application.py:132 | piece `k` is the stripped slice of cut `k` |
| Chunker.RemoveEmpty | application.py:138 | the filter keeps exactly the non-empty strings: none of the result is empty, every non-empty input is kept, nothing new appears |
| Chunker.RemoveEmptyCounts | application.py:138 | every non-empty string is kept as many times as it occurs and the empty string not at all (`multiset(r) == multiset(xs)[[] := 0]`) |
| Chunker.RemoveEmptyConcat | application.py:138 | the filter works element by element and keeps the order: filtering `a + b` gives the filtered `a` followed by the filtered `b` |
| Chunker.Chunks | application.py:117-138 | `chunk_text("")` is `[]` and no chunk is the empty string |
| Chunker.KeptCuts | application.py:138 | the kept cuts come from the list and each has a non-empty piece |
| Chunker.KeptCutsKeepsNonEmpty | application.py:138 | conversely, every cut of the list whose piece is non-empty is kept |
| Chunker.KeptCutsPieces | application.py:138 | keeping the cuts with non-empty pieces and filtering the empty pieces agree |
| Chunker.KeptCutsOrdered | application.py:138 | filtering keeps cut starts strictly increasing |
| Chunker.CutsFromLast | application.py:133-137 | when the next start falls within `overlap` of the end, the window is followed by the tail `[next, len)` and the loop stops |
| Chunker.CutsFromNext | application.py:133-134 | otherwise, while the next start is inside the text, the cuts go on from `i + (chunk_size - overlap)` |
| Chunker.CutsFromFinal | application.py:121-133 | a window whose next start lies past the text is the last cut |
| Chunker.LastPairShape | application.py:133-136 | the last window and its tail are ordered, stride by the step and the tail follows a window reaching the end |
| Chunker.ShapedLast | application.py:133-137 | the cut list from the last window is shaped |
| Chunker.ShapedFinal | application.py:121-133 | the cut list from a final window is shaped |
| Chunker.ShapedNext | application.py:121-133 | a window in front of a shaped list from the next start gives a shaped list |
| Chunker.CutsShaped | application.py:121-137 | every cut list starts at `i` in strictly increasing steps of `chunk_size - overlap`, every window ends at its computed end, and a tail comes only last after a window reaching the end |
| Chunker.DropRepeatedTailShaped | application.py:135-136 | dropping a repeated tail keeps a cut list ordered, striding and with its windows at their computed ends |
| Chunker.AllCutsShaped | application.py:119-137 | the cuts of a whole text start at 0, stride by `chunk_size - overlap`, end where `WindowEnd` says, and keep the tail last |
| Chunker.AllCutsOrdered | application.py:133 | cut starts strictly increase |
| Chunker.ChunkCuts | application.py:122-138 | chunk `k` is `strip(text[s:e])` of a range with `s < e <= len(text)` and `e - s <= chunk_size`, and the ranges start in increasing order |
| Chunker.WindowsFollowSnapRule | application.py:124-132 | every window the loop cuts ends where `WindowEnd` says, so it follows the snapping rule |
| Chunker.TailRule | application.py:133-137 | the tail is added at most once, last, after a window reaching the end of the text, and only when its chunk differs from the previous one |
| Chunker.KeptTailDiffers | application.py:135-136 | a kept tail's piece differs from the piece before it |
| Chunker.LastTurnPieces | application.py:132-137 | the last turn appends the window's chunk, then the tail's chunk unless it equals the window's |
| Chunker.FinalTurnPieces | application.py:121-133 | a final window appends its chunk alone |
| Chunker.NextTurnPieces | application.py:121-133 | any other turn appends the window's chunk and the loop goes on from the next start |
| Chunker.TurnPiecesAreCutPieces | application.py:121-137 | the loop's chunks, turn by turn, are the pieces of the kept cuts |
| Chunker.ShortTextIsOneWindow | application.py:121-133 | a non-empty text no longer than one step is a single window `[0, len)` |
| Chunker.ShortTextIsOneChunk | application.py:117-138 | a text no longer than `chunk_size - overlap` yields `[text.strip()]`, or `[]` when blank |
| Chunker.CoverageGap | application.py:122-133 | with the defaults, a text cut short at position 252 leaves position 300 in no chunk |
| Chunker.TailRepeatsEnd | application.py:133-138 | with the defaults, a 480-character text yields itself and its last 30 characters |
| Chunker.FindWindowEnd | application.py:122-131 | the loop's end computation (`min`, three `rfind`, `max`, midpoint test) gives `WindowEnd` |
| Chunker.CutAndStrip | application.py:119-137 | the `while` loop builds exactly the pieces of the kept cuts, empty ones included |
| Chunker.ChunkText | application.py:117-138 | `chunk_text(text, chunk_size, overlap)` returns `Chunks(text, chunk_size, overlap)` |
| Context.BuildContext | application.py:250-254 | the context is cut exactly when the join is longer than 120000; it is a prefix of the join, the whole join when not cut and exactly 120000 characters when cut |
| Context.SmallCollectionIsSentWhole | application.py:251-254 | chunks whose lengths plus separators fit the budget are sent whole, without warning |
| Context.ContextStartsWithFirstChunk | application.py:251-253 | the context starts with the first chunk, or with its first 120000 characters |
| Context.Guard | application.py:242-254 | a blank question is refused first, then an empty collection; otherwise the context is built and sent with the question |
| GeminiClient.Get | application.py:180 | `v.get(key)` raises exactly on a non-dictionary and gives `None` for a missing key |
| GeminiClient.First | application.py:180-181 | `v[0]` has a value exactly on a non-empty list or string |
| GeminiClient.Lookup | application.py:181 | `v[key]` has a value exactly on a dictionary holding the key |
| GeminiClient.ReadAnswer | application.py:179-198 | reading a successful body always ends the call; a body that is not a dictionary gives the generic error message; a dictionary whose `candidates` is missing or falsy gives the unexpected-structure message |
| GeminiClient.ReadAnswerReturnsText | application.py:180-181 | any dictionary whose `candidates[0].content.parts[0].text` path exists, with non-empty `candidates` and `parts`, returns that `text` value, whatever other keys it holds |
| GeminiClient.ReadAnswerIsTextOrMessage | application.py:179-198 | reading a body gives the unexpected-structure message, the generic message, or a value the body carries as `text` at the path the code reads; nothing else |
| GeminiClient.ReadAnswerUnexpectedShape | application.py:180-184 | a first candidate that is a dictionary but lacks a truthy `content`, or whose `content` lacks truthy `parts`, gives the unexpected-structure message |
| GeminiClient.Handle | application.py:175-198 | a request is retried exactly when answered 429; a transport exception gives the generic message, any other 4xx/5xx the HTTP message; a successful status whose body `response.json()` refuses gives the generic message, and a parsed body is read by `ReadAnswer` |
| GeminiClient.Pow2 | application.py:188 | `2 ** k` is at least 1 |
| GeminiClient.Backoffs | application.py:187-191 | the k-th delay (from 0) is `base_delay * 2 ** k` |
| GeminiClient.AttemptsRetryOnlyRateLimits | application.py:174-192 | at most three requests are made, every delay follows a 429, and the delays are 1, 2, 4, ... in order |
| GeminiClient.AttemptsStopAtFirstAnswer | application.py:174-198 | the call returns what the first reply that is not 429 leads to, after `k` delays and `k + 1` requests |
| GeminiClient.ThreeRateLimitsGiveUp | application.py:186-199 | three 429 answers give delays [1, 2, 4] and "Échec de la requête API après plusieurs tentatives." |
| GeminiClient.UnconfiguredKeySendsNothing | application.py:156-158 | an empty or placeholder key returns "Erreur de configuration de l'API." with no request |
| GeminiClient.WellFormedAnswerIsReturned | application.py:174-181 | after `k` 429s, a reply with any status outside 400-599 whose body carries a `text` at the path the code reads returns that text, after `k + 1` requests and the delays of the `k` retries |
| GeminiClient.AnswerIsTextOrMessage | application.py:154-199 | the call returns one of its fixed messages, or the `text` carried at the path the code reads by one of the first three replies with a successful status and a readable body; nothing is raised |
| GeminiClient.CallGeminiApi | application.py:154-199 | the retry loop returns the answer, request count and delays of `Expected(key, replies)` |
| Application.StrippedAll | application.py:218-226 | every file's text, stripped, in order |
| Application.DropLeadingEmptyShape | application.py:223-226 | the gathered parts start at the first non-empty one; everything before it is empty |
| Application.DropLeadingEmptySnoc | application.py:223-226 | one more part is appended after the gathered ones, or starts them when they are all empty |
| Application.SubmissionSnoc | application.py:223-226 | one more file adds a blank line and the stripped file, or the stripped file alone when nothing was gathered |
| Application.GatherStep | application.py:220-226 | the same step on the prefixes the loop walks |
| Application.SubmissionOfNoFiles | application.py:218 | without files the typed text alone, stripped, is gathered |
| Application.GatherSubmission | application.py:218-226 | the upload loop produces `Submission(input, files)` |
| Application.SubmissionEmptyIffAllBlank | application.py:218-233 | nothing is gathered exactly when the typed text and every file are blank |
| Application.SubmissionIsNotBlank | application.py:228-230 | gathered text is never blank, so the merge's blank check never refuses it |
| Application.FirstShortAdditionIsOneChunk | application.py:147-150 | a short non-blank first addition is stored as its stripped self |
| Application.MergeOfTwoShortTexts | application.py:147-150 | adding "b" to ["a"] stores the single chunk "a\n\nb" |
| Application.Session.constructor | application.py:57-65 | a fresh page has no chunks, no saves and the placeholder answer |
| Application.Session.ProcessAndSaveNewContent | application.py:140-151 | a blank addition changes nothing and saves nothing; otherwise the collection becomes `Merge(old, addition)` and that collection is saved once |
| Application.Session.SubmitDocuments | application.py:217-233 | nothing happens exactly when the typed text and all files are blank; otherwise the gathered text is merged and saved |
| Application.Session.AskQuestion | application.py:241-266 | the guard decides; only a sent question replaces the answer shown, with the client's answer; the collection is never changed |

## Left out

- Firebase initialisation, `load_documents_from_firestore` and the store itself (application.py:29-114) are remote I/O. A save is modelled as appending the saved collection to `Session.saves`. A failing save, and the loaded collection at start-up, are not modelled.
- The 1 MiB size warning before a save (application.py:108-109) depends on `json.dumps` and UTF-8 byte counts. It is advisory only: the write goes ahead either way.
- Streamlit widgets and messages: every `st.warning`, `st.error`, `st.success`, spinner and the clearing of the input boxes (application.py:231, 267). The warnings the model keeps become return values: `accepted`, `Ask`, `Built.truncated`.
- The UTF-8 decoding of uploaded files (application.py:221-222). Files are given as decoded strings.
- The prompt template (application.py:256-263). `Ask.Send` carries the context and the question that go into it. The request's content does not influence the modelled replies.
- `requests.post`, `response.json()`, `time.sleep`, the API URL and the key's source (`os.getenv`). Replies are inputs and delays are outputs. JSON numbers are `real`. Python keeps integers and floats apart; both are falsy exactly at zero, so truthiness is the same. The difference would only show in a numeric `text` value that is returned as the answer. `NaN` and `Infinity`, which Python's `json` accepts, have no `real` value and are not modelled.
- GeminiClient.CallGeminiApi: requires a reply for each of the three requests the call may make. The transport is a list given in advance.
- Chunker.ChunkText: requires `chunk_size > 0` and `overlap < chunk_size`.
  - Without the second condition the step is not positive and the source's loop need not terminate.
  - With `chunk_size == 0` and a negative overlap, the source would return `[]`; that case is not modelled.
