# AskMyPDF chat page — a Dafny model of its answer handling

The AskMyPDF page lets a user upload documents and ask questions about them.
The question-answering pipeline returns an answer text and the retrieved
source chunks, each with a page number. The page then does three things,
and this project models each of them:

- It turns the pipeline's result into the reply it shows. If the pipeline
  returned any sources, the reply is the raw answer, followed by a citation line
  of the distinct page numbers of those sources in ascending order ("1, 2, 3").
- If the pipeline returned no sources, the reply is the answer with its
  `SOURCES:` trailer cut off (`extract_answer_without_sources`).
- It keeps the conversation log in the session state. The log starts with a
  greeting, the "Reset Chat" button sets it back, and each question appends
  the user's message and the assistant's reply.

Files:

- `text.dfy` (module `Text`) holds the Python string operations the page uses:
  `str.replace`, the first piece of `str.split`, `str.strip` and `str.join`.
  - `IndexOf` is the leftmost search that `replace` and `split` perform.
  - `Before(s, p)` is `s.split(p)[0]`.
  - `Strip` removes the characters Python's `str.isspace` accepts.
  - The full `Split` is the inverse of `Join`, used to read the citation line
    back.
- `answer.dfy` (module `Answer`) holds `extract_answer_without_sources` and its
  properties.
- `citations.dfy` (module `Citations`) holds `sorted(set(pages))`, `str` on
  integers, and the `", "`-joined citation line.
- `chat.dfy` (module `Chat`) holds the shown reply, the conversation log, and
  the `Session` class. `Session` has the `messages` and `history` keys of the
  session state. Its methods are the reset button, the greeting
  initialisation, one question, and one run of the page script.
  `LogAfterRuns` gives the log after any sequence of runs.

A failed pipeline call still leaves the user's message in the log. The page
appends that message (app.py:124) before calling the pipeline (app.py:130),
and nothing removes it when the call raises. One might expect a failed query
to leave the log unchanged; the page does not. This model follows the code:
`AfterQuestion` with `Failed` adds the user's message and no reply.

## Model

| member | source | states |
|---|---|---|
| Text.IndexOf | app.py:118-120 | the position found holds the pattern, no earlier position does, and no result means the pattern occurs nowhere: the leftmost search inside `replace` and `split` |
| Text.ReplaceAt | app.py:118-119 | `str.replace` writes the replacement at the first occurrence and keeps everything before it |
| Text.ReplaceKeepsPrefix | app.py:118-119 | `str.replace` leaves untouched every character before the first occurrence |
| Text.Replace | app.py:118-119 | `str.replace`: an absent pattern leaves the string unchanged; `ReplaceAt`, `ReplaceKeepsPrefix` and `ReplaceLength` state what it does at and before the first occurrence; what it does to later occurrences is computed but not stated, since the page only reads `Normalize`'s result up to the first marker |
| Text.ReplaceLength | app.py:118-119 | replacing with a string of the same length keeps the length |
| Text.Before | app.py:120 | `s.split(p)[0]` is a prefix of `s` with no occurrence of `p`, and it is either all of `s` or stops exactly at the first occurrence |
| Text.SplitFirst | app.py:120 | the first piece of `str.split` is `Before` |
| Text.Strip | app.py:120 | `str.strip` gives a substring of its input that is empty or neither starts nor ends with whitespace |
| Text.StripUnique | app.py:120 | the stripped text is exactly the slice between the leading and the trailing whitespace runs |
| Text.StripStripped | app.py:120 | stripping a string that has no surrounding whitespace changes nothing |
| Text.StripTrailingSpace | app.py:120 | a trailing whitespace character does not change the stripped text |
| Text.Join | app.py:138 | `sep.join(parts)`: empty for no parts, otherwise it starts with the first part; `SplitJoin` proves `Split` inverts it |
| Text.SplitJoin | app.py:138 | splitting a `", "`-join gives the parts back when no part holds a comma |
| Answer.Normalize | app.py:118-119 | the two replacements change the text before the first "SOURCES:" at most by turning the newline just in front of that marker into a space |
| Answer.ExtractAnswerWithoutSources | app.py:117-121 | the extracted answer never contains "SOURCES:" and has no leading or trailing whitespace |
| Answer.FirstReplaceBefore | app.py:118 | replacing "\nSOURCES:" by " SOURCES:" changes the text before the first marker only by turning its last newline into a space |
| Answer.SecondReplaceBefore | app.py:119 | replacing "SOURCES:\n" by "SOURCES: " never changes the text before the first marker |
| Answer.NormalisationInvisible | app.py:117-121 | the result is the stripped text before the first "SOURCES:" of the raw answer: the two normalising replacements never change it |
| Answer.NoMarkerMeansStrip | app.py:117-121 | an answer without "SOURCES:" is only stripped |
| Answer.Idempotent | app.py:117-121 | extracting twice gives the same as extracting once |
| Answer.AnswerThenMarker | app.py:117-121 | an answer followed by a newline, "SOURCES:" and anything else comes back as the stripped answer |
| Answer.ExampleCatSat | app.py:117-121 | "The cat sat.\nSOURCES:\ndoc.pdf page 1" gives "The cat sat." |
| Citations.Insert | app.py:137 | adding a page to an ascending list without duplicates keeps it so and adds exactly that page |
| Citations.SortedPages | app.py:137 | `sorted(set(pages))` is strictly ascending and holds exactly the given pages |
| Citations.AscendingUnique | app.py:137 | only one strictly ascending list holds a given set of pages, so the result does not depend on set order |
| Citations.AscendingCard | app.py:137 | a strictly ascending list has no repeats: as many elements as distinct values |
| Citations.DistinctCount | app.py:137 | the citation list has one entry per distinct page |
| Citations.NatToDecimal | app.py:138 | `str` of a natural number is a non-empty string of digits with no leading zero except "0" itself |
| Citations.IntToDecimal | app.py:138 | `str` of an integer: a leading minus sign exactly for negative numbers, no other minus sign, digits otherwise, no leading zero except in "0" itself, and none right after the sign |
| Citations.NatToDecimalUnique | app.py:138 | every decimal numeral without a leading zero is the `str` of its value, so `str` is the only such rendering |
| Citations.NatDecimalRoundTrip | app.py:138 | reading back the decimal digits of a number gives the number |
| Citations.IntDecimalRoundTrip | app.py:138 | `int(str(i)) == i` for every integer page number |
| Citations.CitationString | app.py:137-139 | the citation line is empty exactly when there are no sources; `CitationReadsBack` states what it holds |
| Citations.CitationReadsBack | app.py:137-138 | the citation line split at ", " gives the decimal numerals of the distinct pages in ascending order |
| Citations.ExamplePages | app.py:137-138 | pages 3, 1, 3, 2 give "1, 2, 3" |
| Chat.CitedAnswer | app.py:140-144 | the answer and the citation line can be read back from fixed places in the template: the answer right after the indent, the citations between the two pieces of markup |
| Chat.DisplayedAnswer | app.py:139-146 | with sources the reply is the template around the raw answer and the citation line, without sources it is the extracted answer; `DisplayedWithSources` and `DisplayedWithoutSources` state what each holds |
| Chat.DisplayedWithSources | app.py:139-144 | with sources, the reply holds the raw answer unchanged, "SOURCES:" trailer included, and a citation line that reads back as the sorted distinct pages |
| Chat.DisplayedWithoutSources | app.py:145-146 | without sources, the reply is the stripped answer before its first "SOURCES:" and contains no "SOURCES:" |
| Chat.AfterQuestion | app.py:124-148 | a question keeps every earlier message, then adds the user's message and, when answered, exactly one assistant reply holding the shown text |
| Chat.QuestionKeepsLog | app.py:123-148 | a question keeps the log well formed: greeting first, every reply right after a user message |
| Chat.LogAfterRun | app.py:101-148 | one run (reset if pressed, greeting if no log, then the question if any) turns no log or a well-formed log into a well-formed log |
| Chat.LogAfterRuns | app.py:101-148 | after any sequence of runs the session holds a log, and it is well formed |
| Chat.Session.constructor | app.py:108 | a new session holds neither key |
| Chat.Session.Reset | app.py:102-106 | reset leaves the greeting as the only message and an empty history |
| Chat.Session.EnsureMessages | app.py:108-109 | a missing log becomes the greeting, and an existing one is kept |
| Chat.Session.Ask | app.py:123-150 | the log grows by the user's message, then by the shown reply when the pipeline answered, and the reply is returned |
| Chat.Session.Run | app.py:101-150 | one run of the page script that gets past its early checks: the new log is `LogAfterRun` of the old one, the reply is shown only for an answered non-empty question, and reset empties the history |

## Left out

- Rendering, the sidebar, avatars, the upload widgets, model selection and the API key field are not modelled. They only display state.
- The pipeline modules are not part of this model: reading and chunking files, embedding, the vector index, `get_llm` and `query_folder`. Their result, or their failure, is an `Outcome` parameter of `Session.Ask`.
- `int(source.metadata["page"])` is not modelled. Page numbers enter as integers, so a missing or non-numeric page is not modelled.
- Only the page numbers of the sources are modelled. The source texts shown in the "Sources" expander, with their UTF-8 clean-up, are not.
- The `is_file_valid` check of uploaded files is not modelled. It belongs to the upload path, not to answering.
- Session.Reset: deleting every session-state key one by one is modelled only by its effect on the two keys the page uses, `messages` and `history`. Other widget keys are not represented.
- Session.Ask: the page appends to the very list object stored under `messages`, which can be the `INITIAL_MESSAGE` list of an earlier run. The model holds the log as a value, so that aliasing is not captured. It is not observable, because the page script re-creates `INITIAL_MESSAGE` on every run.
- `history` is only ever set to the empty list. Its element type is not shown by the page and is taken to be messages.
- Session.Run: it models a run of the page script that reaches the reset button. A run that stops early at no uploaded file (app.py:60-62), an invalid file (app.py:74-75) or an invalid API key (app.py:77-78) never reaches the log code and is not modelled.
- Text.Strip: Python's `str.isspace` is modelled as its fixed list of whitespace code points (ASCII tab to carriage return, the separators U+001C to U+001F, space, U+0085, U+00A0, U+1680, U+2000 to U+200A, U+2028, U+2029, U+202F, U+205F, U+3000). Unicode-database changes are not tracked.
- Text.Replace: it requires a non-empty pattern. Python's `replace` accepts an empty one (inserting the replacement before, between and after all characters), but the page only ever replaces the two fixed, non-empty strings "\nSOURCES:" and "SOURCES:\n".
- Text.Before: it requires a non-empty separator, as Python's `split` raises on an empty one. The page only ever splits at the fixed string "SOURCES:".
