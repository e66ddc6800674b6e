# fetch_questions.py, modelled in Dafny

`fetch_questions.py` asks a generative model for five multiple-choice questions
on chip design and saves them to `questions.json`. Before calling the model it
reads the previous `questions.json` and gives the model the old question texts
as an exclusion list. It strips whatever Markdown code fence the model may have
put around its JSON reply, decodes the reply, and overwrites `questions.json`
only once the decode has succeeded.

The model covers the script's three pieces of logic:

- **Fence sanitizer** (`sanitizer.dfy`, on top of `text.dfy`). This is the
  `strip()` at line 55 followed by the two conditionals at lines 59-66.
  `Text` models Python's `str.strip()` (with `str.isspace`'s exact set of
  whitespace code points), `str.find`, `startswith` and `endswith`.
  `Sanitizer.Clean` is proved to return a contiguous slice of its input. On
  stripped input it leaves no surrounding whitespace. It leaves unfenced text
  unchanged, cuts a leading fence up to the first newline (or only the three
  backticks when there is no newline), and removes at most one trailing fence.
- **Exclusion extraction** (`json.dfy`, `exclusions.dfy`). This covers lines
  12-19 on an abstract decoded JSON value. `Json.Get` and `Json.Subscript` are
  plain definitions of Python's `dict.get` and `v["question"]`, in the way
  `StartsWith`, `EndsWith` and `IsSpace` define their Python counterparts.
  `QuestionFields` models iterating whatever `"questions"` holds.
  `LoadExclusions` is proved to equal a simple reference definition: the
  `"question"` fields in order when the old file holds a well-shaped question
  set, and the empty list otherwise.
- **Run ordering** (`fetch_questions.dfy`). `FetchQuestions.Run` follows the
  script from line 12 to line 79 over the state of `questions.json` before and
  after the run. The model call, `json.load` / `json.loads` and `json.dump` are
  function parameters. The file is written only after a successful decode. On
  every failure before line 78 it is left as it was.

Cleaning is not idempotent. `Sanitizer.CleanNotIdempotent` proves that
"```\n```x```" is cleaned to "```x" by lines 59-66, and that a second pass turns
that into "x".

## Model

| member | source | states |
|---|---|---|
| `Text.Find` | fetch_questions.py:60 | `find("\n")` gives -1 exactly when there is no newline; otherwise it gives the index of a newline with none before it |
| `Text.Strip` | fetch_questions.py:55 | `strip()` splits the text into a whitespace prefix, a result that neither starts nor ends with whitespace, and a whitespace suffix; so the result is a slice of its input |
| `Text.StripUnique` | fetch_questions.py:55 | any split into whitespace, a trimmed middle part and whitespace has `strip()` as its middle part, so the contract of `Strip` determines it |
| `Text.StripFixesExactlyTrimmed` | fetch_questions.py:55 | `strip()` returns its argument unchanged exactly when the argument has no leading or trailing whitespace |
| `Text.StripIdempotent` | fetch_questions.py:62 | stripping text that is already stripped changes nothing |
| `Text.StripSkipsLeadingSpace` | fetch_questions.py:62 | the newline kept by `content[first_newline:]` makes no difference after `strip()` |
| `Text.StripSkipsTrailingSpace` | fetch_questions.py:66 | a trailing whitespace character makes no difference to `strip()` |
| `Sanitizer.CutLeadingFence` | fetch_questions.py:59-64 | text without a leading fence is kept; after a leading fence the result is the stripped text after the first newline, or, with no newline, the stripped text after the three backticks; either way it is shorter than the input and has no surrounding whitespace |
| `Sanitizer.CutTrailingFence` | fetch_questions.py:65-66 | text without a trailing fence is kept; otherwise the result is the stripped text before the last three characters, at least three characters shorter and with no surrounding whitespace |
| `Sanitizer.Clean` | fetch_questions.py:59-66 | the cleaned text is no longer than its input and is a contiguous slice of it; if the input has no surrounding whitespace, neither has the result |
| `Sanitizer.Sanitize` | fetch_questions.py:55-66 | the text handed to `json.loads` is a slice of the model reply and never has leading or trailing whitespace |
| `Sanitizer.CleanWithoutFences` | fetch_questions.py:59-66 | text that neither starts nor ends with a fence is returned unchanged |
| `Sanitizer.LeadingFenceLine` | fetch_questions.py:59-62 | after a leading fence, the first step leaves the stripped text that follows the first newline |
| `Sanitizer.OneTrailingFenceOnly` | fetch_questions.py:65-66 | only one trailing fence is removed: a payload followed by two fences keeps the second one |
| `Sanitizer.CleanNotIdempotent` | fetch_questions.py:59-66 | the trailing step runs after the leading step, so a fence it uncovers at the front stays; a second pass removes it, so cleaning is not idempotent |
| `Sanitizer.FencedBlockUnwrapped` | fetch_questions.py:55-66 | a payload on its own line between an opening fence (any language tag) and a closing fence comes out as exactly the payload, even one that itself ends in a fence |
| `Sanitizer.JsonBlockScenario` | fetch_questions.py:55-66 | a "```json" block around `{"questions":[]}` is cleaned to `{"questions":[]}` |
| `Exclusions.SubscriptEach` | fetch_questions.py:17 | the comprehension over a list succeeds exactly when every element is a dict with the key; it then has one entry per element, in order, each that element's field |
| `Exclusions.QuestionFields` | fetch_questions.py:17 | on a list, the comprehension succeeds exactly when every element is a dict with "question", giving those fields in order; an empty string or empty dict gives the empty list; a non-empty string or dict, or anything that is not iterable, raises |
| `Exclusions.ExtractExclusions` | fetch_questions.py:16-17 | a non-dict raises; a dict without "questions" gives the empty list; a question set gives its question texts; a non-empty result comes only from a question set |
| `Exclusions.LoadExclusions` | fetch_questions.py:12-19 | the exclusions are the old question texts in order when the file exists, decodes and holds a question set, and the empty list in every other case (missing file, read or decode error, missing key, wrong shape) |
| `FetchQuestions.Run` | fetch_questions.py:12-79 | the run fails exactly when the model call raises or the cleaned reply does not decode, and a decode failure carries the cleaned text; on these failures, which all come before line 78, questions.json is unchanged; on success it holds the encoding of exactly the decoded data; if that encoding decodes back, the next run's exclusions are the new question texts |

## Left out

- The Gemini client setup and call (lines 3, 9, 54) are a network call into a foreign library. They are the parameter `generate`, which receives the exclusion list and returns the reply text or `None` if the call or reading `response.text` raises.
- The prompt text (lines 23-50) is a fixed template around `json.dumps(exclusions)`. The model passes the exclusions themselves to `generate` instead.
- File existence checks, opening, reading and writing (lines 13-16, 78-79) are file I/O. The old file is the value `StoredFile` (missing, unreadable, or holding text).
- FetchQuestions.Run: does not model a failure of the final write. `open(..., "w")` at line 78 empties the file before `json.dump` at line 79 writes it, so a dump that raises partway leaves `questions.json` empty or half-written. The all-or-nothing promise therefore holds only when the dump succeeds. One way the dump can raise is a lone surrogate in a decoded string, which `ensure_ascii=False` cannot write as UTF-8; Dafny's `char` cannot hold such a character at all.
- `json.load`, `json.loads` and `json.dump` (lines 16, 70, 79) are library code. They appear as the parameters `decode` (which may fail) and `encode`. Their round trip is a hypothesis where it is used, never a fact of the model.
- FetchQuestions.Run: folds every failure of `json.loads` into `InvalidJson`. Line 71 catches only `json.JSONDecodeError`. Any other exception from the decoder, such as a `RecursionError` on deeply nested input, escapes without the diagnostic print and without the `ValueError`, but it still ends the run before line 78.
- Printing and the timestamp (lines 4, 19, 72-74, 81) are console and clock I/O. The error message of the `ValueError` at line 75 is reduced to the cleaned text it is about.
- JSON numbers are integers in `Json.Json`. Floats and the order and duplicates of object keys are not modelled: the script never looks at numbers, and reads keys only by name.
- The shape of each question (five options, an in-range `correct` index) is never checked by the script, so the model does not check it either.
- A bounded exclusion history with eviction is not part of this script. Here the exclusions are simply the previous run's questions, replaced on every run.
