# Inventory assistant: answer sanitizer, fallback query and request flow

The application is a single Streamlit page (`app.py`). A user types a question
about the product inventory and presses "Consultar". The question is put into a
fixed instruction template and handed to a LangChain ReAct SQL agent. The page
then shows one of two things:

- the agent's answer, after a sanitizer has removed sentences that leak
  technical detail;
- or, when the agent raises, the raw rows of a fallback SQL query chosen from
  keywords in the question.

This project models the logic that the page itself implements. That logic is
inline in the request handler, so the model gives it names:

- `Sanitizer.Sanitize` models the sanitizer loop. It is a method with two
  nested `for` loops, as in the source. It is proved equal to the
  specification function `Sanitizer.Sanitized`.
- `FallbackQuery.SelectFallbackQuery` is the keyword classifier that picks the
  fallback SQL.
- `Prompt.Render` substitutes the question into the template.
- `RequestFlow.HandleRequest` is the per-press handler. It is proved equal to
  the specification function `RequestFlow.Respond`. The agent and the database
  are parameters: a function from the text each is given to its outcome.

The Python string built-ins the handler uses are modelled in module `Text`:
`in`, `split`, `join`, `strip` and `lower`.

The sanitizer's behaviour, stated with a well-formed denylist (`WellFormed`).
A well-formed phrase is non-empty, holds no `.` and does not start with a
blank. The five phrases of the source are proved well-formed.

- If no phrase occurs in the answer, the answer is returned exactly as it came.
  It is not stripped and gets no period.
- Otherwise exactly one cleaning pass changes the text. The pass splits the
  text on `.`, keeps the pieces that hold no phrase in their original order,
  joins them with `". "`, strips the result and adds a final `.` if needed.
  Later iterations of the loop find no phrase and change nothing.
- No phrase occurs in the result, and sanitizing is idempotent.

An answer with no denylisted phrase is returned untouched: it is not stripped
and gets no period (`app.py:118-119`). See
`Sanitizer.SanitizedUnchangedWithoutPhrases`.

## Model

| member | source | states |
|---|---|---|
| `Text.Split` | app.py:121 | `s.split('.')` yields at least one piece and no piece contains the separator |
| `Text.SplitJoinRoundTrip` | app.py:121 | joining the pieces of a split with the separator gives back the original text |
| `Text.Strip` | app.py:126 | `strip()` returns the slice of the input left after removing only whitespace at both ends, and it neither starts nor ends with whitespace |
| `Text.StripKeepsAbsence` | app.py:126 | stripping cannot create an occurrence of a phrase |
| `Text.Lower` | app.py:142 | `lower()` keeps the length, turns each upper-case ASCII letter into its lower-case letter (32 code points on), keeps every other character in place, and leaves no upper-case letter |
| `Text.LowerIdempotent` | app.py:142-144 | lower-casing twice is the same as lower-casing once |
| `Sanitizer.Sanitize` | app.py:118-128 | the loop over the phrases returns `Sanitized(answer, phrases)`; an answer with no phrase is returned unchanged; with a well-formed denylist no phrase is left |
| `Sanitizer.UnwantedPhrasesWellFormed` | app.py:110-116 | each of the five denylisted phrases is non-empty, holds no '.' and does not start with a blank |
| `Sanitizer.KeepIsOrderedFilter` | app.py:122-125 | the kept sentences are exactly the sentences holding no phrase, at strictly increasing positions, in their original order |
| `Sanitizer.JoinKeepsAbsence` | app.py:126 | joining phrase-free sentences with ". " creates no occurrence of a phrase that has no '.' and does not start with a blank |
| `Sanitizer.TidyKeepsAbsence` | app.py:126-128 | stripping and adding the final '.' create no occurrence of a phrase without '.' |
| `Sanitizer.CleanHasNoPhrase` | app.py:121-128 | one cleaning pass leaves no phrase of a well-formed denylist in the text |
| `Sanitizer.SanitizedUnchangedWithoutPhrases` | app.py:118-119 | when no phrase occurs, the answer comes back exactly as it was: not stripped, no period added |
| `Sanitizer.SanitizeOverCleansOnce` | app.py:118-128 | after the loop has visited any phrases of a well-formed denylist, the text is one cleaning pass of the answer if one of them occurred in it, else the answer |
| `Sanitizer.SanitizedIsOneClean` | app.py:118-128 | with a well-formed denylist, sanitizing is a single cleaning pass when some phrase occurs and the identity otherwise |
| `Sanitizer.SanitizedHasNoPhrase` | app.py:118-128 | no denylisted phrase occurs anywhere in a sanitized answer |
| `Sanitizer.SanitizeIdempotent` | app.py:118-128 | sanitizing a sanitized answer changes nothing |
| `Sanitizer.SanitizedKeepsCleanSentencesInOrder` | app.py:121-128 | when a phrase occurs, the answer becomes the stripped, period-terminated ". "-join of exactly the clean '.'-pieces of the input, in their original order |
| `Sanitizer.TidyShape` | app.py:126-128 | the text after strip and period rule is empty, or it ends with '.' and has no whitespace at either end |
| `Sanitizer.CleanedAnswerShape` | app.py:118-128 | when cleaning happened, a non-empty sanitized answer ends with '.' and has no leading or trailing whitespace |
| `Sanitizer.AllSentencesUnwantedGivesEmpty` | app.py:121-128 | an answer whose sentences all hold a phrase, apart from at most a blank tail after the last '.', sanitizes to the empty text |
| `Sanitizer.RestockWith` | app.py:118-128 | for any well-formed denylist, a first sentence holding a phrase anywhere, followed by one clean sentence, keeps only the clean sentence and its period |
| `Sanitizer.RestockExample` | app.py:118-128 | "The results show that we have 10 units. Restock needed." sanitizes to "Restock needed." |
| `FallbackQuery.SelectFallbackQuery` | app.py:142-147 | the result is exactly one of the three fixed queries: best sellers if and only if the lower-cased question contains "vende mais"; in stock if and only if it contains "estoque" but not "vende mais"; the default if and only if it contains neither |
| `FallbackQuery.SelectionIgnoresCase` | app.py:142-144 | a question and its lower-case form select the same query |
| `FallbackQuery.BestSellerExample` | app.py:142-143 | "O que vende mais?" selects the best-sellers query |
| `FallbackQuery.UpperCaseExample` | app.py:142-143 | "VENDE MAIS?" selects the best-sellers query too |
| `Prompt.Render` | app.py:76-97 | the rendered prompt is the fixed head, the question verbatim, then the fixed tail |
| `Prompt.RenderRoundTrip` | app.py:86-97 | the question can be read back out of the rendered prompt |
| `Prompt.RenderInjective` | app.py:86-97 | different questions give different prompts |
| `Prompt.RenderContainsQuestion` | app.py:86-97 | the rendered prompt contains the question as a substring |
| `RequestFlow.HandleRequest` | app.py:93-158 | the handler shows exactly what `Respond` specifies for the press, the question, the agent and the database |
| `RequestFlow.EmptyQuestionConsultsNothing` | app.py:94-158 | an empty question shows "Por favor, insira uma pergunta." whatever the agent and the database would do |
| `RequestFlow.MarkdownIsClean` | app.py:106-134 | any markdown the page shows is non-empty and holds no denylisted phrase |
| `RequestFlow.AnswerShownSanitized` | app.py:106-134 | when the agent answers, the database plays no part; the warning "Não foi possível obter uma resposta clara." appears exactly when the sanitized answer is empty; otherwise the sanitized answer is shown as markdown; the answer is shown as it came exactly when it is non-empty and holds no phrase |
| `RequestFlow.FallbackRunsSelectedQueryOnly` | app.py:138-153 | when the agent raises, the page depends on the database only through the selected fallback query; it shows that query's rows as plain text, or "❌ Erro: " followed by the query's error |
| `RequestFlow.BestSellerFallbackScenario` | app.py:138-150 | "O que vende mais?" with a failing agent shows the raw rows of the best-sellers query |
| `RequestFlow.RestockScenario` | app.py:105-132 | an agent answering "The results show that we have 10 units. Restock needed." leads to "Restock needed." being shown |

## Left out

- Streamlit rendering is left out because it is presentation only. This covers `st.header`, `st.write`, `text_input`, the spinner, and how markdown and text are drawn. What the page shows is modelled as the `Shown` value.
- The LLM client, `hub.pull`, `create_react_agent` and `AgentExecutor` are left out because they are remote calls and library internals. Their iteration, time and parsing-error settings go with them. The agent is a parameter from the rendered prompt to `Raised` or `Returned`.
- `SQLDatabase.from_uri`, the toolkit and `db.run` are left out because they are database I/O. The database is a parameter from the query text to `Rows` or `QueryFailed`. The SQL strings are opaque constants.
- The start-up failures are left out because they happen before any request: a missing API key, an unreachable database, an unreachable prompt asset. So is loading the key through `decouple`.
- The outer `except` (app.py:155-156) is not modelled. It guards `prompt_template.format`, which cannot fail for a string question.
- The agent's error value is not used, as in the source. A non-string `output` entry is not modelled.
- `Text.Lower`: lower-cases ASCII letters only. Python's `str.lower()` also maps other Unicode letters, such as `É`. The keywords "vende mais" and "estoque" are plain ASCII, so only the case of non-ASCII letters elsewhere in the question is simplified.
- `Text.Strip`: removes only the ASCII whitespace set (space, tab, newline, carriage return, vertical tab, form feed). Python's `str.strip()` also removes other Unicode whitespace and the ASCII separator characters.
- The other two application variants of the repository are not part of this model.
