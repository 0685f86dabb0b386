# RAE dictionary launcher extension, modelled in Dafny

This project models the decision logic of a launcher extension that looks words up in the
dictionary of the Real Academia Española (dle.rae.es). It covers the following parts:

- the greedy line wrap `chunkize_sentence`, which reflows a definition into lines of at most
  80 characters whenever every word fits (with a longer word it never returns, see Findings);
- the three result builders of the `RAE` class:
  - the empty-word prompt;
  - the suggestion list for a word with no exact entry;
  - one row per definition for a word that has entries;
- the keyword-query listener that chooses between the builders;
- the two preference listeners, which update the extension's preference map;
- `get_all_word_data` from the offline cache builder. It turns the same definition
  paragraphs into `{abbrs, definition, html_code}` records, using the same text-extraction
  rule as main.py.

The dictionary page is abstract. It holds suggestion rows `(display name, note)` and
definition paragraphs `(id, abbr texts, children)`, where a child is a text node or an
element `(name, text)`. A row shown to the user is an `Item`. Its actions are `HideWindow`,
`CopyToClipboard`, `OpenUrl` and `SetUserQuery`. The Python exceptions the builders raise
become `Result` failures.

Files, one module each:

- `wrappers.dfy`: `Option` and `Result`.
- `builtins.dfy`: Python's `split(" ")`, `" ".join`, `strip()` and `xs[:n]`, with their
  round trips.
- `chunkize.dfy`: the line wrap. It has the loop as written and the greedy wrap it computes.
- `page.dfy`: the page shape and the shared text extraction.
- `items.dfy`: result rows and actions.
- `rae.dfy`: the three builders.
- `listeners.dfy`: query dispatch and the preference updates.
- `top_words.dfy`: cache records.

The model follows the code's actual behaviour in these places:

- The suggestion limit cuts the raw rows before duplicates are dropped. Repeated names inside
  the limit therefore use up places (`Rae.ApproxLimitBeforeDedupExample`).
- Suggestions are tried first. Definitions are built only when the page has no suggestion rows.
- Only a missing argument (`None`) counts as an empty word. An empty string would be looked up.
- The query listener never reads the offline cache. Every word is fetched.
- There is no separate "no match" row. When a page has neither suggestions nor definitions,
  the definition builder's `RuntimeError` leaves the listener.
- A word wider than the line width is not emitted alone: the loop as written never ends. See
  Findings.

## Model

| member | source | states |
|---|---|---|
| Builtins.Split | main.py:64 | `split(" ")` gives at least one token and no token holds a space; with `Builtins.JoinSplit` and `Builtins.SplitJoin` this determines it |
| Builtins.JoinSplit | main.py:64 | joining the tokens of `split(" ")` with single spaces gives back the original string, for every string |
| Builtins.SplitJoin | main.py:64 | splitting a space-joined list of space-free tokens gives back that list, including empty tokens |
| Builtins.Strip | main.py:206 | `strip()` leaves neither leading nor trailing whitespace, changes nothing in an already trimmed string, and gives an infix of the input between a whitespace-only prefix and a whitespace-only suffix |
| Builtins.TrimmedEdgeInfixIsStrip | main.py:206 | conversely, a trimmed infix between whitespace-only ends is exactly what `strip()` returns, so the contract of `Builtins.Strip` determines its result |
| Builtins.SliceTo | main.py:143 | `xs[:n]` is a prefix of `xs` of length `min(n, len)` for `n >= 0` and of length `max(0, len + n)` for negative `n` |
| Chunkize.LongestFit | main.py:68-80 | the number of tokens on a line: the prefix of that length fits the width, or it is a single token, and every longer prefix overflows |
| Chunkize.Wrap | main.py:50-81 | the greedy wrap has at most one line per token and is empty exactly when there are no tokens |
| Chunkize.WrapRoundTrip | main.py:64-81 | joining the wrapped lines with single spaces reproduces the joined tokens, empty tokens included |
| Chunkize.WrapLinesFit | main.py:51-62 | every line fits the width unless it is a single over-wide token; when every token fits, every line fits |
| Chunkize.WrapGreedy | main.py:69-75 | every line except the last is full: adding a space and the next line's first token would exceed the width |
| Chunkize.WrapExample | main.py:50-81 | "uno dos tres cuatro" at width 8 wraps to "uno dos", "tres", "cuatro" |
| Chunkize.Step | main.py:68-80 | one loop iteration keeps `anchor` and `word_idx` inside the token list, never moves `anchor` back and appends at most one line |
| Chunkize.LongTokenStalls | main.py:71-75 | at an over-wide token with `word_idx` 1, every iteration appends `""` and leaves everything else unchanged |
| Chunkize.LongTokenNeverStops | main.py:67-80 | a sentence with a token wider than the width never reaches the loop's `break`, for any number of iterations |
| Chunkize.LongTokenExample | main.py:71-75 | "abcdef" at width 3 never stops as written, while the greedy wrap gives the single line "abcdef" |
| Chunkize.ChunkizeSentence | main.py:50-81 | when every token fits, the loop terminates and returns the greedy wrap; the lines rejoin to the sentence, fit the width and are full; "" gives `[""]` |
| Page.ExtractText | main.py:198-206 | with no contributing child the text is empty, and a contributing first child's text starts it |
| Page.ExtractTextAppend | main.py:198-206 | the extracted text of a concatenation of children is the concatenation of their extracted texts |
| Page.ExtractTextChild | main.py:199-204 | a `span` or `abbr` child adds nothing wherever it stands; a text node or any other element adds exactly its text |
| Page.ExtractRecord | top_words/top_1k_spanish_words.py:26-39 | `abbrs` is the abbreviation texts joined by single spaces (`""` when there are none); `definition` is trimmed and sits between whitespace-only ends of the extracted text, which by `Builtins.TrimmedEdgeInfixIsStrip` makes it the stripped text; `html_code` is the paragraph id |
| Page.RecordAbbrsRoundTrip | top_words/top_1k_spanish_words.py:26 | when there is at least one abbreviation text and none holds a space, the `abbrs` string splits back into those texts (with none, `abbrs` is `""`, which splits to `[""]`) |
| Rae.EmptyWordItems | main.py:98-111 | exactly one row, "Palabra vacía" with the prompt to type a word, which hides the window on Enter and has no Alt+Enter action |
| Rae.Dedup | main.py:141-158 | starting with nothing seen, every display name of the rows appears exactly once, on a row taken from the input, and nothing is added |
| Rae.DedupFrom | main.py:141-158 | the kept rows come from the input, avoid already-seen names, have pairwise distinct names and cover every unseen name |
| Rae.DedupIsFirstOccurrences | main.py:152-158 | the `seen`-set loop keeps exactly the first row of each display name, in input order |
| Rae.HandleApproxResults | main.py:113-171 | fails exactly when there are no rows; otherwise gives the first occurrences within the raw-row limit, at most the limit many, with pairwise distinct queries |
| Rae.SuggestionItem | main.py:161-168 | the title is the display name, " ꞏ " and the note with its edge whitespace removed (trimmed, an infix between whitespace-only ends); the description is "Sugerencia RAE"; Enter sets the query to the keyword, a space and the display name; no Alt+Enter action |
| Rae.QueriesDistinct | main.py:160-168 | rows with distinct display names give distinct `SetUserQuery` actions |
| Rae.SuggestionNameOfTrimmedNote | main.py:166 | the title is "display name ꞏ note" when the note has no surrounding whitespace |
| Rae.ApproxDedupExample | main.py:141-170 | rows a/1, a/2, b/3 with limit 10 give two items, and the first "a" row's note is shown |
| Rae.ApproxLimitBeforeDedupExample | main.py:143 | rows a/1, a/2, b/3 with limit 2 give only one item, because the limit is applied before dropping duplicates |
| Rae.DefinitionItem | main.py:195-224 | the description is lines joined by newlines; those lines rejoin with spaces to the stripped definition, each fits 80 characters or is one word, and each but the last is full: the next line's first word would not fit after it |
| Rae.ReflowKeepsText | main.py:50-81 | the greedy wrap of any text at 80 characters rejoins to the text, keeps every line within the width unless it is one word, and fills every line but the last |
| Rae.HandleMultipleDefs | main.py:173-225 | fails exactly when there are no paragraphs; otherwise gives `min(n, limit)` rows in document order, each titled "word [abbrs]", copying the stripped text, linking `BASE_URL/word#id`, and each row is `Rae.DefinitionItem` of its paragraph, so its description is the greedy reflow of the definition |
| Listeners.OnKeywordQuery | main.py:249-265 | no word gives exactly the hidden "Palabra vacía" prompt; otherwise suggestions win, and definitions are built only when there are no suggestion rows; it fails exactly when both are missing |
| Listeners.QueryResultNonEmpty | main.py:252-264 | with positive limits, a successful query result is never empty |
| Listeners.OnPreferencesUpdate | main.py:289-312 | a numeric id gets `int(new)` if `float(new)` is integral, else `int(old)`, and fails with `ValueError` exactly when the `float()` or the chosen `int()` conversion fails; "Reset" restores every default and fails with `KeyError` exactly when one is missing; otherwise the id gets the new text; no other key changes |
| Listeners.IntegralDecimalRaises | main.py:289-292 | a value such as "4.0", which passes `is_integer()` but not `int()`, makes the update fail with `ValueError` instead of storing 4 |
| Listeners.UpdateIdempotent | main.py:289-312 | saving the same event twice gives the same preferences as saving it once |
| Listeners.OnPreferences | main.py:276-277 | saved values override current ones, the reset switch becomes "-", other keys are kept |
| Listeners.StartupIdempotent | main.py:276-277 | replaying the start-up event changes nothing more |
| TopWords.GetAllWordData | top_words/top_1k_spanish_words.py:11-41 | one record per definition paragraph, in document order, with no limit: its `abbrs` is that paragraph's abbreviation texts joined by spaces, its definition the stripped extracted text, its `html_code` the paragraph id; a page with no paragraphs gives `[]` and no error |
| TopWords.DefinitionRowsMatchRecords | main.py:195-224 | main.py's rows carry the same abbreviations, copied text and anchor as the cache records of the same page |

## Left out

- HTTP fetching and HTML parsing (main.py:255-256). The page for `BASE_URL/word` comes from a `fetch` parameter.
- Loading the manifest and `DEFAULT_PREFERENCES` from the filesystem (main.py:30-43). The defaults are a parameter.
- Reading and `int()`-converting the two limits from the preferences (main.py:243-244). The limits and the keyword are parameters, so a missing key or a non-numeric value is not modelled.
- `float(v).is_integer()` and `int(v)` in the preference update (main.py:290-297). Their parsing rules are not modelled. They are the parameters `isIntegral` and `toInt`, which give `None` where Python raises `ValueError`. For `int()` that is any text that is not an integer literal, including integral decimals such as "4.0", "4." or "1e2" that the float check accepts. The update then fails with `ValueError`.
- Listeners.OnPreferencesUpdate: when a default key is missing, the reset returns a failure and the preferences as they were. The code has already reset the keys it visited before the `KeyError`, in dictionary order, which the model does not track.
- The `AttributeError` raised when the page has no results container (main.py:130-134). It is outside the modelled page shape.
- The `ValueError` raised when a suggestion row does not have exactly two children (main.py:149). Rows are modelled as pairs.
- The `KeyError` raised when a definition paragraph has no `id` (main.py:210; top_words/top_1k_spanish_words.py:39). Paragraphs always carry one.
- Logging, `print`, the `Extension` subscriptions and `run` (main.py:84-95, 315-316).
- Rae.DefinitionItem: for a definition holding a word longer than 80 characters the code never returns, because `chunkize_sentence` loops forever (main.py:207; see Findings). The model instead puts that word alone on its own line and builds the row.
- Rae.HandleMultipleDefs: for the same reason, the code never returns when a shown definition holds a word longer than 80 characters, while the model returns its rows.
- `get_top_words`, `get_all_words_data`, `save_datas` and the module-level batch script (top_words/top_1k_spanish_words.py:44-98). They involve network access, sleeping, wall-clock timestamps and JSON file writes.

## Findings

| source | as written | input that shows it | evidently intended | confidence | as-written member | corrected member |
|---|---|---|---|---|---|---|
| main.py:71-75 | A token wider than the width makes the loop append `""` and restart at the same `anchor`, forever. | `chunkize_sentence("abcdef", 3)` | The function returns. The docstring (main.py:62) promises lines of at most the width, which no wrap of an over-wide word can meet. Putting that word alone on its own line, and continuing with the rest, is the model's choice. | high; not executed | Chunkize.LongTokenNeverStops | Chunkize.Wrap |

`Chunkize.ChunkizeSentence` proves that the loop as written computes `Chunkize.Wrap` whenever
every token fits. `Chunkize.WrapRoundTrip` and `Chunkize.WrapLinesFit` prove the intended
properties of `Wrap` for every input. The definition builder (`Rae.DefinitionItem`) uses
`Wrap`. A definition containing a word longer than 80 characters would therefore hang the
extension as written, but it gets a description in the model.
