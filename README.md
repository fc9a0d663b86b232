# Category detection of the food-wizard bot

The bot asks a completion model which dish categories suit the products a
user has listed (`GroqService.analyze_categories`). The model is told to
answer with a JSON array of keys. The code does not trust the answer. It
takes the part of the reply that matches `\[.*\]` (greedy, `re.DOTALL`),
decodes that text with `json.loads` and returns the decoded value. A
missing match, a decoding error, or any other exception makes it return the
single-element list `["main"]`. That covers every exception the
`try` block raises. The request itself comes before the `try`, so an
exception it raises is not caught (see "## Left out").

This project models that routine and proves what it does:

- `BracketSearch` models the regular-expression search step by step, the
  way a backtracking engine runs it. Every start position is tried from the
  left. At a `[`, the greedy `.*` takes the rest of the text and gives it
  back one character at a time until a `]` can follow. Lemmas prove that the
  match exists exactly when some `[` comes before some `]`. They also prove
  that the match runs from the first `[` of the reply to its last `]`,
  inclusive, that it is the leftmost-longest match, and that newlines inside
  it are kept.
- `Json` gives the values a JSON decoder produces. The decoder itself is a
  parameter of type `string -> Option<JsonValue>`, where `None` means that
  `json.loads` raised.
- `GroqService` holds `AnalyzeCategories` and the properties of its three
  outcomes. With no bracket pair, the result is `["main"]`. With a pair whose
  text does not decode, the result is `["main"]`. When the text decodes, the
  decoded value is returned unchanged.
- `Wrappers` holds the `Option` datatype.

What the routine does not do:

- It looks only for a `[...]` array. A `{...}` object in the reply is not
  searched for.
- It makes a single search. There is no second attempt with another pattern.
- It filters nothing. In particular it never removes a `mix` category and
  applies no ingredient-count threshold.
- The prompt offers seven keys, and `mix` is not among them. The model keeps
  them as `PromptKeys` and proves that the result is not restricted to them.

## Model

| member | source | states |
|---|---|---|
| `GroqService.AnalyzeCategories` | groq_service.py:15-20 | from the reply on it never fails; a match that decodes gives exactly the decoded value; no match, or a match that does not decode, gives `["main"]` |
| `GroqService.CategoriesFromFirstToLast` | groq_service.py:17-20 | without a `[` before a `]` the result is `["main"]`; otherwise it is the decoding of the text from the first `[` to the last `]` inclusive, or `["main"]` if that text does not decode |
| `GroqService.UndecodableMatchGivesMain` | groq_service.py:18-20 | a reply with a bracket pair has a match, and if the matched text fails to decode the result is exactly `["main"]` |
| `GroqService.BracketFreeReplyGivesMain` | groq_service.py:14-20 | a reply with no `[` or no `]`, the empty reply of a failed request among them, gives `["main"]` whatever the decoder |
| `GroqService.SurroundingProseIgnored` | groq_service.py:17-18 | prose before the first `[` and after the last `]` does not reach the decoder; the result is the decoding of the bracketed part or `["main"]` |
| `GroqService.DecodedValuePassesThrough` | groq_service.py:17-18 | any value the decoder yields for a bracketed reply is returned as it is, whether or not it is a list of known keys |
| `GroqService.UnfilteredResults` | groq_service.py:11-18 | a repeated key comes back repeated, which is not a list of distinct prompt keys; an empty list comes back empty, not as `["main"]` |
| `GroqService.FencedMultilineReply` | groq_service.py:16-18 | for a reply in a Markdown code fence spread over lines, the decoder receives the list with its inner newlines |
| `BracketSearch.FirstIndexOf` | groq_service.py:17 | the result is the position of the first occurrence of the character, and `None` exactly when it does not occur |
| `BracketSearch.LastIndexOf` | groq_service.py:17 | the result is the position of the last occurrence of the character, and `None` exactly when it does not occur |
| `BracketSearch.BacktrackFindsRightmost` | groq_service.py:17 | giving back characters from the greedy `.*` stops at the rightmost `]` after the `[`, and fails only if there is none |
| `BracketSearch.SearchFromFindsLeftmost` | groq_service.py:17 | the search takes the first `[` that has a `]` after it and ends the match at the last `]` of the text; no match means no `[` precedes a `]` |
| `BracketSearch.SearchSucceedsIff` | groq_service.py:17 | a match exists if and only if some `[` stands before some `]` |
| `BracketSearch.SearchIsFirstToLast` | groq_service.py:17 | the match is the span from the first `[` to the last `]`, inclusive, and is absent when the first `[` does not precede the last `]` |
| `BracketSearch.SearchIsLeftmostLongest` | groq_service.py:17 | the match is a match of the pattern and contains every other match of it |
| `BracketSearch.GroupIsBracketedSlice` | groq_service.py:17 | `.group()` succeeds exactly when a bracket pair exists; its text is a contiguous slice of the reply, starts with `[` and ends with `]` |
| `BracketSearch.NewlineKept` | groq_service.py:17 | a newline between the first `[` and the last `]` appears at the same offset in the matched text |
| `BracketSearch.SurroundingTextIgnored` | groq_service.py:17 | for text with no `[` before a bracketed part and no `]` after it, the matched text is exactly that part |

## Left out

- GroqService.AnalyzeCategories: never fails only from the reply on. The request on groq_service.py:14 stands before the `try` on line 15, so an exception it raises propagates out of `analyze_categories` and does not give `["main"]`. The model assumes the request returns a string.
- The awaited request `_send_groq_request` (groq_service.py:14) is a network call to the completion model, and its body is not part of this model. Its reply is the input `response`, always a string. A non-string reply would also land in the `except` branch, but that case is not modelled.
- `json.loads` (groq_service.py:18) belongs to a foreign library. It is the parameter `decode` and is not a JSON parser written out here. `None` stands for any exception it raises. Numbers keep their text, so floating point is not modelled.
- The prompt text (groq_service.py:7-13) only instructs the model, for example "always include soup". The code enforces none of it. Only the key list on line 11 is used, as `PromptKeys`, to show that the result is not filtered.
- database.py, main.py, image_service.py, handlers.py and config.py hold table declarations, database and bot start-up, an HTTP health check, an image lookup, imports and configuration constants. None of them is part of this model. `COMPLEX_MEAL_MIN_INGREDIENTS` (config.py:26) is read by nothing in the modelled code.
- Asynchronous execution (`async`/`await`) is not modelled, because the modelled routine does nothing between its one await and its return.
