# Gitanjali: a verified model of the string handling around the model call

Gitanjali is a Streamlit chat assistant for the Bhagavad Gita. It embeds the
question, asks a Qdrant vector store for the five nearest verses, joins
their texts into one context, has a Groq-hosted language model complete a
prompt built from that context, and shows the completion split into a
collapsible reasoning part and the visible answer.

This project models the three parts of `app2.py` that are program logic
rather than UI or remote calls:

- **The response splitter** `extract_thinking_and_answer` (module
  `Splitter`). It is modelled exactly as written, on top of a model of the
  Python string primitives it uses (module `PyStr`):
  - `str.find` returns the least index, or -1.
  - A slice adds `len` to a negative bound, clamps both bounds to
    `[0, len]`, and is empty when start >= stop.
  - `str.strip()` removes the characters `str.isspace` accepts.
- **The pipeline** `pipeline` and the `search` it calls (module
  `Retrieval`). The list comprehension over the points' `'context'` payload
  fields, then `"\n".join`, including the `KeyError` and `TypeError` either
  can raise. The embedding model, the store's `query_points`, the prompt
  template and the language model are function parameters that return a
  value or raise, and their exceptions propagate.
- **The credential guard** in `initialize_models` (module `Config`). The
  environment is a map and `os.getenv` a lookup in it. The function records
  which clients it constructs, in order, and what it returns or raises.

`Wrappers` holds the `Option` and `Result` types.

The splitter's docstring promises to extract the reasoning and the answer,
and its `except` branch falls back to no reasoning and the whole text. For a
completion without the tags, or with them out of order, the code does
neither. The model follows the code: `Splitter.Extract` is the function as
written. `Splitter.SplitIntended` is the intended splitter: the code's
result when both tags are present in order, and otherwise the fallback's
result. The model trims the fallback's text so that both splitters return
trimmed parts; the source's fallback returns it untrimmed. The differences
are listed under Findings.

## Model

| member | source | states |
|---|---|---|
| PyStr.Find | app2.py:107-108 | `s.find(t)` is -1 exactly when `t` occurs nowhere in `s`; otherwise `t` occurs at the result and at no smaller index |
| PyStr.FindAfterPrefix | app2.py:107-108 | a prefix not containing the needle's first character shifts the `find` result by its length and keeps -1 as -1 |
| PyStr.SliceBound | app2.py:107-108 | a slice bound is normalised into `[0, len]`: a negative bound counts from the end, and an out-of-range bound is clamped |
| PyStr.Slice | app2.py:107-108 | `s[start:stop]` never raises, is no longer than `s` and is a contiguous part of `s` |
| PyStr.SliceSpec | app2.py:107-108 | `s[start:stop]` has length `max(0, hi - lo)` for the normalised bounds, holds `s[lo + k]` at index `k`, and is a contiguous part of `s` |
| PyStr.SliceEmpty | app2.py:107 | when the normalised stop does not exceed the normalised start, the slice is empty |
| PyStr.Strip | app2.py:107-108 | `strip()` removes a whitespace-only prefix and suffix and leaves neither end whitespace; the result is a contiguous part of the input |
| PyStr.StripsToUnique | app2.py:107-108 | only one string can be `s` stripped, so `StripsTo` is a reference definition of `strip()` |
| PyStr.StripExact | app2.py:107-108 | cutting whitespace-only ends off so that neither remaining end is whitespace gives exactly `strip()` |
| PyStr.StripIdempotent | app2.py:107-108 | stripping twice is the same as stripping once |
| PyStr.StripOfTrimmed | app2.py:107-108 | a string without whitespace at either end is its own strip |
| PyStr.JoinNl | app2.py:91 | `"\n".join` of no parts is `""`, of one part is that part, and of n >= 1 parts has their total length plus n - 1 |
| PyStr.JoinNlSeparators | app2.py:91 | joining n >= 1 newline-free parts puts exactly n - 1 newlines in the result |
| PyStr.SplitJoinNl | app2.py:91 | splitting the join of newline-free parts at its newlines gives the parts back, in order |
| Splitter.Extract | app2.py:104-109 | the function returns normally on every string, and both returned parts are trimmed contiguous parts of the input |
| Splitter.TagsApart | app2.py:107 | occurrences of `<think>` and `</think>` never overlap, so the reasoning slice never starts inside the closing tag |
| Splitter.ExtractTagged | app2.py:107-108 | with `<think>` first found at `i` and `</think>` first found at `j > i`, `i + 7 <= j`, the reasoning is `strip(s[i+7:j])` and the answer is `strip(s[j+8:])` |
| Splitter.ExtractMisordered | app2.py:107-108 | with `</think>` found before `<think>`, the reasoning is empty and the answer is `strip(s[j+8:])` |
| Splitter.ExtractUnclosed | app2.py:107-108 | with only `<think>`, the reasoning stops before the last character (stop -1), and the answer is the text from index 7, stripped (start -1 + 8) |
| Splitter.ExtractUnopened | app2.py:107-108 | with only `</think>`, the reasoning starts at index 6 (-1 + 7) and runs up to the closing tag |
| Splitter.ExtractUntaggedThinking | app2.py:107 | with neither tag, the reasoning is `strip(s[6:-1])` |
| Splitter.ExtractUntaggedAnswer | app2.py:108 | without `</think>`, the answer is `strip(s[7:])`: the first seven characters are dropped |
| Splitter.ExtractTaggedShape | app2.py:104-109 | a completion `a + "<think>" + t + "</think>" + b`, with no `<` in `a` or `t`, splits back into `strip(t)` and `strip(b)` |
| Splitter.ExtractMisorderedShape | app2.py:107-108 | `"</think>" + b + "<think>" + c`, with no `<` in `b`, gives no reasoning and the answer `strip(b + "<think>" + c)`, which still holds the opening tag |
| Splitter.ExtractRequestedFormat | app2.py:50 | a completion in the format the system prompt requests (`<div class="think">` ... `</div>`) contains neither tag, so it is split like untagged text |
| Splitter.ExtractUntaggedExample | app2.py:107-108 | `"just an answer"` splits into reasoning `"n answe"` and answer `"answer"` |
| Splitter.SplitIntended | app2.py:104-111 | the intended splitter also returns trimmed contiguous parts of its input |
| Splitter.SplitIntendedTagged | app2.py:107-108 | on tagged input the intended splitter and the code agree |
| Splitter.SplitIntendedFallback | app2.py:110-111 | when `<think>` is not found before `</think>`, the intended splitter returns no reasoning and the whole text, trimmed |
| Splitter.SplitIntendedUntagged | app2.py:110-111 | text without `<` is returned whole (trimmed) with no reasoning |
| Splitter.SplitIntendedUntaggedExample | app2.py:110-111 | the intended splitter returns `"just an answer"` unchanged, with no reasoning |
| Retrieval.ContextValues | app2.py:90 | the comprehension succeeds exactly when every point has a `'context'` field, then lists those fields in the store's order; otherwise it raises `KeyError('context')` |
| Retrieval.JoinValues | app2.py:91 | the join succeeds exactly when every item is a string, and raises `TypeError` otherwise |
| Retrieval.BuildContext | app2.py:90-91 | building the context raises `KeyError` exactly when some point lacks the field, and `TypeError` exactly when all have it but some value is not a string |
| Retrieval.Search | app2.py:77-85 | `search` embeds the query and asks the `bhagavad-gita` collection for `k` points; an exception from either call propagates unchanged, the embedding's first |
| Retrieval.Generate | app2.py:94-101 | the template is filled with the context and the query before the model is called; an exception from either step propagates unchanged, and otherwise the completion is returned |
| Retrieval.Pipeline | app2.py:87-102 | the first step that raises decides the error: search (embedding, then the store), then the context's `KeyError` or `TypeError`, then the template and the model; the pipeline succeeds exactly when every step does; the store is asked for five points (`limit=5`) of `bhagavad-gita` and may return any number |
| Retrieval.PipelineWhenCallsReturn | app2.py:87-102 | when the remote calls all return, the pipeline fails exactly when the context cannot be built, and otherwise returns the completion of the prompt filled with the context and the query |
| Retrieval.ContextIsJoin | app2.py:90-91 | when every point carries a string, the context is those strings joined with `"\n"`, in the store's order |
| Retrieval.NoPointsEmptyContext | app2.py:89-101 | zero retrieved points give the context `""`, and the pipeline's result is that of the template and the model on it |
| Retrieval.ContextSeparators | app2.py:90-91 | n >= 1 newline-free texts give a context with exactly n - 1 newlines, and splitting it at them returns the texts in order |
| Config.InitializeModels | app2.py:16-32 | both models are built first; with constructors that never raise, a `ValueError` with the fixed message is raised exactly when either credential is unset or empty, and then no Qdrant client is built; otherwise the client gets the two credentials and `prefer_grpc=True`, and the three handles are returned |
| Config.ClientOnlyWithCredentials | app2.py:24-31 | a Qdrant client exists only when both credentials are set and non-empty, and it carries exactly their values |

## Left out

- The embedding model, `query_points`, the prompt template and `Groq.complete` are function parameters. Nothing is stated about what they return or when they raise. This covers vector similarity, the embedding dimension and scores (floating point), and llama_index's template substitution.
- Retrieval.Pipeline: an exception from a remote or library call is kept only as a message (`Raised`); its Python class is not modelled.
- Config.Getenv: `os.getenv` is modelled as a plain lookup in a map of the environment; it has no contract of its own, and `Config.InitializeModels` states the guard directly in terms of that map.
- `@st.cache_resource` and `load_dotenv` are not modelled. They are framework caching and environment file I/O; the environment enters `Config.InitializeModels` as a map.
- `main()` is not modelled: page setup, CSS and markdown rendering, the session-state history, the clear-chat button and the typewriter loop with `sleep`. This is presentation and timing.
- The `except` branch of `extract_thinking_and_answer` (app2.py:110-111) is not modelled. Slicing, `find` and `strip` never raise on a `str`, and both callers pass a `str`, so the branch is unreachable there. `Splitter.Extract` has no precondition, which states that the function returns normally on every string.
- Payload values other than strings are one `Other` value. What matters is that `join` rejects them.
- Config.InitializeModels: the three constructors `FastEmbedEmbedding`, `Groq` and `qdrant_client.QdrantClient` are recorded as values with their arguments and never raise, so its "fails exactly when a credential is unset or empty" holds relative to that; an exception from `FastEmbedEmbedding` or `Groq` (app2.py:17-18), which would come before the guard and replace the `ValueError`, and connection errors of the client are not modelled.
- Strings are sequences of Unicode scalar values, so a Python `str` holding a lone surrogate code point cannot be represented; nothing in the splitter or the join depends on one.

## Findings

| source | as written | input that shows it | evidently intended | confidence | as-written member | corrected member |
|---|---|---|---|---|---|---|
| app2.py:107-108 | `find` returns -1 for a missing tag, and -1 is used as a slice index, so untagged text gives reasoning `s[6:-1]` and answer `s[7:]` | `"just an answer"` gives `("n answe", "answer")` | the `except` fallback's result, no reasoning and the whole text (trimmed by the model): `("", "just an answer")` | high, not executed | Splitter.ExtractUntaggedExample | Splitter.SplitIntendedUntaggedExample |
| app2.py:107-108 | a closing tag before the opening tag gives no reasoning and only the text after the closing tag as the answer | `"</think>x<think>y"` gives `("", "x<think>y")` | the `except` fallback's result, no reasoning and the whole text (trimmed by the model): `("", "</think>x<think>y")` | medium, not executed | Splitter.ExtractMisorderedShape | Splitter.SplitIntendedFallback |
