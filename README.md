# Response assembly and helpers of the Cakap virtual assistant

A Dafny model of the sequential logic in `app.py`, a Streamlit page that
sends a templated prompt to a Gemini model on Vertex AI and shows the answer.

- **Response assembly** (`get_gemini_response`, after the provider call): a
  non-streamed response gives back its text payload; a streamed response is
  read chunk by chunk, each chunk adding its text, or `""` when reading the
  text raises `IndexError`, to a list that is then joined with one space.
  Module `Assembler`: `ChunkText` is one chunk's entry, `Texts` the whole
  accumulation list, the method `AssembleStream` the loop and the join, and
  the method `GetGeminiResponse` the choice between the two branches.
- **Model label** (`get_model_name`): every occurrence of
  `publishers/google/models/` is removed from the model identifier and the
  rest is set in backticks. Function `Helpers.GetModelName`, with
  `Helpers.InlineCode` for the backtick f-string.
- **Storage URL** (`get_storage_url`): the second piece of
  `gcs_uri.split("gs://")` is appended to `https://storage.googleapis.com/`;
  with no `gs://` in the reference the indexing raises `IndexError`.
  Function `Helpers.GetStorageUrl`.
- The Python string operations these rely on are modelled in module
  `Strings`: `Strings.Join` for `" ".join` (app.py:63), `Strings.Replace` for
  `str.replace` (app.py:68-70) and `Strings.Split` for `str.split`
  (app.py:76). app.py does not call a search of its own: `Strings.Find` (the
  leftmost occurrence) and `Strings.Contains` (membership) are this model's
  own search and membership test, the search that replace and split perform
  inside CPython, on which `Split` and `Replace` are built, scanning from the
  left without overlap. Option, Result and the two exceptions that escape
  are in module `Wrappers`.

The provider's answer is an input: `Response.Unary(payload)` for
`stream=False` and `Response.Streamed(chunks)` for `stream=True`, each chunk
an `Option<string>` where `None` is a chunk whose `.text` raises
`IndexError`. `GetGeminiResponse` requires the shape to match the `stream`
flag, which is what the provider client guarantees. A non-streamed payload
whose text cannot be read gives `Failure(PayloadUnavailable)`: the source
does not catch that exception, so it reaches the caller. In
`get_model_name` the identifier is a plain string, standing for the model
object's internal name.

## Model

| member | source | states |
|---|---|---|
| Assembler.GetGeminiResponse | app.py:53-63 | With `stream` off the result is the payload unchanged, or the escaping error when it has none; with `stream` on it is the one-space join of the per-chunk entries |
| Assembler.AssembleStream | app.py:56-63 | The loop builds the accumulation list one entry per chunk and the result equals `Join(Texts(chunks), " ")` |
| Assembler.TextsAt | app.py:57-61 | The list has one entry per chunk; entry k is chunk k's text, and `""` when chunk k has none |
| Assembler.TextsLength | app.py:57-62 | The list's length equals the number of chunks, chunks without text included |
| Assembler.TextsAppend | app.py:57-62 | Handling one more chunk appends exactly that chunk's entry at the end |
| Assembler.EmptyStreamIsEmpty | app.py:56-63 | A stream with no chunks assembles to the empty string |
| Assembler.StreamOfPresentTexts | app.py:57-59 | When every chunk has text the entries are exactly those texts, in arrival order |
| Assembler.AssembledLength | app.py:63 | The assembled text is the entries' characters plus exactly one space per gap between chunks |
| Assembler.AssembledSplitsBack | app.py:56-63 | When no chunk text holds a space, splitting the result on a space gives back one entry per chunk, in order |
| Assembler.HelloWorldStream | app.py:56-63 | `"Hello"`, a chunk without text and `"world"` assemble to `"Hello  world"` with two spaces |
| Strings.Find | app.py:68-76 | The leftmost search that replace and split perform internally: a found index leaves room for the whole pattern inside the string |
| Strings.FindLeftmostOccurrence | app.py:68-76 | The search inside replace and split returns an occurrence, no earlier index holds one, and it returns None exactly when the pattern does not occur |
| Strings.FindLeftmost | app.py:68-76 | The leftmost occurrence is the only index the search inside replace and split can return |
| Strings.Split | app.py:76 | `str.split` always returns at least one piece |
| Strings.SplitWithoutSeparator | app.py:76 | A string without the separator splits into itself alone |
| Strings.SplitHasTwoPieces | app.py:76 | Split gives a second piece exactly when the separator occurs |
| Strings.ReplaceWithoutPattern | app.py:68-70 | `str.replace` leaves a string without the pattern unchanged |
| Strings.ReplaceLength | app.py:68-70 | Every occurrence found, one per gap between split pieces, trades the pattern's length for the replacement's |
| Strings.SplitJoinBack | app.py:76 | Joined by the separator again, the pieces of a split give back the string |
| Strings.SplitPiecesHoldNoSeparator | app.py:68-76 | No piece of a split holds the separator. For a separator that cannot overlap itself, as both separators app.py passes (the first character of `gs://` and of `publishers/google/models/` occurs only at its position 0), this together with SplitJoinBack makes the pieces the string cut at every occurrence; for a self-overlapping separator such as `aa` several cuttings satisfy both, and the leftmost `Find` inside `Split` picks one |
| Strings.BeforeFirstHasNone | app.py:68-76 | The text before the leftmost occurrence holds no occurrence of the pattern |
| Strings.MissingCharNotContained | app.py:76 | A string lacking one of the pattern's characters does not contain the pattern |
| Strings.ReplaceIsJoinOfSplit | app.py:68-70 | `s.replace(pat, r)` equals `r.join(s.split(pat))` |
| Strings.JoinAppend | app.py:63 | Joining one more entry appends the separator and the entry |
| Strings.JoinLength | app.py:63 | A join of n entries has their characters plus n - 1 separators |
| Strings.SplitJoinOneChar | app.py:63 | Splitting a join on a one-character separator that no entry holds gives the entries back |
| Helpers.ModelNameRemovesEveryOccurrence | app.py:66-71 | The identifier is its split pieces joined by the publisher path, no piece holds the publisher path, and the label is the same pieces with nothing between them, in backticks: since the publisher path cannot overlap itself, every occurrence is removed |
| Helpers.ModelNameLength | app.py:66-71 | The label is two characters longer than the identifier minus one publisher-path length per removed occurrence |
| Helpers.ModelNameWithoutPath | app.py:66-71 | An identifier without the publisher path comes back unchanged, in backticks |
| Helpers.ModelNameOfPro | app.py:66-71 | `publishers/google/models/gemini-1.5-pro` is labelled `` `gemini-1.5-pro` `` |
| Helpers.StorageUrlFailsWithoutMarker | app.py:74-76 | The helper fails with IndexError exactly when the reference holds no `gs://` |
| Helpers.StorageUrlTakesSecondPiece | app.py:74-76 | The URL is the base plus the text after the first `gs://` up to the next `gs://` or the end |
| Helpers.StorageUrlOfPath | app.py:74-76 | `"gs://" + p`, with no further `gs://` in p, maps to the base followed by p |
| Helpers.StorageUrlOfExampleObject | app.py:74-76 | `gs://my-bucket/path/to/object.txt` maps to `https://storage.googleapis.com/my-bucket/path/to/object.txt` |

## Left out

- The Streamlit page (app.py:79-195): headers, tabs, radios, inputs, the prompt f-string and `st.write` are presentation.
- Process set-up (app.py:18-21): reading `GCP_PROJECT` and `GCP_REGION` and `vertexai.init` are environment access and a foreign call.
- `load_models` (app.py:24-27): memoised construction of opaque model handles by the UI library.
- `model.generate_content` (app.py:46-51): the network call; its answer is the `Response` input. Transport errors are not modelled, neither at the call nor where a streamed response raises them while the loop fetches the next chunk (`for r in responses`, app.py:57). The loop catches only `IndexError` (app.py:60), so any other exception from a chunk's `.text` aborts the whole call; an `Option<string>` chunk cannot express such a chunk, so the model does not capture that abort.
- The default arguments of `get_gemini_response` (app.py:33-36): the call site (app.py:183-187) passes its own config (app.py:171-174) and relies only on the default `stream=True`, so the page always takes the streaming branch and the default `GenerationConfig` (app.py:33-35) is never used; `GetGeminiResponse` takes `stream` as an explicit parameter and models both branches.
- The safety settings (app.py:39-44) and the generation config (app.py:33-35): constants forwarded to the provider with no local behaviour; temperatures are floating point.
- Laziness of the stream: the chunks are a finite sequence given up front, so blocking while the next chunk arrives is not modelled.
- Determinism: two identical chunk sequences give identical results because every member is a function of its inputs; no separate lemma states it.
- Strings.Split, Strings.Replace, Strings.Find: an empty separator or pattern is excluded by `requires`; app.py only passes the non-empty constants `"gs://"` and `"publishers/google/models/"`.
- Helpers.GetModelName: the removal does not rescan, so text put together by a removal may again spell the publisher path and stays in the label; this is Python's behaviour and is modelled as such, without a lemma of its own.
