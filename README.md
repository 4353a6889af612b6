# titletrap-benchmark: the near-JSON recovery layer, in Dafny

The benchmark asks language models for strict JSON. What comes back is often
near-JSON: wrapped in markdown fences, with commentary around the array, or
with trailing commas. This project models the layer that turns that text into
records, and the decisions that route and tag those records:

- `GenPairs` models `safe_load_json` in `scripts/gen_pairs.py`. It is the
  lenient batch parser. It trims the text and removes an opening fence (with
  an optional language tag) and a closing fence. It narrows the text to the
  outermost `[...]` and repairs trailing commas until a fixed point. Then it
  parses. When the parse fails it returns the original argument.
  `remove_trailing_commas` is the `while prev != text` loop. It is the method
  `RemoveTrailingCommas`, proved equal to the specification function
  `Repaired`.
- `Review` models `scripts/review.py`:
  - the single-review sanitizer `clean_and_parse_json`, whose fallback is an
    object holding the trimmed raw text under `raw_output`;
  - the round-text assembly and the backend routing of `review_pair`;
  - the loop of `main`, which truncates the corpus to `--num` pairs, then
    reviews each pair, tags each result with the pair's `id` and appends it.
    It is the method `RunReview`, proved equal to the specification function
    `ReviewAll` applied to `Truncate(pairs, num)`.
- `Text` holds the Python string operations that both scripts use:
  `str.strip`, `find`, `rfind`, and the literal `^...` and `...$`
  substitutions of the review sanitizer (scripts/review.py:31-33). The
  `[\w-]*` and `\s*` fence patterns of scripts/gen_pairs.py:26-27 are
  `GenPairs.StripOpenFence` and `GenPairs.StripCloseFence`.
- `JsonValues` models the values `json.loads` returns. An object is an
  association list in insertion order, as a Python `dict` is. It also holds
  the `d[key] = value` assignment.
- `Wrappers` holds `Option` and `Result`.

`json.loads` is the parameter `parse: string -> Option<Json>`. It gives `None`
where the library raises `JSONDecodeError`, the only error of `json.loads`
that either function catches. Its other errors are not modelled (see
"## Left out"). The backend call (OpenAI chat
completion or Anthropic messages) is the parameter
`complete: Request -> Result<string, Error>`. It gives `Failure` where the
client raises. Every property below holds for every function `parse` and
every function `complete`.

Whitespace is one concrete predicate, `Text.IsSpace`. It covers the code
points for which Python's `str.isspace` holds. That set is also what `\s`
matches in a `str` pattern and what `str.strip()` removes.

Both fence patterns anchored with `$` are applied only to trimmed text. Such
text never ends in a newline, so Python's rule that `$` also matches in front
of a final newline never applies. `GenPairs.InputToCloseFenceEndsInNonSpace`
proves this for the batch parser.

The repaired text is not always what deleting the trailing commas by hand
would give. The rule is purely textual, so it also fires inside JSON string
literals: `GenPairs.RuleFiresInsideStrings` shows `["a,]"]` becoming `["a]"]`.

## Model

| member | source | states |
|---|---|---|
| Text.Strip | scripts/gen_pairs.py:23 | `str.strip()`: the result has no whitespace at either end and is no longer than the input |
| Text.StripParts | scripts/gen_pairs.py:23 | what `strip()` removes is a whitespace run in front and one behind; the input is exactly those runs around the result |
| Text.StripAround | scripts/review.py:31 | `strip()` is determined by its contract: whitespace around a core with non-space ends strips to exactly that core |
| Text.StripIdempotent | scripts/review.py:32-34 | trimming again between the sanitizer's steps changes nothing on text that is already trimmed |
| Text.Find | scripts/gen_pairs.py:31 | `find('[')` is the first index of the character, or -1 exactly when it does not occur |
| Text.RFind | scripts/gen_pairs.py:32 | `rfind(']')` is the last index of the character, or -1 exactly when it does not occur |
| Text.RemoveLeading | scripts/review.py:31-32 | a `^`-anchored literal substitution removes the literal once at the very start when it is there, and otherwise changes nothing |
| Text.RemoveTrailing | scripts/review.py:33 | on a text that does not end in whitespace (its precondition, met at every call because the text is trimmed first), a `$`-anchored literal substitution removes the literal once at the very end when it is there, and otherwise changes nothing |
| JsonValues.SetKeyFacts | scripts/review.py:110 | after `d[key] = v`, `key` maps to `v` and every other key maps to what it did before; the key order is kept, and a new key is appended |
| JsonValues.SetKey | scripts/review.py:110 | `d[key] = value` on a dict; SetKeyFacts, SetKeyAppends and SetKeyKeepsDistinct state what it does |
| JsonValues.SetKeyLookup | scripts/review.py:110 | after `d[key] = v`, looking up `key` gives `v` and looking up any other key gives what it gave before |
| JsonValues.SetKeyKeys | scripts/review.py:110 | `d[key] = v` keeps the key order, and appends `key` when the dict did not have it |
| JsonValues.SetKeyKeepsDistinct | scripts/review.py:110 | `d[key] = v` keeps the keys of a dict distinct |
| JsonValues.SetKeyAppends | scripts/review.py:110 | assigning a key the dict does not have appends it as the last member |
| GenPairs.Unfence | scripts/gen_pairs.py:26-27 | the two fence substitutions in the source's order; FencedPayloadUnfenced and FencedPayloadUnwrapped state what they leave of a fenced payload |
| GenPairs.StripOpenFence | scripts/gen_pairs.py:26 | the opening-fence substitution fires exactly when the text starts with a fence; it removes only a prefix, and what is left does not start with whitespace |
| GenPairs.StripCloseFence | scripts/gen_pairs.py:27 | the closing-fence substitution fires exactly when the text ends with a fence; it removes only a suffix made of whitespace and the fence |
| GenPairs.OpenFenceRemovesExactly | scripts/gen_pairs.py:26 | a fence, a maximal `[\w-]*` tag and a maximal whitespace run are removed, and the rest of the text is untouched |
| GenPairs.CloseFenceRemovesExactly | scripts/gen_pairs.py:27 | a final fence and the whitespace in front of it are removed, and the rest of the text is untouched |
| GenPairs.FencedPayloadUnwrapped | scripts/gen_pairs.py:23-27 | after the trim and both fence substitutions, a fenced payload (empty or not) comes out with exactly the fence tokens removed and its interior untouched |
| GenPairs.InputToCloseFenceEndsInNonSpace | scripts/gen_pairs.py:23-27 | the text the `$`-anchored closing pattern is applied to never ends in whitespace |
| GenPairs.NarrowToArray | scripts/gen_pairs.py:30-34 | when some `]` follows some `[`, the result is the slice from the first `[` to the last `]`, with no `[` before it and no `]` after it; otherwise the text is unchanged |
| GenPairs.Pass | scripts/gen_pairs.py:41 | one left-to-right `re.sub` pass, never longer than its input; PassFixedExactlyWhenClean, PassProgress, PassDeletesOnly and LoneTrailingCommaDropped state what it does |
| GenPairs.PassFixedExactlyWhenClean | scripts/gen_pairs.py:41 | one substitution pass changes nothing exactly when no comma is followed by whitespace and then `}` or `]` |
| GenPairs.PassProgress | scripts/gen_pairs.py:39-42 | every pass either changes nothing or makes the text strictly shorter, so the loop terminates |
| GenPairs.Repaired | scripts/gen_pairs.py:37-42 | the text the loop ends with is a fixed point of the pass and no longer than its input |
| GenPairs.RepairedHasNoTrailingComma | scripts/gen_pairs.py:37-42 | the loop's result has no comma followed by zero or more whitespace characters and then `}` or `]` |
| GenPairs.RepairedIdempotent | scripts/gen_pairs.py:38-42 | repairing the repaired text returns it unchanged |
| GenPairs.CleanTextUnchanged | scripts/gen_pairs.py:39-42 | text with no trailing comma survives the first pass unchanged, so the loop stops after one pass with the text as it was |
| GenPairs.OnePassIsNotEnough | scripts/gen_pairs.py:39-42 | one pass turns `,,]` into `,]`; only the loop reaches `]` |
| GenPairs.RuleFiresInsideStrings | scripts/gen_pairs.py:41 | the rule also rewrites a comma inside a string literal: `["a,]"]` becomes `["a]"]` |
| GenPairs.LoneTrailingCommaDropped | scripts/gen_pairs.py:41 | between comma-free texts, a pass removes the one comma in front of a bracket and keeps everything else |
| GenPairs.PassDeletesOnly | scripts/gen_pairs.py:41 | one pass deletes only commas and whitespace, keeping every other character in order |
| GenPairs.RepairedDeletesOnly | scripts/gen_pairs.py:37-42 | the output of the whole loop is the input with only commas and whitespace deleted |
| GenPairs.RepairedKeepsBrackets | scripts/gen_pairs.py:41 | the repair never lengthens the text, and keeps the count of `}`, of `]` and of every other character that is neither a comma nor whitespace |
| GenPairs.RepairKeepsArrayShape | scripts/gen_pairs.py:34-44 | a narrowed text starting with `[` and ending with `]` still does so after the repair |
| GenPairs.RemoveTrailingCommas | scripts/gen_pairs.py:37-42 | `remove_trailing_commas`, starting from `prev = None`: it returns the fixed point `Repaired(text)`, which has no trailing comma and deletes only commas and whitespace |
| GenPairs.Cleaned | scripts/gen_pairs.py:23-44 | the text `safe_load_json` hands to the parser; CleanedShape states its shape and SafeLoadJson parses exactly it |
| GenPairs.CleanedShape | scripts/gen_pairs.py:23-44 | the text handed to the parser has no trailing comma, and when the unfenced text holds a `[` before a `]` it starts with `[` and ends with `]` |
| GenPairs.SafeLoadJson | scripts/gen_pairs.py:21-50 | `safe_load_json` returns the parse of the cleaned text when it succeeds, and otherwise the original argument, neither trimmed nor cleaned; a JSONDecodeError never escapes |
| Review.CleanReview | scripts/review.py:31-34 | the text `clean_and_parse_json` hands to the parser; its behaviour is stated by UnfencedReviewIsTrimmed, FencedReviewUnwrapped, BareFencedReviewUnwrapped and NewlineFencedPayloadCleaned |
| Review.CleanTail | scripts/review.py:32-34 | the bare-fence, closing-fence and final trim steps; BareCleanTail and BodyThenFence state what they leave of a fenced text |
| Review.UnfencedReviewIsTrimmed | scripts/review.py:31-34 | text with no fence at either end after trimming is handed to the parser as exactly `raw.strip()` |
| Review.FencedReviewUnwrapped | scripts/review.py:31-34 | a reply wrapped as "```json" + body + "```" is handed to the parser as the trimmed body, when that body is blank (the parser then gets the empty text) or its trimmed form does not start with a backtick |
| Review.BareFencedReviewUnwrapped | scripts/review.py:31-34 | a reply wrapped as "```" + body + "```" without a `json` tag is handed to the parser as the trimmed body: the json-fence step does not apply and the bare-fence step removes the opening fence; as for the tagged fence, the body is blank or its trimmed form does not start with a backtick |
| Review.BareCleanTail | scripts/review.py:32-34 | the bare-fence step, the closing-fence step and the trims unwrap "```" + body + "```" to the trimmed body, a blank body to the empty text |
| Review.NewlineFencedPayloadCleaned | scripts/review.py:31-34 | the usual reply "```json\n" + payload + "\n```" is handed to the parser as exactly the payload, for a non-empty payload with no whitespace at either end that does not start with a backtick |
| Review.CleanAndParse | scripts/review.py:36-40 | `clean_and_parse_json` returns the parse of the cleaned text, or an object whose single key `raw_output` holds the trimmed raw text (not the cleaned text); a JSONDecodeError never escapes |
| Review.RoundText | scripts/review.py:48-60 | round `title-only` shows titles A, B and C only; any other round name shows the titles and then the shared abstract |
| Review.TitleOnlyIgnoresAbstract | scripts/review.py:48-53 | the `title-only` text does not depend on the abstract |
| Review.AbstractRoundExtendsTitleOnly | scripts/review.py:54-60 | any other round's text is the `title-only` text followed by the abstract line, and items that differ only in their abstract get different texts |
| Review.Prompt | scripts/review.py:68-74 | the prompt sent on either path (the Claude call at line 68, the OpenAI call at line 74) is the round's template, a blank line, then the round text; `ReviewPair`'s contract routes exactly this prompt |
| Review.Route | scripts/review.py:62-77 | an identifier starting with `claude` takes the Claude path with the fixed model `claude-3-7-sonnet-20250219` and `max_tokens=1000`, or fails when no Claude client exists; every other identifier takes the OpenAI path with the identifier passed through and temperature 0.0 |
| Review.ClaudeIdentifiersAreInterchangeable | scripts/review.py:62-69 | all `claude...` identifiers send the same request: the identifier itself is never passed on |
| Review.ReviewPair | scripts/review.py:62-79 | a routing failure or a raising backend propagates; otherwise the trimmed reply goes through the sanitizer |
| Review.ClaudeUnavailableNeverCallsBackend | scripts/review.py:62-64 | without a Claude client a `claude...` identifier fails, whatever the backend would answer; there is no fallback to OpenAI |
| Review.TagWithId | scripts/review.py:110 | `res["id"] = pair["id"]` on an object sets the id, replacing any id the model returned, and keeps every other key and the key order; on anything else it raises TypeError |
| Review.TagKeepsDistinctKeys | scripts/review.py:110 | tagging an object whose keys are distinct, as a dict's are, gives an object whose keys are still distinct |
| Review.NewIdIsAppended | scripts/review.py:110 | an object without an `id` of its own gets the id appended as its last key |
| Review.DegradedTagging | scripts/review.py:110 | a degraded record is tagged as `raw_output` followed by `id` |
| Review.DegradedRecordIsTagged | scripts/review.py:109-110 | when the parser rejects the cleaned reply, the loop body yields `raw_output` holding the trimmed reply, then the pair's id |
| Review.ParsedObjectIsTagged | scripts/review.py:109-110 | a parsed object without an `id` comes out of the loop body with the pair's id appended |
| Review.ReviewAndTag | scripts/review.py:109-110 | one loop iteration: the review, then the tag; DegradedRecordIsTagged, ParsedObjectIsTagged and ResultsCarryTheirPairsId state its results |
| Review.Truncate | scripts/review.py:103-104 | `None` or `0` keeps all pairs; a positive cap keeps the first min(num, N); a negative cap drops that many from the end; the result is always a prefix |
| Review.RunAll | scripts/review.py:106-111 | the loop succeeds exactly when every item succeeds, returning one result per item in input order; otherwise it fails with the error of an item all of whose predecessors succeeded |
| Review.ReviewAll | scripts/review.py:106-111 | the results of the loop over the truncated pairs; RunAll's contract characterises it, and RunReview is proved equal to it |
| Review.FailureAborts | scripts/review.py:107-111 | the first failing item's error is the error of the whole run |
| Review.ResultsCarryTheirPairsId | scripts/review.py:106-111 | in a completed run, the i-th result is an object whose `id` is the i-th pair's id, and apart from `id` it holds exactly the keys and values its review returned, degraded records included |
| Review.CappedRunLength | scripts/review.py:103-111 | a completed run under a positive cap `num` returns min(num, N) results |
| Review.ExampleFencedReply | scripts/review.py:103-111 | a backend answering "```json\n{\"winner\":\"A\"}\n```" for the pair with id 1 yields `[{"winner":"A","id":1}]` |
| Review.ExampleDegradedReply | scripts/review.py:103-111 | a backend answering `not json at all` for the pair with id 1 yields `[{"raw_output":"not json at all","id":1}]` |
| Review.RunReview | scripts/review.py:103-111 | the loop of `main`: truncate, then review, tag and append each pair in order, stopping at the first failure; it returns exactly `ReviewAll` of the truncated pairs |

## Left out

- The OpenAI and Anthropic clients, and dotenv credential loading (scripts/review.py:9-16 and 65-77; scripts/gen_pairs.py:9-10). These are network calls into foreign libraries. The backend is the parameter `complete`. Whether a Claude client exists is the field `claudeAvailable` of the run configuration.
- `generate_pairs` and its batch call at temperature 0.7 (scripts/gen_pairs.py:52-69). It is a network call. Only its parser is modelled.
- The batch script's `main` (scripts/gen_pairs.py:71-98). It writes either the parsed pairs or the raw-text fallback to a file, which is I/O only.
- File I/O: loading the prompt files and checking that they exist, reading the corpus, `os.makedirs`, building the output paths, and writing results with `json.dump`. The round's template is the field `template` of the run configuration, and the corpus is a sequence of `Pair` values.
- argparse handling and every `print` diagnostic. These are I/O only. The `choices` restriction on `--round` is not modelled: `RoundText` accepts any round name, as `review_pair` itself does.
- Duplicate keys. A `JObject` may list a key twice, which no Python dict does. The parser's results are not constrained to distinct keys. `Review.TagKeepsDistinctKeys` shows that tagging keeps distinct keys distinct.
- GenPairs.SafeLoadJson: the parser `parse` is total, so the model cannot raise. In the source only `json.JSONDecodeError` is caught (scripts/gen_pairs.py:48); the `RecursionError` that `json.loads` raises on deeply nested text (such as a hundred thousand `[`) escapes `safe_load_json`, and that error path is not represented.
- Review.CleanAndParse: the parser `parse` is total, so the model cannot raise. In the source only `json.JSONDecodeError` is caught (scripts/review.py:38); the `RecursionError` that `json.loads` raises on deeply nested text escapes `clean_and_parse_json`, and that error path is not represented.
- The internals of `json.loads`. The parser is a parameter, and `Json` numbers are integers only. Floats are not modelled.
- The corpus schema. A pair record missing `id`, `title_a`, `title_b` or `title_c` raises KeyError in the source; a missing `abstract` raises it only in rounds other than `title-only` (scripts/review.py:54-60), since the `title-only` text never reads it (scripts/review.py:48-53). Here a `Pair` always has all five fields, and the titles and the abstract are assumed to be strings: the source interpolates any JSON value through an f-string, so a numeric title would appear as its decimal text, which the model does not represent.
- Backends whose answers vary between calls. `complete` is a function of the request, so two calls with the same request always get the same reply, and a transient failure on one of two identical calls is not represented.
- scripts/demo.py. It is API calls in a loop with no recovery logic.
- GenPairs.IsTagChar: treats only ASCII letters, digits and `_` as `\w`, because Python's Unicode word characters have no simple closed form. An opening fence whose tag holds a non-ASCII letter is therefore modelled as a shorter tag.
- Review.RunAll: it is a mathematical function, so it cannot say that the backend is not called for the pairs after the first failure. That promise is carried by the method `Review.RunReview`, which returns at the first failure.
- Review.RunReview: the results gathered before an abort are discarded, as in the source, where nothing is written when the loop raises. The traceback and exit status of the aborted process are not modelled.
