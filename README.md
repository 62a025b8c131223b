# Recommendation post-processing, modelled in Dafny

The recommendation service asks a language model for two lists.

- **`google_ads`** holds pipe-delimited lines of the form
  `asset_id|campaign|ACTION=...|WHY=...|SUGGEST=...`.
- **`google_play`** holds free-text suggestions.

The model's answer is never trusted as it comes back. `_coerce_recommendation_response`
in `app/openai_client.py` processes it in these steps:

1. Reads the valid asset ids out of the payload that was sent (`_valid_asset_ids_from_payload`).
2. Turns every answer item into a string.
3. Sanitizes every Ads line (`_sanitize_line`):
   - strips it;
   - collapses whitespace runs into single spaces;
   - removes the spaces around `|`.
4. Drops the lines that fail the structural and id checks (`_is_valid_line`).
5. Keeps one line per asset id, the one with the most decisive action. Actions rank
   `scale` < `pause` < `create_variation` < `replace` < anything else, and the earliest
   line wins a tie.
6. Sorts the kept lines stably by that rank and keeps at most fifteen (`_dedupe_and_limit`).
   Ids and actions come from `_extract_id_and_action`.
7. Strips the Play suggestions, drops the blank ones and keeps at most three.

This project models those functions, the `ALLOWED_ACTIONS` set and the payload builder
`build_compact_json` of `app/main.py`, and proves what the code relies on.

Where the Python code uses a loop, the model has a `method` with loop invariants. Each
method is proved equal to a specification function, and the properties are proved as
lemmas about those functions. This covers the id loop of `_valid_asset_ids_from_payload`
and the two loops of `_dedupe_and_limit`. Comprehensions, regular expressions and
library string operations are modelled as functions.

Modules, one concept each:

- `Wrappers`: `Option`.
- `Text`: Python's `split`, `join`, `replace`, `strip`, `in`, `count` and `isspace`.
- `IntParse`: `int()` on strings, and `str()` on integers. `int()` skips a slightly
  smaller set of whitespace than `strip()` removes: the ASCII separators U+001C to U+001F
  pass `str.isspace()` but make `int()` raise.
- `Sanitize`: `_sanitize_line`.
- `LineFormat`: `ALLOWED_ACTIONS`, the `ACTION=([a-zA-Z_]+)` search and `_extract_id_and_action`.
- `Validate`: `_is_valid_line`. It includes the two pipe-hazard regular expressions, each
  written once as a left-to-right scanner and once as a declarative predicate, with a
  proof that the two agree.
- `RankSort`: Python's stable `list.sort(key=...)`.
- `Collect`: the filtering comprehensions.
- `Payload`: the JSON values, `_valid_asset_ids_from_payload` and `build_compact_json`.
- `Dedupe`: `_dedupe_and_limit`. It is parametrised by the id/action extractor.
- `Response`: `_coerce_recommendation_response`.

An exception the Python code would let escape is modelled as `None`. For example,
iterating over a truthy integer raises.

Three behaviours of the code worth noting, all modelled as written:

- The valid-id set is built only from the `asset_id` fields under
  `google_ads_assets_time_series`. Campaign ids are not added.
- The pipe guard is two regular expressions, not a general rule about pipes in free text.
  - `WHY=[^|]*\|[^A-Z]` rejects a pipe after `WHY=` only when the next character is not
    an upper-case ASCII letter.
  - `SUGGEST=[^|]*\|` rejects any pipe after `SUGGEST=`.
- The comments at app/openai_client.py:226 and :230 speak of pipes in WHY and SUGGEST
  being forbidden or removed, but `_sanitize_line` removes only the spaces around a pipe
  and keeps every pipe: `Sanitize.SanitizeLineSpec` proves the number of `|` unchanged.
  Afterwards `_is_valid_line` rejects a line with a pipe anywhere after `SUGGEST=`, or one
  whose first pipe after a `WHY=` is followed by a character other than A-Z. A pipe in WHY
  followed by an upper-case letter is kept, and the line is accepted.

## Model

| member | source | states |
|---|---|---|
| Text.SplitLength | app/openai_client.py:238-239 | `split("\|")` yields one more field than the line has pipes, which is what the "at least five fields" test counts |
| Text.SplitJoin | app/openai_client.py:238 | splitting loses nothing: joining the fields back with the separator gives the line |
| Text.SplitFieldsFree | app/openai_client.py:238 | no field of `split("\|")` contains a pipe |
| Text.StripShape | app/openai_client.py:227 | `strip()` returns a contiguous piece of its input that neither starts nor ends with whitespace, and everything cut away on either side is whitespace |
| Text.StripNonSpace | app/openai_client.py:227 | `strip()` keeps every visible character |
| Text.StripIdempotent | app/openai_client.py:316 | stripping a stripped string changes nothing |
| Text.ContainsIff | app/openai_client.py:236 | Python's `pat in s` holds exactly when `pat` occurs at some index of `s` |
| IntParse.ParseFormat | app/openai_client.py:243 | `int()` reads back every integer that `str()` writes: `int(str(n)) == n` |
| IntParse.ParseInt | app/openai_client.py:217 | definition of `int()` on a string: the whitespace `int()` skips (`str.isspace()` without U+001C to U+001F) is cut from both ends, then an optional sign and a run of ASCII digits are read; anything else is `None`. Its properties are the lemmas below |
| IntParse.ParsedIgnoresStrip | app/openai_client.py:217 | whenever `int(s)` succeeds, `int(s.strip())` gives the same integer |
| IntParse.ParseIgnoresSurroundingSpace | app/openai_client.py:217 | on text without U+001C to U+001F, `int(s.strip())` and `int(s)` agree, failures included |
| IntParse.SeparatorNotSkipped | app/openai_client.py:217 | the separator hypothesis is needed: `int("\x1c5")` raises while `int("\x1c5".strip())` is 5 |
| Sanitize.SanitizeLine | app/openai_client.py:225-232 | definition of `_sanitize_line`: strip, `" ".join(....split())`, then the three `replace` calls in their order. Its properties are stated by `Sanitize.CollapseSpec` and `Sanitize.SanitizeLineSpec` |
| Sanitize.CollapseSpec | app/openai_client.py:227 | `" ".join(line.strip().split())` splits into exactly the words of the line, in order (`Words(Collapse(line)) == Words(line)`), has no leading, trailing or doubled space, and contains no whitespace besides single spaces; so every whitespace run between two words became one space |
| Sanitize.SanitizeLineSpec | app/openai_client.py:225-232 | a sanitized line is single-spaced, has no space next to a pipe, keeps every visible character, and has exactly as many pipes as the input; and it equals the collapsed line with every space next to a `\|` dropped and nothing else changed (`DropPipeSpaces`) |
| Sanitize.ReplaceDrop | app/openai_client.py:231 | in a string without double spaces, each of the three `replace` calls removes exactly spaces that neighbour a `\|`, so the character filter `DropFrom` gives the same result before and after it |
| Sanitize.SanitizeDrop | app/openai_client.py:225-232 | the three replacements applied to the collapsed line equal the filter `DropPipeSpaces` applied to it |
| LineFormat.ActionGroup | app/openai_client.py:220-221 | definition of `m.group(1)` for `re.search(r"ACTION=([a-zA-Z_]+)", line)`, built on the scan `LineFormat.ActionPos`, whose contract says the match is the leftmost one |
| LineFormat.ActionPos | app/openai_client.py:220 | the scan returns a position where `ACTION=` is followed by a letter or underscore, no such position lies before it, and it returns nothing exactly when there is none |
| LineFormat.ActionGroupSpec | app/openai_client.py:220-221 | the action search finds the leftmost `ACTION=` followed by a `[a-zA-Z_]` run and returns the whole maximal run. It finds nothing exactly when no such occurrence exists |
| LineFormat.ExtractIdAndAction | app/openai_client.py:214-222 | definition of `_extract_id_and_action`: `int(parts[0].strip())` and the lowered action group, each `None` where the source gets `None`. `ALLOWED_ACTIONS` (line 58) is the constant `LineFormat.AllowedActions` |
| LineFormat.ExtractedIdIsLineId | app/openai_client.py:214-222 | the id `_extract_id_and_action` reads (field 0 stripped) is the id `_is_valid_line` reads (field 0 as is) whenever the latter is defined, and always when field 0 holds no U+001C to U+001F |
| LineFormat.SeparatorIdDiffers | app/openai_client.py:214-222 | the hypothesis is needed: on `"\x1c5\|"` `_extract_id_and_action` reads 5, `int(parts[0])` raises |
| LineFormat.ExtractFormatLine | app/openai_client.py:214-222 | on a line in the documented template `id\|campaign\|ACTION=a\|WHY=..\|SUGGEST=..` with `a` allowed and no `ACTION=` in the campaign, `_extract_id_and_action` returns exactly `(id, a)` |
| Validate.IsValidLine | app/openai_client.py:235-261 | definition of `_is_valid_line`, test by test in the source's order; `Validate.IsValidLineIff` states what it accepts |
| Validate.WhyHazardFromIff | app/openai_client.py:257 | the `WHY=` scanner fires exactly when some `WHY=` is followed by a pipe-free run, a pipe and a character that is not an upper-case letter |
| Validate.SuggestHazardFromIff | app/openai_client.py:259 | the `SUGGEST=` scanner fires exactly when some `SUGGEST=` is later followed by a pipe |
| Validate.IsValidLineIff | app/openai_client.py:235-261 | a line is accepted exactly when it is non-empty, has a pipe and at least five fields, its field 0 parses as an integer that is in the id set when that set is non-empty, its first action is allowed, it contains `WHY=` and `SUGGEST=`, and neither hazard occurs |
| Validate.EmptyIdSetSkipsMembership | app/openai_client.py:246 | the id set is consulted only when it is non-empty. Acceptance against a non-empty set is acceptance against the empty set plus membership of the line's id |
| Validate.AcceptedFields | app/openai_client.py:238-251 | an accepted line has at least five fields, an integer id and an allowed action |
| Validate.AcceptedSuggestPipeFree | app/openai_client.py:259 | in an accepted line, no pipe follows any `SUGGEST=` |
| Validate.AcceptedWhyPipeThenUpper | app/openai_client.py:257 | in an accepted line, the first pipe after any `WHY=` is followed by an upper-case letter |
| RankSort.SortByKey | app/openai_client.py:289 | definition of `list.sort(key=...)` as a stable insertion sort; the four lemmas below state what Python's sort promises |
| RankSort.SortPerm | app/openai_client.py:289 | sorting is a permutation of its input |
| RankSort.SortSorted | app/openai_client.py:289 | the sorted list is in non-decreasing key order |
| RankSort.SortStable | app/openai_client.py:289 | the sort is stable: the elements of each key keep their input order |
| RankSort.SortOfSorted | app/openai_client.py:289 | a list already in key order is left as it is |
| RankSort.SortDistinct | app/openai_client.py:289 | sorting keeps a list free of two elements with the same id |
| Collect.FilterMap | app/openai_client.py:310-316 | definition of a list built by appending the accepted results of a partial map, item by item |
| Collect.Accepted | app/openai_client.py:316 | the positions of the accepted items, strictly increasing, every accepted position listed |
| Collect.FilterMapIndexed | app/openai_client.py:316 | a filtering comprehension keeps the input order: its k-th output is the image of the k-th accepted item |
| Collect.FilterMapSpec | app/openai_client.py:271-275 | a filtering comprehension keeps the image of every accepted item and makes up no other |
| Collect.FilterMapConcat | app/openai_client.py:271-275 | filtering a concatenation is concatenating the filtered parts |
| Payload.Iterate | app/openai_client.py:206 | `v or []` iterated: a falsy value gives no items, and it fails exactly on a truthy integer or boolean, which Python cannot iterate |
| Payload.IntOf | app/openai_client.py:209 | definition of `int(x)` on a JSON value: an integer as it is, a boolean as 0 or 1, a string through `IntParse.ParseInt`, anything else `None` |
| Payload.AssetIds | app/openai_client.py:204-211 | definition of the id set as a function of the payload; `Payload.IdSetSpec` states which ids it holds |
| Payload.BuildCompactJson | app/main.py:69-75 | definition of `build_compact_json` on already-converted records: the two record lists under `google_ads` and `google_play` |
| Payload.ValidAssetIdsFromPayload | app/openai_client.py:204-211 | the id loop computes the set of the integer readings of the `asset_id` fields, or fails where iterating the value would raise |
| Payload.IdSetSpec | app/openai_client.py:206-210 | an integer is among the valid ids exactly when some listed item is an object whose `asset_id` reads as that integer. Items whose `int(item.get("asset_id"))` would raise are skipped |
| Payload.NoAssetsNoIds | app/openai_client.py:206 | a payload without the asset series key gives the empty id set |
| Payload.CompactPayloadHasNoIds | app/main.py:69-75 | the payload `build_compact_json` builds has no asset series, so its id set is empty |
| Dedupe.Rank | app/openai_client.py:278-280 | definition of `action_rank.get(act, 9)` |
| Dedupe.Parse | app/openai_client.py:270-275 | a line gives a candidate exactly when it yields both an id and an action, and the candidate carries that id, that action's rank and the line |
| Dedupe.Step | app/openai_client.py:279-284 | definition of one pass of the dictionary loop: a new id is appended, a strictly lower rank replaces the entry in place, anything else changes nothing |
| Dedupe.Dedupe | app/openai_client.py:264-294 | definition of `_dedupe_and_limit` as a function: winners per id, stable sort by rank, cut to fifteen; the lemmas below state its properties |
| Dedupe.ParseLines | app/openai_client.py:270-275 | the parsing loop keeps, in order, a candidate for each line that yields both an id and an action |
| Dedupe.BestById | app/openai_client.py:278-284 | the dictionary loop computes the fold `TallyOf`: the ids in first-seen order, each with its best rank and line |
| Dedupe.TallyKeys | app/openai_client.py:279-286 | the dictionary's key order lists every id seen exactly once, and the keys are exactly the ids seen |
| Dedupe.TallyBest | app/openai_client.py:280-284 | the line kept for an id has the lowest rank among its candidates and is the earliest with that rank |
| Dedupe.TallyOrder | app/openai_client.py:279-286 | ids appear in the dictionary in the order of their first occurrence |
| Dedupe.CandidatesSpec | app/openai_client.py:270-275 | the candidates are exactly the lines that yield both an id and an action, with that id and action |
| Dedupe.WinnersCount | app/openai_client.py:286 | there is one winner per distinct id |
| Dedupe.WinnersDistinct | app/openai_client.py:286 | no two winners carry the same id |
| Dedupe.WinnersCover | app/openai_client.py:286 | every id seen has a winner |
| Dedupe.WinnersInOrder | app/openai_client.py:286 | winners are listed in the order their ids first occur |
| Dedupe.DedupeAndLimit | app/openai_client.py:264-294 | the procedure returns exactly `Dedupe(ex, lines)`, the specification the lemmas below are about |
| Dedupe.DedupeLength | app/openai_client.py:286-294 | the result has one line per id seen, up to fifteen |
| Dedupe.DedupeSortedDistinct | app/openai_client.py:289 | the result is sorted by action rank and no id occurs in it twice |
| Dedupe.DedupeKept | app/openai_client.py:270-284 | every result line is an input line that parses and is the lowest-ranked, earliest line for its id |
| Dedupe.DedupeKeepsLowest | app/openai_client.py:289-294 | an id seen in the input is missing from the result only when more than fifteen ids were seen. Then the result has fifteen lines, none ranked worse than the missing one |
| Dedupe.DedupeStable | app/openai_client.py:289-294 | within one rank, the result keeps the winners' order and is a prefix of them |
| Dedupe.DedupeIdempotent | app/openai_client.py:264-294 | deduplicating a result again changes nothing |
| Response.StrOf | app/openai_client.py:304-305 | definition of `str(x)` on the scalar JSON values; see "Left out" for lists and objects |
| Response.PlayFinal | app/openai_client.py:316-318 | definition of the Play list: stripped non-blank inputs, cut to three |
| Response.Coerce | app/openai_client.py:297-320 | definition of `_coerce_recommendation_response` as a function; `None` where the id loop or the string conversion raises |
| Response.SanitizedIdIsLineId | app/openai_client.py:307-313 | on a sanitized line, the id `_extract_id_and_action` reads is the one `_is_valid_line` checked |
| Response.CoerceRecommendationResponse | app/openai_client.py:297-320 | the procedure returns the specification `Coerce`: ids, sanitize, validate, deduplicate, and the Play list |
| Response.ValidOnlySpec | app/openai_client.py:310 | the validated list holds exactly the accepted lines of the sanitized list |
| Response.AdsAreSanitizedAndValid | app/openai_client.py:303-313 | every Ads line of the response is the sanitized form of an input item and passes validation against the payload's ids |
| Response.AdsRankedAndDistinct | app/openai_client.py:313 | the Ads list has at most fifteen lines, is sorted by action rank, and carries no asset id twice |
| Response.ForeignIdsRejected | app/openai_client.py:246-247 | when the payload lists asset ids, every Ads line's id is one of them |
| Response.PlayFinalSpec | app/openai_client.py:316-318 | the Play list has at most three entries, each a non-blank stripped input. When at most three inputs are non-blank, every one of them is kept |
| Response.PlayFinalOrder | app/openai_client.py:316-318 | the Play list keeps the input order: with the positions of the non-blank suggestions in increasing order, it is the first three of them (all when fewer), each stripped |
| Response.PlayFinalConcat | app/openai_client.py:316-318 | once three non-blank suggestions have been seen, later ones change nothing |
| Response.CompactPayloadSkipsIdCheck | app/main.py:69-75 | with the payload the pipeline builds, the response is the one obtained with no payload, so no line is rejected for its id |

## Left out

- The transport is not modelled: the OpenAI client, retries, logging, printing and the
  public entry point (`app/openai_client.py:158-181`, `:323-360`). They are I/O.
- Decoding the function-call arguments (`_parse_function_arguments`,
  `app/openai_client.py:184-201`) is not modelled. It is JSON parsing done by a library;
  its result is the `data` map the model takes as input.
- `_json_safe` (`app/openai_client.py:122-155`) and the prompt and schema constants
  (`app/openai_client.py:63-113`) are not modelled: the first converts floats and pandas
  values, the second is only text sent to the service.
- In `app/main.py`, the exporters, `DataFrame.to_dict` and the file write are not modelled.
  They are pandas, Google APIs and disk I/O. `build_compact_json` takes the records as
  already-converted maps.
- JSON floats are not part of the `Json` value type, so `int()` of a float id and `str()`
  of a float item are not modelled.
- IntParse.ParseInt: covers the whitespace `int()` skips, an optional sign and ASCII
  digits. `int()` also accepts `_` separators and non-ASCII digits, which are not modelled.
  Python's limit on integer string conversion (by default `int()` and `str()` raise
  beyond 4300 digits) is not modelled either: integers are unbounded here.
- Response.StrOf: renders lists and objects as the empty string instead of Python's
  `repr`. The function-call schema only allows strings as items.
- Payload.Iterate: iterating an object yields no items instead of its keys. An object key
  is not an asset record, and `str.get` does not exist, so every key would be skipped
  anyway. For the Ads and Play lists, a key would otherwise become a line.
- RankSort.SortByKey: Python's Timsort is modelled as a stable insertion sort. Both are
  stable sorts by the same key, so they return the same list (see `RankSort.SortStable`).
- Dedupe.Dedupe: is stated for any extractor. The response instantiates it with
  `LineFormat.ExtractIdAndAction`, so every property proved for all extractors holds for
  the program's own.
- Validating the response with pydantic (`RecommendationResponse`) is not modelled. The
  model's record has the two string lists it checks.
- The docstring's "5–15" lower bound is not enforced by the code and is not modelled:
  fewer than five lines are returned as they are.
