# Benefits assistant AI service — reply post-processing model

This project models the part of `src/services/aiService.js` that can be reasoned
about without the network: what the two operations do with the reply of the
remote text-generation model, and how each of them handles failures.

- `classifyHealthNeed` trims the reply, lower-cases it and returns the first of
  `Dental`, `Mental Health`, `Vision`, `OPD` whose lower-cased name occurs in it,
  or `OPD` when none does. A missing API key, a non-OK HTTP status, a failed
  request and a body without candidate text all reach the caller as errors.
- `generateActionPlan` trims the reply, splits it on line feeds, keeps the lines
  whose trimmed form starts with `<digits>.`, strips `^\d+\.\s*` from each kept
  line as it is (untrimmed) and trims the result, drops empty results and takes
  at most three. Exactly three are returned as the plan; otherwise, and whenever
  the request fails, the response is not OK or its body has no text, a fixed
  three-step plan is returned.
  Because the marker is stripped from the untrimmed line, an indented line such
  as `"  2. foo"` is kept but yields `"2. foo"`; the model reproduces this.

Files:

- `js_string.dfy` (module `JsString`): the string built-ins the code relies on —
  `trim`, `toLowerCase`, `includes`, `split` — each with a contract that
  characterises it (trim leaves a slice that neither starts nor ends with
  whitespace and removes only whitespace; `includes` holds exactly when there is
  an occurrence; `split` and `join` are inverse).
- `js_array.dfy` (module `JsArray`): `find`, `filter`, `map`, `slice(0, n)`, and
  a one-pass filter-and-map with the positions of the elements it keeps, used as
  the reference definition of the parsed steps.
- `ai_service.dfy` (module `AiService`): categories and the category matcher,
  the step parser and the plan, the outcome of the remote request as a value
  (`Response`), the two operations as functions of the API key and that value,
  and worked examples.

The request is modelled by its outcome: no response at all (`fetch` rejected),
or an HTTP response with a status, a status text and a body that either carries
the first candidate's text or does not (`Malformed`). `response.ok` is a status
from 200 to 299. The API key, a module-level constant in the source, is a
parameter. That the key is checked before any request is made is stated as:
with an empty key, both operations fail with `MissingApiKey` whatever the
response would have been.

Text handling is ASCII only: whitespace for `trim` and `\s` is space, tab, line
feed, vertical tab, form feed and carriage return; `toLowerCase` maps `A`..`Z`
to `a`..`z` and leaves every other character alone; `\d` is `0`..`9`, as in
JavaScript.

Two details of the code are worth noting:

- A non-OK response raises an error whose message holds the status and the
  status text (`src/services/aiService.js:39-41`); the response body is read
  only to be logged. `ApiError` therefore carries
  the status and the status text, not the body.
- The plan parser tests the trimmed line for a marker but strips the marker
  from the untrimmed line (`src/services/aiService.js:111-112`), so an indented numbered line keeps its marker (see
  `IndentedMarkerKept`).

## Model

| member | source | states |
|---|---|---|
| `JsString.Trim` | src/services/aiService.js:45 | the input is the result padded with whitespace on both sides, and the result neither starts nor ends with whitespace |
| `JsString.Lower` | src/services/aiService.js:50 | same length, each of `A`..`Z` becomes the matching `a`..`z`, every other character is unchanged, and no upper-case letter is left |
| `JsString.LowerIdempotent` | src/services/aiService.js:50 | lower-casing an already lower-cased string changes nothing |
| `JsString.Includes` | src/services/aiService.js:50 | true exactly when the needle occurs at some position of the haystack |
| `JsString.Split` | src/services/aiService.js:110 | at least one piece, no piece contains the separator, and joining the pieces with the separator gives back the input |
| `JsString.SplitJoin` | src/services/aiService.js:110 | splitting separator-free pieces joined by the separator gives back those pieces |
| `JsArray.Find` | src/services/aiService.js:49-51 | nothing exactly when no element satisfies the predicate; otherwise an element that satisfies it with no satisfying element before it |
| `JsArray.Filter` | src/services/aiService.js:111 | no longer than the input, and every element kept satisfies the predicate (which elements and in what order: `FilterKept`) |
| `JsArray.FilterIsFilterMap` | src/services/aiService.js:111 | filtering is the one-pass filter-and-map with the identity |
| `JsArray.FilterKept` | src/services/aiService.js:111 | element `k` of the filter is the input element at the `k`-th kept position, and there are as many as kept positions; with `KeptExact`, exactly the satisfying elements are kept, in their original order |
| `JsArray.Map` | src/services/aiService.js:112 | same length, element `k` is the function applied to input element `k` |
| `JsArray.Take` | src/services/aiService.js:114 | at most `n` elements, all of the input when it is shorter, and a prefix of the input |
| `JsArray.FilterMapFilter` | src/services/aiService.js:111-113 | the filter / map / filter chain equals one pass keeping the elements that pass the first filter and whose image passes the second |
| `JsArray.FilterMapAppend` | src/services/aiService.js:109-113 | the one-pass filter-and-map of two consecutive blocks is that of the first followed by that of the second |
| `JsArray.FilterMapAtKept` | src/services/aiService.js:109-113 | element `k` of the filter-and-map is the image of the input element at the `k`-th kept position |
| `JsArray.KeptExact` | src/services/aiService.js:111-113 | the kept positions strictly increase, and a position is kept exactly when its element satisfies the predicate |
| `AiService.Name` | src/services/aiService.js:48 | the string returned for each category: `Dental`, `Mental Health`, `Vision`, `OPD` |
| `AiService.Rank` | src/services/aiService.js:48 | the position of each category in the fixed search order `Categories` (the list literal): Dental, Mental Health, Vision, OPD |
| `AiService.Mentions` | src/services/aiService.js:50 | the lower-cased reply contains the lower-cased category name |
| `AiService.MentionsOccurs` | src/services/aiService.js:50 | a category is mentioned exactly when its lower-cased name occurs at some position of the lower-cased reply |
| `AiService.MentionsIgnoresCase` | src/services/aiService.js:50 | lower-casing the reply first does not change which categories it mentions, so the search ignores case |
| `AiService.FirstInOrder` | src/services/aiService.js:49-58 | for any test, the result passes it unless no category does, in which case it is OPD; no category before it in search order passes |
| `AiService.MatchCategory` | src/services/aiService.js:48-58 | the result is mentioned by the reply unless no category is, in which case it is OPD; no category searched before the result is mentioned |
| `AiService.MatchCategoryIff` | src/services/aiService.js:48-58 | a category is the result exactly when it is the first one in search order that is mentioned, or none is mentioned and it is OPD |
| `AiService.DentalWins` | src/services/aiService.js:48-54 | a reply that mentions "dental" in any case is classified Dental whatever else it mentions |
| `AiService.NoMentionIsOPD` | src/services/aiService.js:57-58 | a reply that mentions none of the four names is classified OPD |
| `AiService.ClassifiedNameIsKnown` | src/services/aiService.js:48-58 | a successful classification is one of the four names Dental, Mental Health, Vision, OPD |
| `AiService.LeadingDigits` | src/services/aiService.js:111 | the leading run of decimal digits: all of them digits and the character after them not a digit |
| `AiService.HasMarker` | src/services/aiService.js:111 | the test `/^\d+\./`: the leading digits are followed by a period |
| `AiService.HasMarkerRegex` | src/services/aiService.js:111 | a string passes the test exactly when it starts with one or more digits followed by a period |
| `AiService.IsNumberedLine` | src/services/aiService.js:111 | a line is kept exactly when its trimmed form passes the marker test |
| `AiService.StripMarker` | src/services/aiService.js:112 | a line starting with `<digits>.` loses that marker and the whitespace after it and keeps the rest as a suffix not starting with whitespace; any other line is unchanged |
| `AiService.CleanStep` | src/services/aiService.js:112 | a line without a marker is only trimmed; one with a marker becomes the trim of what follows the marker and the whitespace after it; the step neither starts nor ends with whitespace |
| `AiService.IsNonEmpty` | src/services/aiService.js:113 | the `step.length > 0` filter: a step is kept when it has at least one character |
| `AiService.ParseSteps` | src/services/aiService.js:109-114 | at most three steps, each non-empty, and exactly the first three (or all, if fewer) cleaned surviving lines of the reply's lines |
| `AiService.PipelineIsSteps` | src/services/aiService.js:109-113 | the source's filter / map / filter chain over the lines equals the one-pass reference definition of the steps |
| `AiService.StepsInSourceOrder` | src/services/aiService.js:109-114 | the steps are the cleaned surviving lines in source order: step `k` comes from the `k`-th surviving line, positions increase, and every surviving line contributes |
| `AiService.LaterLinesIgnored` | src/services/aiService.js:114 | once a block of lines yields three steps, the lines after it do not change the first three |
| `AiService.FallbackIsPlan` | src/services/aiService.js:121-125 | the fixed fallback plan (also returned at :129-133) is an action plan of three non-empty steps |
| `AiService.PlanFromReply` | src/services/aiService.js:116-125 | the plan made from a reply always has exactly three non-empty steps |
| `AiService.PlanFromReplySteps` | src/services/aiService.js:109-125 | with at least three surviving lines the plan is the first three cleaned ones in order; with fewer it is exactly the fallback plan |
| `AiService.IsOk` | src/services/aiService.js:38 | `response.ok`: the status is from 200 to 299 |
| `AiService.ReplyText` | src/services/aiService.js:38-45 | a reply text exactly for an OK status with candidate text, which it trims; a non-OK status gives `ApiError` with that status and status text, a failed request `RequestFailed`, a body without text `MalformedResponse` |
| `AiService.ClassifyHealthNeed` | src/services/aiService.js:5-62 | no key gives `MissingApiKey`; success exactly when there is a key and a reply; every request failure is returned unchanged with no default category; a reply is classified by `MatchCategory` |
| `AiService.GenerateActionPlan` | src/services/aiService.js:65-134 | no key gives `MissingApiKey`; with a key it always succeeds with three non-empty steps, the fallback plan whenever the request fails, else the plan made from the reply |
| `AiService.MissingKeyIgnoresResponse` | src/services/aiService.js:6-8 | with an empty key both operations fail with `MissingApiKey` whatever the response would have been, so the key is checked before any request |
| `AiService.FailureAsymmetry` | src/services/aiService.js:126-133 | after the key check a failed request is an error (not the missing-key one) from classification but the fallback plan from plan generation |
| `AiService.MarkedLineClean` | src/services/aiService.js:111-112 | a line `<digit>. <step>` is numbered and cleans to `<step>` |
| `AiService.IndentedMarkerKept` | src/services/aiService.js:111-112 | `"  2. foo"` passes the numbered-line test but cleans to `"2. foo"`, marker kept |
| `AiService.ThreeNumberedLines` | src/services/aiService.js:109-118 | the reply "1. Book exam / 2. Bring ID card / 3. Pay copay / Extra note" gives the plan Book exam, Bring ID card, Pay copay |
| `AiService.TwoNumberedLines` | src/services/aiService.js:116-125 | the reply "1. Book exam / 2. Bring ID card" gives the fallback plan, not a two-step plan |

## Left out

- The request itself: the URL and model name, the headers, the JSON request body and the generation settings (temperature 0.1, output caps of 20 and 100 tokens). Its outcome is the `Response` parameter.
- The prompts and therefore the operations' inputs `userInput`, `benefitTitle` and `category`: they are only interpolated into the prompt text sent to the remote model and do not affect the post-processing.
- JSON decoding of `data.candidates[0].content.parts[0].text`: a body either has that text (`Candidate`) or not (`Malformed`).
- Reading the error body with `response.text()` and every `console.error` call: the body is only logged. The model assumes that reading it succeeds. In `classifyHealthNeed` a rejection of `response.text()` (`src/services/aiService.js:39`) would reach the caller instead of the `API error`; in `generateActionPlan` it happens inside the `try` (`src/services/aiService.js:100`) and is caught, so the fallback plan is returned either way, as the model does.
- The inputs are assumed to be strings. The prompt of `generateActionPlan` is built (`src/services/aiService.js:70`) after the key check but outside its `try`, so an input whose string conversion throws (a Symbol, say) would reach the caller instead of yielding the fallback plan; the model does not capture that.
- Reading the API key from the build environment: the key is a parameter.
- The error messages' wording: errors are the constructors of `Error`, not message strings.
- `async`/`await`: each call is one sequential flow with nothing to interleave.
- Unicode: non-ASCII whitespace (no-break space, line and paragraph separators, byte-order mark and the other Unicode spaces) is not trimmed or matched by `\s`, and non-ASCII letters are not lower-cased.
