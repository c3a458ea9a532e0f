# MP3 size-targeting converter — Dafny model

This project models the decision logic of `convert.py`, a tool that turns an
audio file into an MP3 no larger than a budget in kilobytes by driving an
external encoder (ffmpeg with libmp3lame) that it cannot look inside. After
each encode it only learns whether the encoder ran and how large the output
file is.

The search (`convert_to_mp3`):

- encodes once at VBR quality 4 and stops if the file fits;
- otherwise refines up to 9 times, raising the quality ordinal by 2 when the
  file is more than twice the budget and by 1 otherwise, capped at 9;
- from quality 7 on, while the file is still over 1.5 times the budget, it cuts
  the output to `duration * target/size * 0.9` seconds when a duration is known;
- if all refinements fail, it makes one last mono encode at
  `max(8, int(target * 8 / 1.5))` kbps;
- it answers whether the last measured size fits. An encoder failure ends the
  search at once with `False`.

The interactive driver also normalises the output file name. It strips one
pair of surrounding quotes from a pasted path, uses `<stem>_compressed` when no
name is typed, and adds `.mp3` unless the name already ends with it in any
letter case.

Files:

- `wrappers.dfy`: `Option`.
- `policy.dfy` (module `Policy`): the constants, the encoder parameters, the
  quality step, the duration-trim trigger and ratio, and the fallback bit rate.
- `search.dfy` (module `Search`): the encoder as an oracle, the specification
  of a run (`RunPrefix`, `IsRun`) and the search itself (`ConvertToMp3`).
  `ConvertToMp3` is a loop proved against `IsRun`. It returns the verdict and
  the list of encoder invocations, each with the size it measured.
- `search_facts.dfy` (module `SearchFacts`): what every run satisfies, for
  every encoder behaviour, plus worked examples.
- `output_name.dfy` (module `OutputName`): the file-name rules.

Conventions:

- Sizes are exact byte counts. The budget is a whole number of kilobytes
  (1 KB = 1024 bytes). The source's `bytes / 1024 <= target` is written as
  `bytes <= 1024 * target`, and likewise for the 2× and 1.5× comparisons.
- The encoder is a function `encode(n, params)`. It gives the size of the file
  left by the `n`-th invocation, or `None` when the invocation failed. The
  index lets the proofs cover an engine that answers differently to identical
  requests.
- The metadata probe and the parsing of its duration are summarised as
  `duration: Option<real>`. This is `None` when ffprobe failed, its JSON was
  malformed, the `format.duration` field was missing or `float(...)` rejected
  it. The search never fails because of the probe.

Further facts about the program that the model keeps:

- The search returns only a boolean. The final size is the measured size of
  the last entry of the returned list of invocations.
- The fallback bit rate is computed from the budget in kilobytes
  (`target_size_kb * 8 / 1.5`).
- A budget of 0 is accepted. The model takes the budget as a natural number.
  No division by zero can happen: the trim needs a size above 1.5 × 0, so the
  size is positive.

## Model

| member | source | states |
|---|---|---|
| `Policy.NextQuality` | convert.py:68-72 | the next quality never decreases and never passes 9; it is the old quality plus 2 (file more than twice the budget) or plus 1 (otherwise), unless clamped at 9, and it is only clamped when that step would reach or pass 9 |
| `Policy.TrimRatioBound` | convert.py:76-78 | when the size is over 1.5 times the budget, the size is positive and the ratio `target/size * 0.9` lies in [0, 0.6) |
| `Policy.DurationCap` | convert.py:74-86 | a `-t` cap exists exactly when quality ≥ 7, the size is over 1.5 times the budget and a duration was parsed; the cap is then the duration times the trim ratio; with no parsed duration there is no cap |
| `Policy.DurationCapShortens` | convert.py:75-86 | a cap implies quality ≥ 7, a size over 1.5 times the budget and a parsed duration; for a positive original duration the cap is non-negative and below 0.6 times it, hence strictly shorter |
| `Policy.FallbackBitrateExact` | convert.py:105 | `max(8, int(target * 8 / 1.5))` is at least 8 kbps and equals `max(8, 16 * target div 3)` |
| `Policy.FallbackParams` | convert.py:103-110 | the last-resort encode uses an explicit bit rate of at least 8 kbps, forces mono and carries no duration cap |
| `Policy.RefinedParams` | convert.py:68-93 | a refinement is a VBR encode whose quality lies between the previous quality and 9, in the original channel layout, and it is capped only at quality ≥ 7, with a parsed duration and a size over 1.5 times the budget |
| `Search.ConvertToMp3` | convert.py:35-127 | the verdict and invocation list satisfy `IsRun`: first the quality-4 encode; each later call only after an over-budget measurement; calls 1–9 are refinements of their predecessor; call 10 is the fallback; the search stops only on failure, on a fit or after the fallback; the verdict is whether the last measured size fits |
| `SearchFacts.EarlyAcceptance` | convert.py:45-59 | if the first encode fits, the run is that single invocation and the verdict is true |
| `SearchFacts.QualityAt` | convert.py:62-72 | calls 0–9 are VBR encodes with no forced downmix (the input's channel layout); the quality of call `i` lies between `min(9, 4+i)` and `min(9, 4+2i)`, so it stays within 4..9 |
| `SearchFacts.QualityMonotone` | convert.py:63-72 | the quality of an earlier call is never above that of a later call |
| `SearchFacts.FarOverClimbsFast` | convert.py:69-70 | while every measurement so far was more than twice the budget, call `i` uses quality `min(9, 4+2i)` |
| `SearchFacts.RunShape` | convert.py:62-110 | at most 11 invocations (1 + 9 refinements + 1 fallback); only the call at index 10 uses a bit rate or mono; when made, it is `max(8, …)` kbps mono with no cap, and all ten earlier measurements were over budget |
| `SearchFacts.FailureAborts` | convert.py:122-124 | a failed invocation is the last one made and the verdict is false |
| `SearchFacts.UnmetMeansExhausted` | convert.py:99-120 | a run that ends over budget without an encoder failure has made all 11 invocations, the last being the fallback |
| `SearchFacts.CappedCall` | convert.py:74-93 | a capped call is a refinement at index 2..9 with quality ≥ 7 that follows a measurement over 1.5 times the budget, with a parsed duration; for a positive duration the cap is below 0.6 times it |
| `SearchFacts.NoDurationNoCap` | convert.py:79-86 | without a parsed duration no invocation carries a cap |
| `SearchFacts.RunUnique` | convert.py:35-127 | the search is determined by its inputs: two runs against the same encoder, budget and duration have the same invocations and the same verdict |
| `SearchFacts.EngineMissing` | convert.py:47-50 | an encoder that always fails yields one invocation and verdict false |
| `SearchFacts.FarOverFirstStep` | convert.py:69-70 | budget 50 KB and a first encode of 400 KB: the next call is quality 6, uncapped, in the input's channel layout |
| `SearchFacts.NeverFits` | convert.py:65-120 | budget 10 KB and a constant 200 KB output: qualities 6, 8, 9, …; calls 2–9 cut to 4.5% of the duration when one is known; 11 invocations, ending with 53 kbps mono; verdict false |
| `OutputName.StripQuotes` | convert.py:157-159 | the result is never longer than the input; a string of two or more characters enclosed in matching `"` or `'` is its first character, the result and its last character, in that order (a lone quote becomes empty); any other string is unchanged |
| `OutputName.StripQuotesRoundTrip` | convert.py:157-159 | stripping a path wrapped in one pair of `"` or `'` gives the path back |
| `OutputName.StripQuotesOnce` | convert.py:157-159 | only one pair is removed: a doubly quoted path keeps its inner pair |
| `OutputName.EnsureMp3` | convert.py:170-172 | the result ends with `.mp3` in lower case comparison; it is the name itself exactly when the name already had that suffix, otherwise the name followed by `.mp3` |
| `OutputName.EnsureMp3Idempotent` | convert.py:171-172 | `.mp3` is never appended twice: applying the rule again changes nothing |
| `OutputName.OutputFileName` | convert.py:166-172 | the output file name always ends with `.mp3` in lower case comparison |
| `OutputName.DefaultOutputFileName` | convert.py:167-172 | with no name typed the output is `<stem>_compressed.mp3` |
| `OutputName.TypedMp3Kept` | convert.py:166-172 | whatever the stem, a typed name ending with `.mp3` in any case is kept as typed |
| `OutputName.TypedNameGetsMp3` | convert.py:166-172 | whatever the stem, a typed name without the suffix gets `.mp3` appended |
| `OutputName.SuffixExamples` | convert.py:171-172 | `Song.MP3` is left alone and `Song` becomes `Song.mp3` |

## Left out

- The ffmpeg and ffprobe processes (convert.py:15-20, 47-50, 89-93, 106-110). They become the `encode` oracle and the `duration` parameter. Command-line assembly and `str(new_duration)` formatting are not modelled.
- `get_media_info`'s JSON decoding and the `float(...)` of the duration. A parsed duration is any finite real; every failure is `None`.
- Durations that `float(...)` parses as `inf` or `nan`: a real cannot hold them, so the model does not capture the `-t` values they would produce.
- The default budget `target_size_kb=100`, the only budget the driver passes: the model takes the budget as a parameter and does not fix it at 100 KB.
- `get_file_size_kb`. Sizes are exact byte counts, and the floating-point division by 1024 is replaced by exact comparisons.
- Policy.TrimRatio: computed in exact reals, so the rounding of Python floats in `target/size*0.9` and `duration*ratio` is not modelled.
- Policy.FallbackBitrateExact: computed in exact reals for `target*8/1.5`; the model takes the float quotient to have the same integer part as the exact one.
- A budget that is not a whole number of kilobytes, or is negative. Negative budgets are excluded by the type.
- The file left on disk. Each encode overwrites it, so its size is the last measured size in the invocation list; no file system is modelled.
- The catch-all `except Exception` branches. Any failure of an encode or of measuring its output is the oracle's `None`.
- `check_ffmpeg` and the interactive loop of `main`: prompts, `strip()`, the `q` exit, `os.path.exists`, `dirname`, `getcwd`, `join` and all printing. These are I/O and host path handling.
- OutputName.DefaultOutputFileName: the stem is a parameter. `os.path.splitext(os.path.basename(...))` is host path handling and is not modelled.
- OutputName.Lower: lowercases only A–Z. Python's `str.lower` also folds letters of other scripts, which the model leaves unchanged.
- The fallback encodes the full duration, with no `-t` cap, and forces mono even for mono sources. Both behaviours are kept as the code has them.
