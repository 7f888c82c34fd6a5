# Placeholder templating and transform pipeline of the Excel template filler

This project is a Dafny model of the template engine at the heart of
`jopApplication/excel_template_filler.py`. It covers four things:

- the placeholder pattern `{{ field | step | step:arg }}`;
- the transform pipeline `apply_transforms`, which strips the field's value and then applies
  `trim`, `upper`, `lower`, `zfill:N`, `digits`, `date:SRC->DST`,
  `map:K=V,...`, `default:V`, `prefix:`, `suffix:`, `extract_age`,
  `split_line:N` and `combine:FIELD,SEP[,THIRD]` from left to right;
- the `re.sub` pass that replaces every placeholder of a text (`replace_placeholders_in_string`);
- the same pass applied to one worksheet cell (`replace_placeholders_in_cell`).

Modules, one file each:

- `Wrappers` holds `Option`.
- `Text` holds the Python string built-ins the engine relies on: `str.strip`, `str.upper` and `str.lower`,
  `re.sub(r"\D+", "", s)`, `str.zfill`, `int()`, `str.split` and `str.join`,
  `in`, `startswith` and `replace`.
- `Age` holds the three regular expressions of `extract_age`, tried in turn with `re.search`.
- `Scanner` holds the placeholder pattern. It is read as a matcher on the start of a string, together with
  the left-to-right scan that `re.sub` performs. A text is cut into literal characters
  and placeholder matches.
- `Pipeline` holds `apply_transforms`:
  - functions that define it: `Transform`, `Fold`, `StepResult`, `CombineStep`;
  - the methods that follow the source's loops and branches: `ApplyTransforms`, `RunSteps`, `ApplyStep`,
    `BuildMapping`, `ApplyMap`, `ApplyCombine`. Each is proved equal to its function.
- `Substitution` holds the substitution of a text (`Substitute`, computed by the
  method `SubstituteText`) and of a cell (`Cell`, `ReplaceInCell`).
- `Findings` holds a defect of the source. It models `apply_transforms` as written, next to the intended
  pipeline that the rest of the model uses.

The row is a `map<string, string>`, because the loader reads every column as text with
empty cells filled by "". A missing column reads as "", as `context.get(field, "")` does.
`datetime.strptime(value, SRC).strftime(DST)` is a parameter of type
`Reformat`, which returns None where `strptime` or `strftime` raises.

`Transform` terminates by the length of the pipe spec, for this reason:

- The only re-entry into the pipeline is `combine` with a third argument that is not a date format.
  It re-enters with the spec `"|" + THIRD`.
- That spec is shorter than the `combine` step it comes from.
- It holds no `,`, so a `combine` inside it leaves its value. The recursion is therefore one level deep
  (`NestedCombineIsNoOp`).

Whitespace is the set `str.isspace` accepts (`Text.IsSpace`). The exception is `int()`, which skips a
narrower set around a number: `str.isspace` without the separators U+001C to U+001F (`Text.IsIntSpace`).
Digits and case mapping are ASCII.

## Model

| member | source | states |
|---|---|---|
| Scanner.MatchPrefix | jopApplication/excel_template_filler.py:41 | A match of the placeholder pattern at the start of a text is well formed: a non-empty raw name of characters other than `}` and `|`, optionally `|` and an argument without `}`. The text starts with the match's spelling. |
| Scanner.MatchPrefixComplete | jopApplication/excel_template_filler.py:41 | Every well-formed `{{name}}` or `{{name|arg}}`, followed by any text, is recognised as exactly that match. The match at a position is unique. |
| Scanner.CompleteName | jopApplication/excel_template_filler.py:41 | `{{raw}}` followed by any text is matched with the whole raw name and no pipe part. |
| Scanner.CompletePipe | jopApplication/excel_template_filler.py:41 | `{{raw|arg}}` followed by any text is matched with the whole raw name and the whole argument. |
| Scanner.MatchPrefixPipe | jopApplication/excel_template_filler.py:41 | Where the maximal name run ends at `|` and the maximal argument run ends at `}}`, the match consists of those two runs. |
| Scanner.NameSpelling | jopApplication/excel_template_filler.py:41 | Where the maximal name run is followed by `}}`, that run is a well-formed name and the text starts with its spelling. |
| Scanner.PipeSpelling | jopApplication/excel_template_filler.py:41 | Where the name run ends at `|` and the argument run ends at `}}`, the two runs form a well-formed match that the text spells. |
| Scanner.MatchPrefixNone | jopApplication/excel_template_filler.py:41 | Where nothing matches, the text does not start with any well-formed placeholder. |
| Scanner.Group1 | jopApplication/excel_template_filler.py:41 | Group 1 is a non-empty ending of the raw name. The first `\s*` takes only leading whitespace. |
| Scanner.Group2 | jopApplication/excel_template_filler.py:41 | Group 2 exists exactly when the match has a pipe part. It is then `|` followed by the argument. |
| Scanner.Pipe | jopApplication/excel_template_filler.py:259 | `match.group(2) or ""` is empty exactly when there is no pipe part. Otherwise it is `|` and the argument. |
| Scanner.FieldIsStrippedName | jopApplication/excel_template_filler.py:258 | `match.group(1).strip()` is the stripped raw name: the spaces that the two `\s*` take do not change the field. |
| Scanner.ScanSpells | jopApplication/excel_template_filler.py:263 | The `re.sub` scan cuts a text into pieces that spell the text back exactly. |
| Scanner.ScanCanonical | jopApplication/excel_template_filler.py:263 | Every literal piece of a scan is a position where no match starts. |
| Scanner.ScanOfSpell | jopApplication/excel_template_filler.py:263 | Scanning the spelling of canonical pieces gives those pieces back. This is the round trip partner of `ScanSpells`. |
| Scanner.ScanLiteral | jopApplication/excel_template_filler.py:263 | Where no match starts, the scan copies one character and goes on after it. |
| Scanner.ScanPlaceholder | jopApplication/excel_template_filler.py:263 | Where a match starts, the scan takes it whole and resumes after its end. |
| Scanner.ScanUnmatched | jopApplication/excel_template_filler.py:263 | Where the pattern matches at no position of the text, `re.sub` scans it as literals only, one per character. |
| Scanner.NoBracesNoMatch | jopApplication/excel_template_filler.py:41 | A match needs `{{` at its start, so in a text without `{{` the pattern matches at no position. |
| Scanner.ScanWithoutBraces | jopApplication/excel_template_filler.py:263 | A text without `{{` is scanned as literals only, one per character. This follows from the two lemmas above. |
| Text.Strip | jopApplication/excel_template_filler.py:96 | `str.strip()` has no whitespace at either end. It is no longer than its input, and it is empty exactly when the input is all whitespace. |
| Text.StripUnique | jopApplication/excel_template_filler.py:96 | Any slice of the text with only whitespace around it and non-whitespace at both ends is the strip of the text. |
| Text.KeptByStrip | jopApplication/excel_template_filler.py:96 | A string with non-whitespace at both ends is its own strip and is not blank. |
| Text.StrippedEnds | jopApplication/excel_template_filler.py:102 | A non-empty string is its own strip exactly when it neither starts nor ends with whitespace. |
| Text.StripIdempotent | jopApplication/excel_template_filler.py:105-106 | Stripping twice is stripping once: `trim` after the initial strip changes nothing. |
| Text.ToUpper | jopApplication/excel_template_filler.py:107-108 | `str.upper()` maps each character to its upper case and keeps the length. |
| Text.ToLower | jopApplication/excel_template_filler.py:109-110 | `str.lower()` maps each character to its lower case and keeps the length. |
| Text.UpperIdempotent | jopApplication/excel_template_filler.py:107-108 | Upper-casing twice is upper-casing once. |
| Text.LowerIdempotent | jopApplication/excel_template_filler.py:109-110 | Lower-casing twice is lower-casing once. |
| Text.UpperStripCommute | jopApplication/excel_template_filler.py:105-108 | `upper` then `trim` gives the same result as `trim` then `upper`. |
| Text.OnlyDigits | jopApplication/excel_template_filler.py:118 | `re.sub(r"\D+", "", s)` keeps only digits and is no longer than its input. |
| Text.OnlyDigitsConcat | jopApplication/excel_template_filler.py:118 | Removing non-digits distributes over concatenation: each piece keeps its own digits, in order. |
| Text.OnlyDigitsExtremes | jopApplication/excel_template_filler.py:118 | An all-digit string is kept whole. A string without digits becomes empty. |
| Text.OnlyDigitsIdempotent | jopApplication/excel_template_filler.py:118 | `digits` twice is `digits` once. |
| Text.ZeroFill | jopApplication/excel_template_filler.py:114 | `str.zfill(n)`: the length is at least `n` and the input is unchanged when it is already that long. `0`s go after a leading sign, or at the front when there is no sign. |
| Text.ZeroFillKeepsSuffix | jopApplication/excel_template_filler.py:114 | Without a sign, the zero-filled value ends with the original value. |
| Text.ParseInt | jopApplication/excel_template_filler.py:113 | `int()` of a text without any digit raises (None). |
| Text.ParseIntAccepts | jopApplication/excel_template_filler.py:113 | `int()` succeeds exactly when the text, without the whitespace `int()` skips at either end, is a digit body, or one sign followed by a digit body. |
| Text.ParseIntValue | jopApplication/excel_template_filler.py:113 | A digit body reads as its value, and a signed one as that value, negated after `-`; the whitespace `int()` skips at either end is ignored. |
| Text.ParseIntStripped | jopApplication/excel_template_filler.py:113 | Removing the whitespace `int()` skips at either end does not change what it reads. |
| Text.ParseIntTrailingLetter | jopApplication/excel_template_filler.py:113 | `int("5a")` raises. |
| Text.ParseIntDoubledUnderscore | jopApplication/excel_template_filler.py:113 | `int("1__2")` raises. |
| Text.ParseIntLeadingUnderscore | jopApplication/excel_template_filler.py:113 | `int("_1")` raises. |
| Text.ParseIntDoubledSign | jopApplication/excel_template_filler.py:113 | `int("--1")` raises. |
| Text.ParseIntSpaced | jopApplication/excel_template_filler.py:113 | `int(" 42 ")` is 42. |
| Text.ParseIntSeparator | jopApplication/excel_template_filler.py:113 | `int("\x1c5")` raises, although `str.strip` removes the U+001C separator: `int()` does not skip it. |
| Text.ParseIntGroup | jopApplication/excel_template_filler.py:113 | `int()` of digits, with single underscores between digits, is their decimal value. |
| Text.ParseIntSigned | jopApplication/excel_template_filler.py:113 | `int()` accepts one leading sign, and `-` negates. |
| Text.ParseIntDecimal | jopApplication/excel_template_filler.py:113 | `int()` of the decimal spelling of `n` is `n`. This is the round trip with `Decimal`. |
| Text.DecimalValue | jopApplication/excel_template_filler.py:113 | The decimal spelling of `n` denotes `n`. |
| Text.JoinSplit | jopApplication/excel_template_filler.py:102 | Joining the parts of `str.split(sep)` with `sep` gives the text back. |
| Text.SplitJoin | jopApplication/excel_template_filler.py:102 | Splitting a join of parts that hold no separator gives the parts back. |
| Text.ContainsIffSplits | jopApplication/excel_template_filler.py:123-124 | `"->" in spec` holds exactly when `spec.split("->")` has two or more parts. |
| Text.SplitOnce | jopApplication/excel_template_filler.py:137 | `pair.split("=", 1)` cuts at the first `=`. The key holds no `=`, and key, `=` and value spell the pair. |
| Text.AfterPrefix | jopApplication/excel_template_filler.py:122 | For a step that starts with `name:`, `step.split(":", 1)[1]` is the text after that prefix. |
| Age.MatchAt | jopApplication/excel_template_filler.py:168-178 | A match of an age pattern starts with `만`, a space and a digit, and is at least four characters long. |
| Age.Search | jopApplication/excel_template_filler.py:168-178 | `re.search` returns the leftmost match: its start matches, and no earlier position does. None means that no position matches. |
| Age.ExtractShape | jopApplication/excel_template_filler.py:163-182 | `extract_age` gives back its input, or a whole `만 N세(M)`, or, only when neither longer pattern occurs, a whole `만 N세`. |
| Age.ExtractIdempotent | jopApplication/excel_template_filler.py:163-182 | `extract_age` twice is `extract_age` once. |
| Age.FullSlice | jopApplication/excel_template_filler.py:168-170 | A full match, cut out of its text, is a full match of itself. |
| Age.UnclosedSlice | jopApplication/excel_template_filler.py:173-175 | An unclosed match, cut out and closed with `)`, is a full match of itself. |
| Age.ShortSlice | jopApplication/excel_template_filler.py:178-180 | A short match, cut out of its text, is a short match of itself. |
| Age.ShortHasNoLongerMatch | jopApplication/excel_template_filler.py:168-178 | A short-form age string contains no full or unclosed match anywhere. |
| Pipeline.Clean | jopApplication/excel_template_filler.py:102 | `[p.strip() for p in parts if p.strip()]` keeps only non-empty stripped parts and is no longer than its input. |
| Pipeline.CleanConcat | jopApplication/excel_template_filler.py:102 | The comprehension works part by part: cleaning `a + b` gives the steps of `a` followed by those of `b`. |
| Pipeline.CleanOne | jopApplication/excel_template_filler.py:102 | One part gives its strip as a step, or no step when it is blank. With `CleanConcat` this determines the result of every list. |
| Pipeline.CleanHead | jopApplication/excel_template_filler.py:102 | The first part is cleaned on its own, before the rest. |
| Pipeline.CleanKeeps | jopApplication/excel_template_filler.py:102 | Parts that are non-empty and have no whitespace at either end are kept unchanged. |
| Pipeline.CleanExcludes | jopApplication/excel_template_filler.py:102 | A character that is in no part is in no cleaned step. |
| Pipeline.StepsOf | jopApplication/excel_template_filler.py:102 | The steps of a pipe spec are non-empty, stripped and free of `|`. Together they are no longer than the spec. |
| Pipeline.StepsOfOne | jopApplication/excel_template_filler.py:102 | The spec `"|" + t`, with `t` non-blank and free of `|`, has the one step `t.strip()`. |
| Pipeline.StepsOfJoin | jopApplication/excel_template_filler.py:102 | Steps that are non-empty, stripped and free of `|`, written out as `"|" + "|".join(steps)`, are read back as the same steps. |
| Pipeline.StepsOfBar | jopApplication/excel_template_filler.py:102 | The spec `"|"` has no steps. |
| Pipeline.StepsOfJoinCut | jopApplication/excel_template_filler.py:102 | Behind one `|`, the join of non-empty pieces free of `|` is cut back into those pieces before they are cleaned. |
| Pipeline.StripJoined | jopApplication/excel_template_filler.py:102 | `strip("|")` of `"|"` followed by such a join removes only the leading bar. |
| Pipeline.StepsOfRewritten | jopApplication/excel_template_filler.py:102 | Writing the steps of any spec back out as a spec gives the same steps. |
| Pipeline.StepsWithout | jopApplication/excel_template_filler.py:102 | A character absent from the spec is absent from all its steps. |
| Pipeline.ParseStep | jopApplication/excel_template_filler.py:104-198 | The `elif` chain picks `combine` only for a step that starts with `combine:`, and its argument is the rest of the step. |
| Pipeline.ParseZFill | jopApplication/excel_template_filler.py:111-113 | A step that starts with `zfill:` is zero-fill, with the width `int(step.split(":")[1])`. |
| Pipeline.ParseDate | jopApplication/excel_template_filler.py:119-122 | A step that starts with `date:` is a date step, with the formats that follow the first `:`. |
| Pipeline.ParseMap | jopApplication/excel_template_filler.py:130-133 | A step that starts with `map:` is a map step over the text after `map:`. |
| Pipeline.ParseDefault | jopApplication/excel_template_filler.py:143-146 | A step that starts with `default:` is a default step with the rest as its value. |
| Pipeline.ParsePrefix | jopApplication/excel_template_filler.py:151-153 | A step that starts with `prefix:` is a prefix step with the rest as the prefix. |
| Pipeline.ParseSuffix | jopApplication/excel_template_filler.py:157-159 | A step that starts with `suffix:` is a suffix step with the rest as the suffix. |
| Pipeline.ParseSplitLine | jopApplication/excel_template_filler.py:183-186 | A step that starts with `split_line:` selects the line `int(step.split(":")[1])`. No earlier branch takes it. |
| Pipeline.ParseCombine | jopApplication/excel_template_filler.py:198-201 | A step that starts with `combine:` is a combine step over the text after `combine:`. |
| Pipeline.ParseUnknown | jopApplication/excel_template_filler.py:104-198 | A step that no branch accepts is unknown, and the loop leaves the value as it is. |
| Pipeline.ParseNamed | jopApplication/excel_template_filler.py:105-118 | The five step names `trim`, `upper`, `lower`, `digits` and `extract_age` are recognised as their steps. |
| Pipeline.ParseNamedOnly | jopApplication/excel_template_filler.py:117-118 | Only the exact word `digits` is the digits step, and only the exact word `extract_age` is the age step. |
| Pipeline.ArgAfter | jopApplication/excel_template_filler.py:122 | `step.split(":", 1)[1]` is everything after `name:`. |
| Pipeline.ColonField | jopApplication/excel_template_filler.py:113 | `step.split(":")[1]` is the text after `name:` up to the next `:`. It holds no `:`, and it is the whole rest when the rest holds no `:`. |
| Pipeline.ColonFieldOf | jopApplication/excel_template_filler.py:113 | For `name:w` with `w` free of `:`, the field is `w`. |
| Pipeline.NamedSteps | jopApplication/excel_template_filler.py:105-118 | `trim`, `upper`, `lower`, `digits` and `extract_age` strip, upper-case, lower-case, keep the digits and extract the age, respectively. This is the intended behaviour; `digits` as written is described under Findings. |
| Pipeline.IdempotentSteps | jopApplication/excel_template_filler.py:105-118 | Each of the five named steps, applied twice, is applied once. |
| Pipeline.ZFillStep | jopApplication/excel_template_filler.py:111-116 | `zfill:w` zero-fills to `int(w)`. It leaves the value when `int` raises. |
| Pipeline.DateStep | jopApplication/excel_template_filler.py:119-129 | A date step either leaves the value, or gives the reformatted value for exactly two formats around `->`. |
| Pipeline.DateStepFormats | jopApplication/excel_template_filler.py:119-129 | `date:SRC->DST` gives the reformatted value, or the value itself when parsing fails. |
| Pipeline.DateStepWithoutArrow | jopApplication/excel_template_filler.py:123 | A `date:` step without `->` leaves the value. |
| Pipeline.ArrowSplit | jopApplication/excel_template_filler.py:124 | `(SRC + "->" + DST).split("->")` is `[SRC, DST]` when neither part holds `->`. |
| Pipeline.MapStepOf | jopApplication/excel_template_filler.py:130-142 | `map:pairs` looks the value up in the table built from `pairs`, and keeps the value when the lookup misses. |
| Pipeline.MapTableKeys | jopApplication/excel_template_filler.py:134-138 | A key is in the table exactly when some pair holds `=` and has that key. Pairs without `=` are skipped. |
| Pipeline.MapTableLastWins | jopApplication/excel_template_filler.py:134-138 | A pair whose key no later pair repeats is the one whose value the table holds. |
| Pipeline.MapStepMiss | jopApplication/excel_template_filler.py:139 | A value that matches no key is kept. |
| Pipeline.MapStepHit | jopApplication/excel_template_filler.py:139 | A value equal to the key of the last pair with that key becomes that pair's value. |
| Pipeline.DefaultStepResult | jopApplication/excel_template_filler.py:143-150 | `default:v` replaces a blank value with `v` and keeps any other value. |
| Pipeline.AffixSteps | jopApplication/excel_template_filler.py:151-162 | `prefix:a` puts `a` in front of the value and `suffix:a` puts it after. |
| Pipeline.Lines | jopApplication/excel_template_filler.py:188 | `s.replace('\r\n', '\n').split('\n')` always has at least one line. |
| Pipeline.LinesOfJoin | jopApplication/excel_template_filler.py:188 | Lines joined by `\n` or by `\r\n` are split back into the same lines. |
| Pipeline.SplitLineOfLines | jopApplication/excel_template_filler.py:183-197 | `split_line:n` on lines joined by `\n` has four cases. For `0 <= n < len` it gives line `n` stripped. For a negative `n` within range it counts from the end. For `n >= len` it gives "". Below `-len` the `IndexError` is caught and the value is kept. |
| Pipeline.SplitLineStepOf | jopApplication/excel_template_filler.py:183-197 | `split_line:w` selects `int(w)` as above, and leaves the value when `int` raises. |
| Pipeline.SplitLineStepIndex | jopApplication/excel_template_filler.py:183-197 | `split_line:N`, with `N` written in decimal, selects line `N`. |
| Pipeline.JoinNonEmptyFacts | jopApplication/excel_template_filler.py:234-242 | The combined value is empty exactly when both sides are empty. It starts with the own value when that is non-empty, and ends with the other value when that is non-empty. |
| Pipeline.CombineNeedsComma | jopApplication/excel_template_filler.py:202-203 | `combine:` arguments without `,` leave the value. |
| Pipeline.CombineStepWithoutComma | jopApplication/excel_template_filler.py:198-203 | A `combine:` step without `,` leaves the value. |
| Pipeline.CombineTwo | jopApplication/excel_template_filler.py:202-208 | `combine:F,SEP` joins the value and the other field's stripped value with the stripped separator, skipping the empty side. |
| Pipeline.CombineDates | jopApplication/excel_template_filler.py:211-228 | `combine:F,SEP,SRC->DST` reformats both sides, each only if non-empty, and stops at the first parse failure. It then joins them. |
| Pipeline.CombineDateParts | jopApplication/excel_template_filler.py:211-228 | A third argument holding `->` is taken as date formats for both sides. |
| Pipeline.CombineNested | jopApplication/excel_template_filler.py:229-231 | `combine:F,SEP,STEP`, with STEP not a date format, transforms the other field's value with the spec `"|" + STEP` and then joins. |
| Pipeline.NestedCombineIsNoOp | jopApplication/excel_template_filler.py:229-231 | Any `combine:` step inside the nested spec leaves its value, so the recursion goes one level deep. |
| Pipeline.ThirdIsShorter | jopApplication/excel_template_filler.py:231 | The nested spec is shorter than the `combine` arguments it comes from, which is why `Transform` terminates. |
| Pipeline.FoldAppend | jopApplication/excel_template_filler.py:104-246 | Running the steps `a + b` is running `a` and then `b` on the result, so the loop is a left fold. |
| Pipeline.FoldOne | jopApplication/excel_template_filler.py:104-246 | Running one step is applying that step. |
| Pipeline.TransformOneStep | jopApplication/excel_template_filler.py:91-248 | `apply_transforms(v, "|" + t)` applies the one step `t.strip()` to `v.strip()`. |
| Pipeline.ApplyTransforms | jopApplication/excel_template_filler.py:91-248 | The method computes `Transform`: None becomes "", the value is stripped, an empty spec returns it, and otherwise its steps are folded. |
| Pipeline.RunSteps | jopApplication/excel_template_filler.py:104-246 | The `for step in steps` loop computes the left fold of the steps. |
| Pipeline.ApplyStep | jopApplication/excel_template_filler.py:105-246 | One pass of the `elif` chain computes `StepResult`. |
| Pipeline.BuildMapping | jopApplication/excel_template_filler.py:134-138 | The loop over `pairs.split(",")` builds exactly the mapping `MapTable`. |
| Pipeline.ApplyMap | jopApplication/excel_template_filler.py:133-139 | The `map:` branch computes `MapStep`. |
| Pipeline.ApplyCombine | jopApplication/excel_template_filler.py:200-242 | The `combine:` branch computes `CombineStep`. |
| Substitution.SubstituteMatchStep | jopApplication/excel_template_filler.py:257-263 | Where a match starts, `re.sub` emits the transformed field value and goes on after the match. |
| Substitution.SubstituteLiteralStep | jopApplication/excel_template_filler.py:263 | Where no match starts, `re.sub` copies the character. |
| Substitution.SubstitutePlaceholder | jopApplication/excel_template_filler.py:257-263 | A placeholder followed by any text is replaced by its transformed value, and the text that follows is substituted in turn. |
| Substitution.SubstituteUnmatched | jopApplication/excel_template_filler.py:280 | A text where the pattern matches at no position is left unchanged. |
| Substitution.SubstituteWithoutPlaceholders | jopApplication/excel_template_filler.py:263 | A text without `{{` is left unchanged. This is a corollary of `SubstituteUnmatched`. |
| Substitution.EmptyBracesKept | jopApplication/excel_template_filler.py:41 | `{{}}` names no field, so the pattern does not match it and the text stays as it is. |
| Substitution.MissingFieldIsEmpty | jopApplication/excel_template_filler.py:258-261 | `{{f}}` for a column the row lacks becomes "". |
| Substitution.PlainPlaceholder | jopApplication/excel_template_filler.py:258-261 | `{{f}}` becomes the row's value for `f`, stripped. |
| Substitution.MissingFieldDefault | jopApplication/excel_template_filler.py:258-261 | `{{f|default:v}}` for a missing column becomes `v`. |
| Substitution.ReplacementOfPipe | jopApplication/excel_template_filler.py:257-261 | `replace_func` passes the looked-up value and `group(2)` to `apply_transforms`. |
| Substitution.DefaultStepText | jopApplication/excel_template_filler.py:102 | The step `default:v`, with `v` free of `|` and not ending in whitespace, survives the spec's cutting unchanged. |
| Substitution.ReplaceInString | jopApplication/excel_template_filler.py:269-280 | A non-text value is returned as it is. A text becomes a text. |
| Substitution.ReplaceMatch | jopApplication/excel_template_filler.py:257-261 | The method computes the replacement of one match. |
| Substitution.SubstituteStep | jopApplication/excel_template_filler.py:263 | Each step of the scan consumes at least one character, and substitution of the text is its output followed by substitution of the rest. |
| Substitution.SubstituteText | jopApplication/excel_template_filler.py:263 | The scanning loop computes `Substitute` of the text. |
| Substitution.Cell.constructor | jopApplication/excel_template_filler.py:250-267 | A new cell holds the given value and has not been written. |
| Substitution.ReplaceInCell | jopApplication/excel_template_filler.py:250-267 | The cell's new value is the substitution of its old value. The cell is written exactly when the value changes; non-text cells are left alone. |
| Findings.AsWrittenFoldOutcome | jopApplication/excel_template_filler.py:117-118 | As written, the steps raise exactly when a `digits` step comes before any `extract_age` step in the same call (with no `combine`). Otherwise the result is the intended fold. |
| Findings.AsWrittenTransformOutcome | jopApplication/excel_template_filler.py:166 | For a spec without `combine` steps, `apply_transforms` as written raises exactly when the spec is non-empty and has `digits` before any `extract_age`. Otherwise it agrees with the intended `Transform`. |
| Findings.DigitsAloneRaises | jopApplication/excel_template_filler.py:117-118 | The spec `|digits` raises as written for every value. The intended result is the digits of the stripped value. |
| Findings.PhoneDigits | jopApplication/excel_template_filler.py:117-118 | `{{phone|digits}}` on digit groups joined by a non-digit separator, such as `010-1234-5678`, raises as written. The intended result is the groups alone, `01012345678`. |
| Findings.AgeThenDigits | jopApplication/excel_template_filler.py:163-182 | After an `extract_age` step in the same call, `digits` works as intended. |
| Findings.NestedDigitsIsCaught | jopApplication/excel_template_filler.py:229-246 | As written, `combine:F,SEP,digits` raises in the nested call. The `except` at the end of the branch catches the error, so the value is left as it was. |
| Findings.NestedDigitsIntended | jopApplication/excel_template_filler.py:229-242 | The intended `combine:F,SEP,digits` joins the value with the digits of the other field. |

## Left out

- I/O is not modelled: reading the row workbook with pandas, opening and saving templates with openpyxl
  and xlwings, PDF export, photos, file names and configuration. They are the program around the core.
- The `print` calls, including the debug lines of `split_line`, `combine` and the cell replacement, are
  not modelled. They only produce console output.
- `pd.isna(value)` and `str(value)` of non-text values are not modelled. The value is `Option<string>`,
  because the loader reads every column as text with empty cells filled by "".
- For the same reason the other field in `combine` is read as text. `str(context.get(...))` of a
  non-text value is not modelled.
- `datetime.strptime` and `strftime` are the parameter `Reformat`, not a model of the format language.
- `Text.ToUpper`, `Text.ToLower`: map ASCII letters only. Case mappings outside ASCII, including those
  that change the length, are not modelled.
- `Text.OnlyDigits`: `\D` is read as "not one of `0`-`9`". Unicode decimal digits of other
  scripts are not modelled.
- `Text.ParseInt`: accepts ASCII digits only. Unicode digits accepted by `int()` are not modelled.
- `Age.MatchAt`: `\d` in the patterns of lines 168, 173 and 178 matches any Unicode decimal digit,
  such as the fullwidth `３`. The model reads it as one of `0`-`9`, so an age written in other digits is
  not modelled.
- `Text.ZeroFill`: the width is unbounded. A width above `sys.maxsize` raises `OverflowError` and a width too large to allocate raises `MemoryError`; both are caught by the bare `except` of lines 115-116, which leaves the value as it was. The model pads to any width instead.
- `Substitution.ReplaceInCell`: the worksheet cell is a `Cell` object with only its value. The write
  counter stands for the "changed" test before the assignment. The cell's font and style are other state
  and are not modelled.
- `context=None`, the default of the parameter, is not modelled because every call passes a row. A
  `combine` step with a missing row would raise, and that error is caught at the end of the branch.
- Concurrency and threading are not modelled (the core has none).

## Findings

| source | as written | input that shows it | evidently intended | confidence | as-written member | corrected member |
|---|---|---|---|---|---|---|
| jopApplication/excel_template_filler.py:166 | The `extract_age` branch runs `import re`. That makes `re` a local variable of all of `apply_transforms`, so the `digits` branch (line 118) raises `UnboundLocalError` unless an `extract_age` step ran earlier in the same call. At the top level the error leaves `apply_transforms`. Inside `combine:F,SEP,digits` it is caught, and the step leaves the value. | a cell `{{phone|digits}}` with phone `010-1234-5678` | `01012345678`, the digits only, as the module's docstring describes `digits` (line 18) | high; derived from Python's scoping rules, not executed | Findings.DigitsAloneRaises | Pipeline.NamedSteps |
