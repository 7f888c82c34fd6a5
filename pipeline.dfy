/**
  The transform pipeline of `apply_transforms`
  (jopApplication/excel_template_filler.py): the value is stripped, the pipe
  spec is cut into steps, and the steps are applied from left to right. Each
  step either changes the value or, when its arguments do not parse or its
  conversion fails, leaves it as it was; an unknown step leaves it as it was.

  The one step that calls back into the pipeline is `combine` with a third
  argument that is not a date format: it transforms the other field's value
  with the one-step spec `"|" + third`. That spec is shorter than the combine
  step itself, which is what the termination measure below uses.

  Date parsing and formatting are a parameter (`Reformat`); everything else
  is computed here.
 */
module Pipeline {
  import opened Wrappers
  import opened Text
  import Age

  /** One row of the data sheet: column name to cell text. */
  type Record = map<string, string>

  /** `datetime.strptime(value, src).strftime(dst)`, as (value, src, dst);
      None when the value does not parse. */
  type Reformat = (string, string, string) -> Option<string>

  /** `context.get(key, "")` */
  function Lookup(ctx: Record, key: string): string {
    if key in ctx then ctx[key] else ""
  }

  // ---------------------------------------------------------------------------
  // Cutting the pipe spec into steps

  predicate IsBar(c: char) {
    c == '|'
  }

  /** `[p.strip() for p in parts if p.strip()]` */
  function Clean(parts: seq<string>): (steps: seq<string>)
    ensures |steps| <= |parts|
    ensures forall i | 0 <= i < |steps| :: steps[i] != [] && Strip(steps[i]) == steps[i]
    ensures TotalLength(steps) <= TotalLength(parts)
    decreases |parts|
  {
    if parts == [] then []
    else
      var p := Strip(parts[0]);
      var rest := Clean(parts[1..]);
      StripIdempotent(parts[0]);
      if p == [] then rest
      else
        CleanCons(p, rest);
        [p] + rest
  }

  lemma CleanCons(p: string, rest: seq<string>)
    requires p != [] && Strip(p) == p
    requires forall i | 0 <= i < |rest| :: rest[i] != [] && Strip(rest[i]) == rest[i]
    ensures forall i | 0 <= i < |[p] + rest| :: ([p] + rest)[i] != [] && Strip(([p] + rest)[i]) == ([p] + rest)[i]
    ensures TotalLength([p] + rest) == |p| + TotalLength(rest)
  {
    assert ([p] + rest)[1..] == rest;
  }

  /** A character no part holds is in no step. */
  lemma {:induction false} CleanExcludes(parts: seq<string>, c: char)
    requires forall i | 0 <= i < |parts| :: c !in parts[i]
    ensures forall i | 0 <= i < |Clean(parts)| :: c !in Clean(parts)[i]
    decreases |parts|
  {
    if parts != [] {
      var p := Strip(parts[0]);
      StripWithin(parts[0], c);
      assert forall i | 0 <= i < |parts[1..]| :: parts[1..][i] == parts[i + 1];
      CleanExcludes(parts[1..], c);
      if p != [] {
        ConsExcludes(p, Clean(parts[1..]), c);
      }
    }
  }

  lemma ConsExcludes(p: string, rest: seq<string>, c: char)
    requires c !in p && forall i | 0 <= i < |rest| :: c !in rest[i]
    ensures forall i | 0 <= i < |[p] + rest| :: c !in ([p] + rest)[i]
  {
  }

  /** Cleaning works part by part: the steps of two lists of parts are the
      steps of the first followed by those of the second. */
  lemma {:induction false} CleanConcat(a: seq<string>, b: seq<string>)
    ensures Clean(a + b) == Clean(a) + Clean(b)
    decreases |a|
  {
    if a == [] {
      assert a + b == b;
    } else {
      var t := a[1..];
      var h := Clean([a[0]]);
      CleanHeadOfConcat(a, b);
      CleanHead(a);
      CleanConcat(t, b);
      Regroup(Clean(a + b), h, Clean(t + b), Clean(a), Clean(t), Clean(b));
    }
  }

  lemma CleanHeadOfConcat(a: seq<string>, b: seq<string>)
    requires a != []
    ensures Clean(a + b) == Clean([a[0]]) + Clean(a[1..] + b)
  {
    assert (a + b)[0] == a[0] && (a + b)[1..] == a[1..] + b;
    CleanHead(a + b);
  }

  /** `x == h + y` and `u == h + v` with `y == v + w` give `x == u + w`. */
  lemma Regroup(x: seq<string>, h: seq<string>, y: seq<string>, u: seq<string>, v: seq<string>, w: seq<string>)
    requires x == h + y && u == h + v && y == v + w
    ensures x == u + w
  {
    assert h + (v + w) == (h + v) + w;
  }

  /** The first part is cleaned on its own. */
  lemma CleanHead(parts: seq<string>)
    requires parts != []
    ensures Clean(parts) == Clean([parts[0]]) + Clean(parts[1..])
  {
    var p := Strip(parts[0]);
    var rest := Clean(parts[1..]);
    CleanOne(parts[0]);
    if p == [] {
      PrependNothing(Clean(parts), Clean([parts[0]]), rest);
    } else {
      PrependOne(Clean(parts), Clean([parts[0]]), p, rest);
    }
  }

  lemma PrependNothing(x: seq<string>, h: seq<string>, rest: seq<string>)
    requires x == rest && h == []
    ensures x == h + rest
  {
  }

  lemma PrependOne(x: seq<string>, h: seq<string>, p: string, rest: seq<string>)
    requires x == [p] + rest && h == [p]
    ensures x == h + rest
  {
  }

  /** One part gives its strip as a step, or nothing when it is blank. */
  lemma CleanOne(p: string)
    ensures Clean([p]) == if Blank(p) then [] else [Strip(p)]
  {
    assert [p][1..] == [];
  }

  /** Parts that are non-empty and neither start nor end with whitespace are
      kept as they are. */
  lemma {:induction false} CleanKeeps(ts: seq<string>)
    requires forall i | 0 <= i < |ts| :: ts[i] != [] && !IsSpace(ts[i][0]) && !IsSpace(ts[i][|ts[i]| - 1])
    ensures Clean(ts) == ts
    decreases |ts|
  {
    if ts != [] {
      var rest := ts[1..];
      assert ts == [ts[0]] + rest;
      assert Clean(rest) == rest by {
        assert forall i | 0 <= i < |rest| :: rest[i] == ts[i + 1];
        CleanKeeps(rest);
      }
      assert Clean([ts[0]]) == [ts[0]] by {
        KeptByStrip(ts[0]);
        CleanOne(ts[0]);
      }
      CleanHead(ts);
    }
  }

  /** The steps of a pipe spec: `spec.strip("|").split("|")`, each piece
      stripped, the blank ones dropped. Every step is a non-empty, stripped
      string without `|`, and together they are no longer than the spec. */
  function StepsOf(spec: string): (steps: seq<string>)
    ensures forall i | 0 <= i < |steps| :: steps[i] != [] && Strip(steps[i]) == steps[i]
    ensures forall i | 0 <= i < |steps| :: '|' !in steps[i]
    ensures TotalLength(steps) <= |spec|
  {
    var t := StripBy(spec, IsBar);
    var parts := SplitOn(t, "|");
    SplitPartsExclude(t, '|');
    CleanExcludes(parts, '|');
    JoinSplit(t, "|");
    JoinBounds(parts, "|");
    Clean(parts)
  }

  // ---------------------------------------------------------------------------
  // Reading one step

  /** The branches of the step chain, with the arguments each one reads. */
  datatype Step =
    | Trim
    | Upper
    | Lower
    | ZFill(width: Option<int>)
    | Digits
    | Date(formats: string)
    | MapValues(pairs: string)
    | Default(fallback: string)
    | Prefix(text: string)
    | Suffix(text: string)
    | ExtractAge
    | SplitLine(index: Option<int>)
    | Combine(args: string)
    | Unknown

  /** `step.split(":", 1)[1]` for a step that starts with `name:`: the rest of
      the step after that prefix. */
  function ArgAfter(step: string, name: string): (a: string)
    requires StartsWith(step, name + ":") && ':' !in name
    ensures a == step[|name| + 1..]
  {
    assert (name + ":")[..|name|] == name;
    AfterPrefix(step, name + ":", ':');
    SplitOnce(step, ':').1
  }

  /** `step.split(":")[1]` for a step that starts with `name:`: the text after
      that prefix up to the next `:`, or to the end when there is none. */
  function ColonField(step: string, name: string): (f: string)
    requires StartsWith(step, name + ":") && ':' !in name
    ensures |name| + 1 + |f| <= |step| && f == step[|name| + 1..|name| + 1 + |f|]
    ensures ':' !in f
    ensures ':' !in step[|name| + 1..] ==> f == step[|name| + 1..]
  {
    var rest := step[|name| + 1..];
    assert step == name + [':'] + rest by {
      assert step[..|name| + 1] == name + ":";
    }
    SplitOnFirst(name, ':', rest);
    SplitOnHead(rest, ':');
    SplitOn(step, ":")[1]
  }

  /** A string that differs from `prefix` at some position does not start
      with it. */
  lemma Differs(s: string, prefix: string, i: nat)
    requires i < |prefix| && i < |s| && s[i] != prefix[i]
    ensures !StartsWith(s, prefix)
  {
    if |prefix| <= |s| {
      assert s[..|prefix|][i] == s[i];
    }
  }

  /** The `if`/`elif` chain of the step loop: which branch a step takes, and
      the argument text it reads. */
  function ParseStep(step: string): (r: Step)
    ensures r.Combine? ==> StartsWith(step, "combine:") && r.args == step[8..]
  {
    if step == "trim" then Trim
    else if step == "upper" then Upper
    else if step == "lower" then Lower
    else if StartsWith(step, "zfill:") then ZFill(ParseInt(ColonField(step, "zfill")))
    else if step == "digits" then Digits
    else if StartsWith(step, "date:") then Date(ArgAfter(step, "date"))
    else if StartsWith(step, "map:") then MapValues(ArgAfter(step, "map"))
    else if StartsWith(step, "default:") then Default(ArgAfter(step, "default"))
    else if StartsWith(step, "prefix:") then Prefix(ArgAfter(step, "prefix"))
    else if StartsWith(step, "suffix:") then Suffix(ArgAfter(step, "suffix"))
    else if step == "extract_age" then ExtractAge
    else if StartsWith(step, "split_line:") then SplitLine(ParseInt(ColonField(step, "split_line")))
    else if StartsWith(step, "combine:") then Combine(ArgAfter(step, "combine"))
    else Unknown
  }

  /** The step names and prefixes exclude each other, so a step that starts
      with a prefix takes that prefix's branch. */
  lemma ParseZFill(step: string)
    requires StartsWith(step, "zfill:")
    ensures ParseStep(step) == ZFill(ParseInt(ColonField(step, "zfill")))
  {
    Differs(step, "trim", 0);
    Differs(step, "upper", 0);
    Differs(step, "lower", 0);
  }

  lemma ParseDate(step: string)
    requires StartsWith(step, "date:")
    ensures ParseStep(step) == Date(step[5..])
  {
    Differs(step, "trim", 0);
    Differs(step, "upper", 0);
    Differs(step, "lower", 0);
    Differs(step, "zfill:", 0);
    Differs(step, "digits", 1);
  }

  lemma ParseMap(step: string)
    requires StartsWith(step, "map:")
    ensures ParseStep(step) == MapValues(step[4..])
  {
    Differs(step, "trim", 0);
    Differs(step, "upper", 0);
    Differs(step, "lower", 0);
    Differs(step, "zfill:", 0);
    Differs(step, "digits", 0);
    Differs(step, "date:", 0);
  }

  lemma ParseDefault(step: string)
    requires StartsWith(step, "default:")
    ensures ParseStep(step) == Default(step[8..])
  {
    Differs(step, "trim", 0);
    Differs(step, "upper", 0);
    Differs(step, "lower", 0);
    Differs(step, "zfill:", 0);
    Differs(step, "digits", 1);
    Differs(step, "date:", 1);
    Differs(step, "map:", 0);
  }

  lemma ParsePrefix(step: string)
    requires StartsWith(step, "prefix:")
    ensures ParseStep(step) == Prefix(step[7..])
  {
    Differs(step, "trim", 0);
    Differs(step, "upper", 0);
    Differs(step, "lower", 0);
    Differs(step, "zfill:", 0);
    Differs(step, "digits", 0);
    Differs(step, "date:", 0);
    Differs(step, "map:", 0);
    Differs(step, "default:", 0);
  }

  lemma ParseSuffix(step: string)
    requires StartsWith(step, "suffix:")
    ensures ParseStep(step) == Suffix(step[7..])
  {
    Differs(step, "trim", 0);
    Differs(step, "upper", 0);
    Differs(step, "lower", 0);
    Differs(step, "zfill:", 0);
    Differs(step, "digits", 0);
    Differs(step, "date:", 0);
    Differs(step, "map:", 0);
    Differs(step, "default:", 0);
    Differs(step, "prefix:", 0);
  }

  lemma ParseSplitLine(step: string)
    requires StartsWith(step, "split_line:")
    ensures ParseStep(step) == SplitLine(ParseInt(ColonField(step, "split_line")))
  {
    SplitLineNotEarlier(step);
  }

  lemma SplitLineNotEarlier(step: string)
    requires StartsWith(step, "split_line:")
    ensures step !in {"trim", "upper", "lower", "digits", "extract_age"}
    ensures !StartsWith(step, "zfill:") && !StartsWith(step, "date:") && !StartsWith(step, "map:")
    ensures !StartsWith(step, "default:") && !StartsWith(step, "prefix:") && !StartsWith(step, "suffix:")
  {
    Differs(step, "trim", 0);
    Differs(step, "upper", 0);
    Differs(step, "lower", 0);
    Differs(step, "zfill:", 0);
    Differs(step, "digits", 0);
    Differs(step, "date:", 0);
    Differs(step, "map:", 0);
    Differs(step, "default:", 0);
    Differs(step, "prefix:", 1);
    Differs(step, "suffix:", 1);
    Differs(step, "extract_age", 0);
  }

  lemma ParseCombine(step: string)
    requires StartsWith(step, "combine:")
    ensures ParseStep(step) == Combine(step[8..])
  {
    Differs(step, "trim", 0);
    Differs(step, "upper", 0);
    Differs(step, "lower", 0);
    Differs(step, "zfill:", 0);
    Differs(step, "digits", 0);
    Differs(step, "date:", 0);
    Differs(step, "map:", 0);
    Differs(step, "default:", 0);
    Differs(step, "prefix:", 0);
    Differs(step, "suffix:", 0);
    Differs(step, "extract_age", 0);
    Differs(step, "split_line:", 0);
  }

  /** A step that is no step name and starts with no step prefix is skipped. */
  lemma ParseUnknown(step: string)
    requires step !in {"trim", "upper", "lower", "digits", "extract_age"}
    requires !StartsWith(step, "zfill:") && !StartsWith(step, "date:") && !StartsWith(step, "map:")
    requires !StartsWith(step, "default:") && !StartsWith(step, "prefix:") && !StartsWith(step, "suffix:")
    requires !StartsWith(step, "split_line:") && !StartsWith(step, "combine:")
    ensures ParseStep(step) == Unknown
  {
  }

  // ---------------------------------------------------------------------------
  // The steps that take arguments

  /** `date:SRC->DST`: reformat the value when the spec has exactly one `->`
      and the value parses; otherwise leave it. */
  function DateStep(s: string, formats: string, reformat: Reformat): (r: string)
    ensures r == s || (|SplitOn(formats, "->")| == 2
                       && reformat(s, SplitOn(formats, "->")[0], SplitOn(formats, "->")[1]) == Some(r))
  {
    if !Contains(formats, "->") then s
    else
      var fm := SplitOn(formats, "->");
      if |fm| != 2 then s
      else
        match reformat(s, fm[0], fm[1])
        case Some(r) => r
        case None => s
  }

  /** The key and the value of a `key=value` pair, both stripped. */
  function PairKey(pair: string): string
    requires '=' in pair
  {
    Strip(SplitOnce(pair, '=').0)
  }

  function PairValue(pair: string): string
    requires '=' in pair
  {
    Strip(SplitOnce(pair, '=').1)
  }

  /** The dictionary the `map:` loop builds from the pairs seen so far: pairs
      without `=` are skipped, and a later key replaces an earlier one. */
  function MapTable(pairs: seq<string>): map<string, string>
    decreases |pairs|
  {
    if pairs == [] then map[]
    else
      var m := MapTable(pairs[..|pairs| - 1]);
      var p := pairs[|pairs| - 1];
      if '=' in p then m[PairKey(p) := PairValue(p)] else m
  }

  /** `map:k=v,...`: `mapping.get(s, s)`. */
  function MapStep(s: string, pairs: string): string {
    var m := MapTable(SplitOn(pairs, ","));
    if s in m then m[s] else s
  }

  /** The lines of the value, with Windows line ends read as `\n`. */
  function Lines(s: string): (lines: seq<string>)
    ensures |lines| >= 1
  {
    SplitOn(Replace(s, "\r\n", "\n"), "\n")
  }

  /** `split_line:N`: line N, stripped, counting from the end when N is
      negative; "" past the last line; the value itself when N is so negative
      that indexing fails. */
  function SplitLineStep(s: string, n: int): string {
    var lines := Lines(s);
    if n < |lines| then
      if n >= 0 then Strip(lines[n])
      else if n >= -|lines| then Strip(lines[|lines| + n])
      else s
    else ""
  }

  /** The join at the end of `combine`: both sides with the separator when
      both are non-empty, otherwise whichever side is non-empty. */
  function JoinNonEmpty(a: string, sep: string, b: string): string {
    if a != [] && b != [] then a + sep + b
    else if a != [] then a
    else b
  }

  /** The inner `try` of a date `combine`: the value first, then the other
      field's value, each only when it is non-empty; a failure stops the block
      and keeps what was converted before it. */
  function ReformatBoth(s: string, other: string, src: string, dst: string, reformat: Reformat): (string, string) {
    if s != [] && reformat(s, src, dst).None? then (s, other)
    else
      var s' := if s != [] then reformat(s, src, dst).value else s;
      if other != [] then
        match reformat(other, src, dst)
        case Some(o) => (s', o)
        case None => (s', other)
      else (s', other)
  }

  /** A date `combine`: both values reformatted as far as they parse, then
      joined; the value as it is when the formats are not one `->` pair. */
  function CombineFormats(s: string, sep: string, other: string, formats: string, reformat: Reformat): string {
    var fm := SplitOn(formats, "->");
    if |fm| != 2 then s
    else
      var both := ReformatBoth(s, other, fm[0], fm[1], reformat);
      JoinNonEmpty(both.0, sep, both.1)
  }

  /** The third `combine` argument is shorter than the arguments. */
  lemma ThirdIsShorter(args: string)
    requires |SplitOn(args, ",")| >= 3
    ensures |Strip(SplitOn(args, ",")[2])| + 1 < |args|
  {
    JoinSplit(args, ",");
    JoinBounds(SplitOn(args, ","), ",");
  }

  // ---------------------------------------------------------------------------
  // The pipeline

  /** `apply_transforms(value, spec, context)`: None is read as "", the value
      is stripped, and an empty spec returns it as it is. */
  function Transform(value: Option<string>, spec: string, ctx: Record, reformat: Reformat): string
    decreases |spec|, 3, 0
  {
    var s := Strip(if value.Some? then value.value else "");
    if spec == [] then s
    else Fold(s, StepsOf(spec), ctx, reformat)
  }

  /** The step loop. */
  function Fold(s: string, steps: seq<string>, ctx: Record, reformat: Reformat): string
    decreases TotalLength(steps), 2, |steps|
  {
    if steps == [] then s
    else Fold(StepResult(s, steps[0], ctx, reformat), steps[1..], ctx, reformat)
  }

  /** One pass of the step loop. */
  function StepResult(s: string, step: string, ctx: Record, reformat: Reformat): string
    decreases |step|, 1, 0
  {
    match ParseStep(step)
    case Trim => Strip(s)
    case Upper => ToUpper(s)
    case Lower => ToLower(s)
    case ZFill(w) => if w.Some? then ZeroFill(s, w.value) else s
    case Digits => OnlyDigits(s)
    case Date(f) => DateStep(s, f, reformat)
    case MapValues(p) => MapStep(s, p)
    case Default(v) => if Strip(s) == [] then v else s
    case Prefix(p) => p + s
    case Suffix(x) => s + x
    case ExtractAge => Age.Extract(s)
    case SplitLine(n) => if n.Some? then SplitLineStep(s, n.value) else s
    case Combine(a) => CombineStep(s, a, ctx, reformat)
    case Unknown => s
  }

  /** `combine:FIELD,SEP[,THIRD]`. */
  function CombineStep(s: string, args: string, ctx: Record, reformat: Reformat): string
    decreases |args|, 0, 0
  {
    var parts := SplitOn(args, ",");
    if |parts| < 2 then s
    else
      var sep := Strip(parts[1]);
      var other := Strip(Lookup(ctx, Strip(parts[0])));
      if |parts| < 3 then JoinNonEmpty(s, sep, other)
      else
        ThirdIsShorter(args);
        CombineThree(s, sep, other, Strip(parts[2]), ctx, reformat)
  }

  /** `combine:` with a third part: a date format when it holds `->`, steps
      otherwise. */
  function CombineThree(s: string, sep: string, other: string, third: string,
                        ctx: Record, reformat: Reformat): string
    decreases |third| + 1, 5, 0
  {
    if Contains(third, "->") then CombineFormats(s, sep, other, third, reformat)
    else CombineTransformed(s, sep, other, third, ctx, reformat)
  }

  /** `combine:FIELD,SEP,STEPS` whose third part is not a date format: the other
      field's value goes through the steps as a spec of its own. */
  function CombineTransformed(s: string, sep: string, other: string, third: string,
                              ctx: Record, reformat: Reformat): string
    decreases |third| + 1, 4, 0
  {
    JoinNonEmpty(s, sep, Transform(Some(other), "|" + third, ctx, reformat))
  }

  // ---------------------------------------------------------------------------
  // One branch at a time: what a step does once its branch is known

  lemma NamedBranch(s: string, step: string, ctx: Record, reformat: Reformat)
    requires ParseStep(step) in {Trim, Upper, Lower, Digits, ExtractAge}
    ensures ParseStep(step) == Trim ==> StepResult(s, step, ctx, reformat) == Strip(s)
    ensures ParseStep(step) == Upper ==> StepResult(s, step, ctx, reformat) == ToUpper(s)
    ensures ParseStep(step) == Lower ==> StepResult(s, step, ctx, reformat) == ToLower(s)
    ensures ParseStep(step) == Digits ==> StepResult(s, step, ctx, reformat) == OnlyDigits(s)
    ensures ParseStep(step) == ExtractAge ==> StepResult(s, step, ctx, reformat) == Age.Extract(s)
  {
  }

  lemma ZFillBranch(s: string, step: string, w: Option<int>, ctx: Record, reformat: Reformat)
    requires ParseStep(step) == ZFill(w)
    ensures StepResult(s, step, ctx, reformat) == if w.Some? then ZeroFill(s, w.value) else s
  {
  }

  lemma DateBranch(s: string, step: string, f: string, ctx: Record, reformat: Reformat)
    requires ParseStep(step) == Date(f)
    ensures StepResult(s, step, ctx, reformat) == DateStep(s, f, reformat)
  {
  }

  lemma MapBranch(s: string, step: string, p: string, ctx: Record, reformat: Reformat)
    requires ParseStep(step) == MapValues(p)
    ensures StepResult(s, step, ctx, reformat) == MapStep(s, p)
  {
  }

  lemma DefaultBranch(s: string, step: string, v: string, ctx: Record, reformat: Reformat)
    requires ParseStep(step) == Default(v)
    ensures StepResult(s, step, ctx, reformat) == if Strip(s) == [] then v else s
  {
  }

  lemma AffixBranch(s: string, step: string, a: string, ctx: Record, reformat: Reformat)
    requires ParseStep(step) == Prefix(a) || ParseStep(step) == Suffix(a)
    ensures StepResult(s, step, ctx, reformat) == if ParseStep(step).Prefix? then a + s else s + a
  {
  }

  lemma SplitLineBranch(s: string, step: string, n: Option<int>, ctx: Record, reformat: Reformat)
    requires ParseStep(step) == SplitLine(n)
    ensures StepResult(s, step, ctx, reformat) == if n.Some? then SplitLineStep(s, n.value) else s
  {
  }

  lemma CombineBranch(s: string, step: string, a: string, ctx: Record, reformat: Reformat)
    requires ParseStep(step) == Combine(a)
    ensures StepResult(s, step, ctx, reformat) == CombineStep(s, a, ctx, reformat)
  {
  }

  // ---------------------------------------------------------------------------
  // The pipeline as a whole

  /** Running two lists of steps one after the other is running their
      concatenation. */
  lemma {:induction false} FoldAppend(s: string, a: seq<string>, b: seq<string>, ctx: Record, reformat: Reformat)
    ensures Fold(s, a + b, ctx, reformat) == Fold(Fold(s, a, ctx, reformat), b, ctx, reformat)
    decreases |a|
  {
    if a != [] {
      assert (a + b)[0] == a[0] && (a + b)[1..] == a[1..] + b;
      FoldAppend(StepResult(s, a[0], ctx, reformat), a[1..], b, ctx, reformat);
    } else {
      assert a + b == b;
    }
  }

  /** A character the spec does not hold is in none of its steps. */
  lemma StepsWithout(spec: string, c: char)
    requires c !in spec
    ensures forall i | 0 <= i < |StepsOf(spec)| :: c !in StepsOf(spec)[i]
  {
    var t := StripBy(spec, IsBar);
    var k := Leading(spec, IsBar);
    assert c !in t by {
      assert forall i | 0 <= i < |t| :: t[i] == spec[k + i];
    }
    var parts := SplitOn(t, "|");
    JoinSplit(t, "|");
    JoinExcludes(parts, "|", c);
    CleanExcludes(parts, c);
    assert StepsOf(spec) == Clean(parts);
  }

  /** Steps written out behind `|` separators are read back as they were:
      non-empty steps without `|` that neither start nor end with whitespace
      (that is, stripped ones, see `StrippedEnds`) survive the round trip
      through `"|" + "|".join(steps)`. */
  lemma StepsOfJoin(ts: seq<string>)
    requires forall i | 0 <= i < |ts| :: ts[i] != [] && !IsSpace(ts[i][0]) && !IsSpace(ts[i][|ts[i]| - 1])
    requires forall i | 0 <= i < |ts| :: '|' !in ts[i]
    ensures StepsOf("|" + Join(ts, "|")) == ts
  {
    var spec := "|" + Join(ts, "|");
    if ts == [] {
      assert spec == "|";
      StepsOfBar();
    } else {
      assert StepsOf(spec) == Clean(ts) by {
        StepsOfJoinCut(ts);
      }
      assert Clean(ts) == ts by {
        CleanKeeps(ts);
      }
    }
  }

  /** Writing the steps of a spec back out as a spec gives the same steps. */
  lemma StepsOfRewritten(spec: string)
    ensures var ts := StepsOf(spec); StepsOf("|" + Join(ts, "|")) == ts
  {
    var ts := StepsOf(spec);
    StrippedStepsEnds(ts);
    StepsOfJoin(ts);
  }

  lemma StrippedStepsEnds(ts: seq<string>)
    requires forall i | 0 <= i < |ts| :: ts[i] != [] && Strip(ts[i]) == ts[i]
    ensures forall i | 0 <= i < |ts| :: ts[i] != [] && !IsSpace(ts[i][0]) && !IsSpace(ts[i][|ts[i]| - 1])
  {
    forall i | 0 <= i < |ts|
      ensures !IsSpace(ts[i][0]) && !IsSpace(ts[i][|ts[i]| - 1])
    {
      StrippedEnds(ts[i]);
    }
  }

  /** Behind one bar, the join of non-empty pieces without `|` is cut back into
      those pieces, which are then cleaned. */
  lemma StepsOfJoinCut(ts: seq<string>)
    requires |ts| >= 1 && forall i | 0 <= i < |ts| :: ts[i] != [] && '|' !in ts[i]
    ensures StepsOf("|" + Join(ts, "|")) == Clean(ts)
  {
    var j := Join(ts, "|");
    StripJoined(ts);
    StepsOfStripped("|" + j, j);
    SplitJoin(ts, '|');
  }

  /** `StepsOf` cuts what is left once the bars at the ends are stripped. */
  lemma StepsOfStripped(spec: string, t: string)
    requires StripBy(spec, IsBar) == t
    ensures StepsOf(spec) == Clean(SplitOn(t, "|"))
  {
  }

  /** Behind one bar, the join of steps that neither start nor end with a bar
      loses only that bar to `strip("|")`. */
  lemma StripJoined(ts: seq<string>)
    requires |ts| >= 1 && forall i | 0 <= i < |ts| :: ts[i] != [] && '|' !in ts[i]
    ensures StripBy("|" + Join(ts, "|"), IsBar) == Join(ts, "|")
  {
    var j := Join(ts, "|");
    var spec := "|" + j;
    var z := ts[|ts| - 1];
    JoinFirst(ts, "|");
    JoinLast(ts, "|");
    assert ts[0][0] in ts[0] && z[|z| - 1] in z;
    assert spec[1..] == j;
    StripByUnique(spec, IsBar, 1, j);
  }

  /** A spec of bars only has no steps. */
  lemma StepsOfBar()
    ensures StepsOf("|") == []
  {
    assert StripBy("|", IsBar) == [];
    assert SplitOn([], "|") == [""];
    CleanOne("");
  }

  /** A spec made of one `|` and one step has just that step, stripped. */
  lemma StepsOfOne(t: string)
    requires '|' !in t && !Blank(t)
    ensures StepsOf("|" + t) == [Strip(t)]
  {
    var spec := "|" + t;
    assert t != [] && t[0] in t && t[|t| - 1] in t;
    assert spec[1..] == t && spec[0] == '|' && spec[1] == t[0];
    StripByUnique(spec, IsBar, 1, t);
    SplitOnNone(t, '|');
  }

  /** The value with a one-step spec is that step applied to the stripped
      value. */
  lemma TransformOneStep(value: string, t: string, ctx: Record, reformat: Reformat)
    requires '|' !in t && !Blank(t)
    ensures Transform(Some(value), "|" + t, ctx, reformat) == StepResult(Strip(value), Strip(t), ctx, reformat)
  {
    StepsOfOne(t);
    FoldOne(Strip(value), Strip(t), ctx, reformat);
  }

  lemma FoldOne(s: string, step: string, ctx: Record, reformat: Reformat)
    ensures Fold(s, [step], ctx, reformat) == StepResult(s, step, ctx, reformat)
  {
    assert [step][1..] == [];
  }

  /** The five steps without arguments. */
  lemma NamedSteps(s: string, ctx: Record, reformat: Reformat)
    ensures StepResult(s, "trim", ctx, reformat) == Strip(s)
    ensures StepResult(s, "upper", ctx, reformat) == ToUpper(s)
    ensures StepResult(s, "lower", ctx, reformat) == ToLower(s)
    ensures StepResult(s, "digits", ctx, reformat) == OnlyDigits(s)
    ensures StepResult(s, "extract_age", ctx, reformat) == Age.Extract(s)
  {
    ParseNamed();
    NamedBranch(s, "trim", ctx, reformat);
    NamedBranch(s, "upper", ctx, reformat);
    NamedBranch(s, "lower", ctx, reformat);
    NamedBranch(s, "digits", ctx, reformat);
    NamedBranch(s, "extract_age", ctx, reformat);
  }

  lemma ParseNamed()
    ensures ParseStep("trim") == Trim && ParseStep("upper") == Upper && ParseStep("lower") == Lower
    ensures ParseStep("digits") == Digits && ParseStep("extract_age") == ExtractAge
  {
    Differs("digits", "zfill:", 0);
    Differs("extract_age", "zfill:", 0);
    Differs("extract_age", "date:", 0);
    Differs("extract_age", "map:", 0);
    Differs("extract_age", "default:", 0);
    Differs("extract_age", "prefix:", 0);
    Differs("extract_age", "suffix:", 0);
  }

  /** Only the step `digits` takes the `digits` branch, and only the step
      `extract_age` takes the `extract_age` branch. */
  lemma ParseNamedOnly(step: string)
    ensures ParseStep(step) == Digits ==> step == "digits"
    ensures ParseStep(step) == ExtractAge ==> step == "extract_age"
  {
  }

  /** `trim`, `upper`, `lower`, `digits` and `extract_age` applied twice are
      applied once. */
  lemma IdempotentSteps(s: string, step: string, ctx: Record, reformat: Reformat)
    requires step in {"trim", "upper", "lower", "digits", "extract_age"}
    ensures var r := StepResult(s, step, ctx, reformat);
      StepResult(r, step, ctx, reformat) == r
  {
    var r := StepResult(s, step, ctx, reformat);
    NamedSteps(s, ctx, reformat);
    NamedSteps(r, ctx, reformat);
    StripIdempotent(s);
    UpperIdempotent(s);
    LowerIdempotent(s);
    OnlyDigitsIdempotent(s);
    Age.ExtractIdempotent(s);
  }

  /** `split(":")[1]` of `name:w` is `w` when `w` holds no `:`. */
  lemma ColonFieldOf(name: string, w: string)
    requires ':' !in name && ':' !in w
    ensures StartsWith(name + ":" + w, name + ":")
    ensures ColonField(name + ":" + w, name) == w
  {
    var step := name + ":" + w;
    assert step[..|name| + 1] == name + ":";
    assert step[|name| + 1..] == w;
  }

  lemma DigitsHaveNoColon(d: string)
    requires forall i | 0 <= i < |d| :: IsDigit(d[i])
    ensures ':' !in d
  {
    assert forall i | 0 <= i < |d| :: d[i] != ':';
  }

  /** `zfill:W` pads to the width `int(W)` when `int()` accepts W, and leaves
      the value as it is when it raises. */
  lemma ZFillStep(s: string, w: string, ctx: Record, reformat: Reformat)
    requires ':' !in w
    ensures StepResult(s, "zfill:" + w, ctx, reformat)
            == if ParseInt(w).Some? then ZeroFill(s, ParseInt(w).value) else s
  {
    ColonFieldOf("zfill", w);
    ParseZFill("zfill:" + w);
    ZFillBranch(s, "zfill:" + w, ParseInt(w), ctx, reformat);
  }

  /** `default:V` gives V exactly when the value is blank. */
  lemma DefaultStepResult(s: string, v: string, ctx: Record, reformat: Reformat)
    ensures StepResult(s, "default:" + v, ctx, reformat) == if Blank(s) then v else s
  {
    var step := "default:" + v;
    assert StartsWith(step, "default:") && step[8..] == v;
    ParseDefault(step);
    DefaultBranch(s, step, v, ctx, reformat);
  }

  /** `prefix:P` and `suffix:X` put their text before and after the value. */
  lemma AffixSteps(s: string, a: string, ctx: Record, reformat: Reformat)
    ensures StepResult(s, "prefix:" + a, ctx, reformat) == a + s
    ensures StepResult(s, "suffix:" + a, ctx, reformat) == s + a
  {
    var p := "prefix:" + a;
    var q := "suffix:" + a;
    assert StartsWith(p, "prefix:") && p[7..] == a;
    assert StartsWith(q, "suffix:") && q[7..] == a;
    ParsePrefix(p);
    ParseSuffix(q);
    AffixBranch(s, p, a, ctx, reformat);
    AffixBranch(s, q, a, ctx, reformat);
  }

  /** `!Contains` read position by position. */
  lemma {:induction false} NotContainsAt(s: string, i: nat, sub: string)
    requires !Contains(s, sub) && i + |sub| <= |s|
    ensures s[i..i + |sub|] != sub
    decreases i
  {
    if i > 0 {
      assert s[1..][i - 1..i - 1 + |sub|] == s[i..i + |sub|];
      NotContainsAt(s[1..], i - 1, sub);
    }
  }

  /** `"SRC->DST".split("->")` is `[SRC, DST]` when neither format holds an
      arrow. */
  lemma ArrowSplit(src: string, dst: string)
    requires !Contains(src, "->") && !Contains(dst, "->")
    ensures Contains(src + "->" + dst, "->")
    ensures SplitOn(src + "->" + dst, "->") == [src, dst]
  {
    var t := src + "->" + dst;
    assert t[|src|..|src| + 2] == "->";
    ContainsAt(t, |src|, "->");
    forall i | 0 <= i < |src|
      ensures !StartsWith(t[i..], "->")
    {
      if i + 1 < |src| {
        NotContainsAt(src, i, "->");
        assert t[i..][..2] == src[i..i + 2];
      } else {
        assert t[i..][1] == '-';
        Differs(t[i..], "->", 1);
      }
    }
    SplitOnFirstSep(src, "->", dst);
    SplitOnMissing(dst, "->");
  }

  /** `date:SRC->DST` reformats a value that parses and leaves one that does
      not. */
  lemma DateStepFormats(s: string, src: string, dst: string, ctx: Record, reformat: Reformat)
    requires !Contains(src, "->") && !Contains(dst, "->")
    ensures StepResult(s, "date:" + src + "->" + dst, ctx, reformat)
            == if reformat(s, src, dst).Some? then reformat(s, src, dst).value else s
  {
    var step := "date:" + src + "->" + dst;
    assert StartsWith(step, "date:") && step[5..] == src + "->" + dst;
    ParseDate(step);
    DateBranch(s, step, src + "->" + dst, ctx, reformat);
    ArrowSplit(src, dst);
  }

  /** `date:` without an arrow leaves the value. */
  lemma DateStepWithoutArrow(s: string, formats: string, ctx: Record, reformat: Reformat)
    requires !Contains(formats, "->")
    ensures StepResult(s, "date:" + formats, ctx, reformat) == s
  {
    var step := "date:" + formats;
    assert StartsWith(step, "date:") && step[5..] == formats;
    ParseDate(step);
    DateBranch(s, step, formats, ctx, reformat);
  }

  // ---------------------------------------------------------------------------
  // map:

  /** Every pair that holds `=` puts its key in the table. */
  lemma {:induction false} MapTableHasKey(pairs: seq<string>, j: nat)
    requires j < |pairs| && '=' in pairs[j]
    ensures PairKey(pairs[j]) in MapTable(pairs)
    decreases |pairs|
  {
    if j < |pairs| - 1 {
      var init := pairs[..|pairs| - 1];
      assert init[j] == pairs[j];
      MapTableHasKey(init, j);
    }
  }

  /** Every key of the table comes from such a pair. */
  lemma {:induction false} MapTableKeySource(pairs: seq<string>, k: string) returns (j: nat)
    requires k in MapTable(pairs)
    ensures j < |pairs| && '=' in pairs[j] && PairKey(pairs[j]) == k
    decreases |pairs|
  {
    var init := pairs[..|pairs| - 1];
    var p := pairs[|pairs| - 1];
    if '=' in p && PairKey(p) == k {
      j := |pairs| - 1;
    } else {
      j := MapTableKeySource(init, k);
      assert init[j] == pairs[j];
    }
  }

  /** The keys of the table are the stripped keys of the pairs that hold `=`. */
  lemma MapTableKeys(pairs: seq<string>, k: string)
    ensures k in MapTable(pairs) <==> exists j | 0 <= j < |pairs| :: '=' in pairs[j] && PairKey(pairs[j]) == k
  {
    if k in MapTable(pairs) {
      var j := MapTableKeySource(pairs, k);
    }
    forall j | 0 <= j < |pairs| && '=' in pairs[j] && PairKey(pairs[j]) == k
      ensures k in MapTable(pairs)
    {
      MapTableHasKey(pairs, j);
    }
  }

  /** A key maps to the value of the last pair that names it. */
  lemma {:induction false} MapTableLastWins(pairs: seq<string>, j: nat)
    requires j < |pairs| && '=' in pairs[j]
    requires forall i | j < i < |pairs| :: '=' in pairs[i] ==> PairKey(pairs[i]) != PairKey(pairs[j])
    ensures PairKey(pairs[j]) in MapTable(pairs)
    ensures MapTable(pairs)[PairKey(pairs[j])] == PairValue(pairs[j])
    decreases |pairs|
  {
    if j < |pairs| - 1 {
      var init := pairs[..|pairs| - 1];
      assert init[j] == pairs[j];
      MapTableLastWins(init, j);
    }
  }

  lemma MapStepOf(s: string, pairs: string, ctx: Record, reformat: Reformat)
    ensures StepResult(s, "map:" + pairs, ctx, reformat) == MapStep(s, pairs)
  {
    var step := "map:" + pairs;
    assert StartsWith(step, "map:") && step[4..] == pairs;
    ParseMap(step);
    MapBranch(s, step, pairs, ctx, reformat);
  }

  /** `map:` keeps a value that no pair names. */
  lemma MapStepMiss(s: string, pairs: string, ctx: Record, reformat: Reformat)
    requires forall j | 0 <= j < |SplitOn(pairs, ",")| ::
      '=' in SplitOn(pairs, ",")[j] ==> PairKey(SplitOn(pairs, ",")[j]) != s
    ensures StepResult(s, "map:" + pairs, ctx, reformat) == s
  {
    MapTableMiss(SplitOn(pairs, ","), s);
    MapStepOf(s, pairs, ctx, reformat);
  }

  lemma MapTableMiss(ps: seq<string>, s: string)
    requires forall j | 0 <= j < |ps| :: '=' in ps[j] ==> PairKey(ps[j]) != s
    ensures s !in MapTable(ps)
  {
    MapTableKeys(ps, s);
  }

  /** `map:` replaces a value by the value of the last pair that names it. */
  lemma MapStepHit(s: string, pairs: string, j: nat, ctx: Record, reformat: Reformat)
    requires j < |SplitOn(pairs, ",")| && '=' in SplitOn(pairs, ",")[j]
    requires PairKey(SplitOn(pairs, ",")[j]) == s
    requires forall i | j < i < |SplitOn(pairs, ",")| ::
      '=' in SplitOn(pairs, ",")[i] ==> PairKey(SplitOn(pairs, ",")[i]) != s
    ensures StepResult(s, "map:" + pairs, ctx, reformat) == PairValue(SplitOn(pairs, ",")[j])
  {
    MapStepOf(s, pairs, ctx, reformat);
    MapTableLastWins(SplitOn(pairs, ","), j);
  }

  // ---------------------------------------------------------------------------
  // split_line:

  /** Text joined from lines without line breaks, with `\n` or with `\r\n`,
      splits back into those lines. */
  lemma LinesOfJoin(ls: seq<string>)
    requires |ls| >= 1
    requires forall i | 0 <= i < |ls| :: '\n' !in ls[i] && '\r' !in ls[i]
    ensures Lines(Join(ls, "\n")) == ls
    ensures Lines(Join(ls, "\r\n")) == ls
  {
    var t := Join(ls, "\n");
    JoinKeepsOut(ls, "\n", '\r');
    SplitOnAbsent(t, "\r\n");
    assert Replace(t, "\r\n", "\n") == t;
    SplitJoinSep(ls, "\n");
    SplitJoinSep(ls, "\r\n");
  }

  /** `split_line:N` on text made of such lines. */
  lemma SplitLineOfLines(ls: seq<string>, n: int)
    requires |ls| >= 1
    requires forall i | 0 <= i < |ls| :: '\n' !in ls[i] && '\r' !in ls[i]
    ensures var r := SplitLineStep(Join(ls, "\n"), n);
      && (0 <= n < |ls| ==> r == Strip(ls[n]))
      && (-|ls| <= n < 0 ==> r == Strip(ls[|ls| + n]))
      && (n >= |ls| ==> r == "")
      && (n < -|ls| ==> r == Join(ls, "\n"))
  {
    LinesOfJoin(ls);
    SplitLineAt(Join(ls, "\n"), ls, n);
  }

  lemma SplitLineAt(s: string, ls: seq<string>, n: int)
    requires Lines(s) == ls
    ensures var r := SplitLineStep(s, n);
      && (0 <= n < |ls| ==> r == Strip(ls[n]))
      && (-|ls| <= n < 0 ==> r == Strip(ls[|ls| + n]))
      && (n >= |ls| ==> r == "")
      && (n < -|ls| ==> r == s)
  {
  }

  /** `split_line:W` reads its index with `int()`, and leaves the value when
      that fails. */
  lemma SplitLineStepOf(s: string, w: string, ctx: Record, reformat: Reformat)
    requires ':' !in w
    ensures StepResult(s, "split_line:" + w, ctx, reformat)
            == if ParseInt(w).Some? then SplitLineStep(s, ParseInt(w).value) else s
  {
    var step := "split_line:" + w;
    ColonFieldOf("split_line", w);
    ParseSplitLine(step);
    SplitLineBranch(s, step, ParseInt(w), ctx, reformat);
  }

  /** The step text `split_line:N` reads N. */
  lemma SplitLineStepIndex(s: string, n: nat, ctx: Record, reformat: Reformat)
    ensures StepResult(s, "split_line:" + Decimal(n), ctx, reformat) == SplitLineStep(s, n)
  {
    var d := Decimal(n);
    DigitsHaveNoColon(d);
    ParseIntDecimal(n);
    SplitLineStepOf(s, d, ctx, reformat);
  }

  // ---------------------------------------------------------------------------
  // combine:

  /** The join is empty only when both sides are, and it keeps each non-empty
      side whole, in order. */
  lemma JoinNonEmptyFacts(a: string, sep: string, b: string)
    ensures JoinNonEmpty(a, sep, b) == [] <==> a == [] && b == []
    ensures a != [] ==> StartsWith(JoinNonEmpty(a, sep, b), a)
    ensures b != [] ==> var r := JoinNonEmpty(a, sep, b); |b| <= |r| && r[|r| - |b|..] == b
  {
    var r := JoinNonEmpty(a, sep, b);
    if a != [] && b != [] {
      assert r[..|a|] == a;
      assert r[|r| - |b|..] == b;
    } else if a != [] {
      assert r[..|a|] == a;
    }
  }

  /** `combine:` needs a `,`: without one it leaves the value. */
  lemma CombineNeedsComma(s: string, args: string, ctx: Record, reformat: Reformat)
    requires ',' !in args
    ensures CombineStep(s, args, ctx, reformat) == s
  {
    SplitOnNone(args, ',');
  }

  lemma SplitTwo(a: string, b: string)
    requires ',' !in a && ',' !in b
    ensures SplitOn(a + "," + b, ",") == [a, b]
  {
    assert Join([a, b], ",") == a + "," + b;
    SplitJoin([a, b], ',');
  }

  lemma SplitThree(a: string, b: string, c: string)
    requires ',' !in a && ',' !in b && ',' !in c
    ensures SplitOn(a + "," + b + "," + c, ",") == [a, b, c]
  {
    assert Join([b, c], ",") == b + "," + c;
    assert Join([a, b, c], ",") == a + "," + (b + "," + c);
    assert a + "," + (b + "," + c) == a + "," + b + "," + c;
    SplitJoin([a, b, c], ',');
  }

  /** `combine:FIELD,SEP` joins the value and the other field's stripped value. */
  lemma CombineTwo(s: string, field: string, sep: string, ctx: Record, reformat: Reformat)
    requires ',' !in field && ',' !in sep
    ensures CombineStep(s, field + "," + sep, ctx, reformat)
            == JoinNonEmpty(s, Strip(sep), Strip(Lookup(ctx, Strip(field))))
  {
    SplitTwo(field, sep);
  }

  /** `combine:FIELD,SEP,SRC->DST` reformats both values, each only if it is
      non-empty, and stops at the first that does not parse. */
  lemma CombineDates(s: string, field: string, sep: string, src: string, dst: string, ctx: Record, reformat: Reformat)
    requires ',' !in field && ',' !in sep && ',' !in src && ',' !in dst
    requires !Contains(src, "->") && !Contains(dst, "->")
    requires src != [] && !IsSpace(src[0]) && dst != [] && !IsSpace(dst[|dst| - 1])
    ensures var other := Strip(Lookup(ctx, Strip(field)));
      var both := ReformatBoth(s, other, src, dst, reformat);
      CombineStep(s, field + "," + sep + "," + src + "->" + dst, ctx, reformat)
      == JoinNonEmpty(both.0, Strip(sep), both.1)
  {
    var third := src + "->" + dst;
    assert ',' !in third;
    assert field + "," + sep + "," + src + "->" + dst == field + "," + sep + "," + third;
    SplitThree(field, sep, third);
    assert third[0] == src[0] && third[|third| - 1] == dst[|dst| - 1];
    StripByNoOp(third, IsSpace);
    ArrowSplit(src, dst);
    CombineDateParts(s, field + "," + sep + "," + third, field, sep, third, ctx, reformat);
  }

  lemma CombineDateParts(s: string, args: string, field: string, sep: string, third: string,
                         ctx: Record, reformat: Reformat)
    requires SplitOn(args, ",") == [field, sep, third] && Contains(Strip(third), "->")
    ensures CombineStep(s, args, ctx, reformat)
            == CombineFormats(s, Strip(sep), Strip(Lookup(ctx, Strip(field))), Strip(third), reformat)
  {
    CombineThreeParts(s, args, field, sep, third, ctx, reformat);
  }

  lemma CombineThreeParts(s: string, args: string, field: string, sep: string, third: string,
                          ctx: Record, reformat: Reformat)
    requires SplitOn(args, ",") == [field, sep, third]
    ensures CombineStep(s, args, ctx, reformat)
            == CombineThree(s, Strip(sep), Strip(Lookup(ctx, Strip(field))), Strip(third), ctx, reformat)
  {
    CombineStepThree(s, args, ctx, reformat);
  }

  lemma CombineStepThree(s: string, args: string, ctx: Record, reformat: Reformat)
    requires |SplitOn(args, ",")| >= 3
    ensures var parts := SplitOn(args, ",");
      CombineStep(s, args, ctx, reformat)
      == CombineThree(s, Strip(parts[1]), Strip(Lookup(ctx, Strip(parts[0]))), Strip(parts[2]), ctx, reformat)
  {
  }

  /** `combine:FIELD,SEP,STEP` transforms the other field's value with STEP. */
  lemma CombineNested(s: string, field: string, sep: string, t: string, ctx: Record, reformat: Reformat)
    requires ',' !in field && ',' !in sep && ',' !in t
    requires !Contains(Strip(t), "->")
    ensures var other := Strip(Lookup(ctx, Strip(field)));
      CombineStep(s, field + "," + sep + "," + t, ctx, reformat)
      == JoinNonEmpty(s, Strip(sep), Transform(Some(other), "|" + Strip(t), ctx, reformat))
  {
    SplitThree(field, sep, t);
    CombineThreeParts(s, field + "," + sep + "," + t, field, sep, t, ctx, reformat);
  }

  /** A `combine:` step without `,` leaves its value. */
  lemma CombineStepWithoutComma(x: string, step: string, ctx: Record, reformat: Reformat)
    requires ',' !in step && StartsWith(step, "combine:")
    ensures StepResult(x, step, ctx, reformat) == x
  {
    ParseCombine(step);
    var a := step[8..];
    CombineBranch(x, step, a, ctx, reformat);
    assert ',' !in a by {
      assert forall k | 0 <= k < |a| :: a[k] == step[8 + k];
    }
    CombineNeedsComma(x, a, ctx, reformat);
  }

  /** The nested spec `"|" + THIRD` holds no `,`, so a `combine:` step inside
      it leaves its value: the recursion goes one level deep. */
  lemma NestedCombineIsNoOp(args: string, x: string, ctx: Record, reformat: Reformat)
    requires |SplitOn(args, ",")| >= 3
    ensures var steps := StepsOf("|" + Strip(SplitOn(args, ",")[2]));
      forall i | 0 <= i < |steps| :: StartsWith(steps[i], "combine:")
        ==> StepResult(x, steps[i], ctx, reformat) == x
  {
    var parts := SplitOn(args, ",");
    SplitPartsExclude(args, ',');
    StripWithin(parts[2], ',');
    var spec := "|" + Strip(parts[2]);
    StepsWithout(spec, ',');
    var steps := StepsOf(spec);
    forall i | 0 <= i < |steps| && StartsWith(steps[i], "combine:")
      ensures StepResult(x, steps[i], ctx, reformat) == x
    {
      CombineStepWithoutComma(x, steps[i], ctx, reformat);
    }
  }

  // ---------------------------------------------------------------------------
  // The loops as the source runs them

  /** `apply_transforms`: strip the value, then the `for step in steps` loop. */
  method ApplyTransforms(value: Option<string>, spec: string, ctx: Record, reformat: Reformat) returns (s: string)
    ensures s == Transform(value, spec, ctx, reformat)
    decreases |spec|, 3, 0
  {
    s := Strip(if value.Some? then value.value else "");
    if spec == [] {
      return;
    }
    var steps := StepsOf(spec);
    s := RunSteps(s, steps, ctx, reformat);
  }

  /** The `for step in steps` loop. */
  method RunSteps(s0: string, steps: seq<string>, ctx: Record, reformat: Reformat) returns (s: string)
    ensures s == Fold(s0, steps, ctx, reformat)
    decreases TotalLength(steps), 2, 0
  {
    s := s0;
    var rest := steps;
    while rest != []
      invariant TotalLength(rest) <= TotalLength(steps)
      invariant Fold(s, rest, ctx, reformat) == Fold(s0, steps, ctx, reformat)
      decreases |rest|
    {
      WithinTotalLength(rest, 0);
      s := ApplyStep(s, rest[0], ctx, reformat);
      rest := rest[1..];
    }
  }

  /** One pass of the loop: the `map:` and `combine:` branches run their own
      code, the others are single expressions. */
  method ApplyStep(s: string, step: string, ctx: Record, reformat: Reformat) returns (r: string)
    ensures r == StepResult(s, step, ctx, reformat)
    decreases |step|, 1, 0
  {
    match ParseStep(step)
    case MapValues(p) =>
      MapBranch(s, step, p, ctx, reformat);
      r := ApplyMap(s, p);
    case Combine(a) =>
      CombineBranch(s, step, a, ctx, reformat);
      r := ApplyCombine(s, a, ctx, reformat);
    case _ =>
      r := StepResult(s, step, ctx, reformat);
  }

  /** The `for pair in pairs.split(",")` loop that fills the dictionary. */
  method BuildMapping(pairs: seq<string>) returns (mapping: map<string, string>)
    ensures mapping == MapTable(pairs)
  {
    mapping := map[];
    for i := 0 to |pairs|
      invariant mapping == MapTable(pairs[..i])
    {
      assert pairs[..i + 1][..i] == pairs[..i];
      if '=' in pairs[i] {
        var kv := SplitOnce(pairs[i], '=');
        mapping := mapping[Strip(kv.0) := Strip(kv.1)];
      }
    }
    assert pairs[..|pairs|] == pairs;
  }

  /** The `map:` branch. */
  method ApplyMap(s: string, pairs: string) returns (r: string)
    ensures r == MapStep(s, pairs)
  {
    var mapping := BuildMapping(SplitOn(pairs, ","));
    r := if s in mapping then mapping[s] else s;
  }

  /** The `combine:` branch, with its call back into `apply_transforms`. */
  method ApplyCombine(s: string, args: string, ctx: Record, reformat: Reformat) returns (r: string)
    ensures r == CombineStep(s, args, ctx, reformat)
    decreases |args|, 0, 0
  {
    var parts := SplitOn(args, ",");
    if |parts| < 2 {
      return s;
    }
    var sep := Strip(parts[1]);
    var other := Strip(Lookup(ctx, Strip(parts[0])));
    if |parts| >= 3 {
      var third := Strip(parts[2]);
      CombineStepThree(s, args, ctx, reformat);
      if Contains(third, "->") {
        var fm := SplitOn(third, "->");
        if |fm| != 2 {
          return s;
        }
        var both := ReformatBoth(s, other, fm[0], fm[1], reformat);
        return JoinNonEmpty(both.0, sep, both.1);
      }
      ThirdIsShorter(args);
      other := ApplyTransforms(Some(other), "|" + third, ctx, reformat);
      assert CombineStep(s, args, ctx, reformat) == CombineTransformed(s, sep, Strip(Lookup(ctx, Strip(parts[0]))), third, ctx, reformat);
    }
    r := JoinNonEmpty(s, sep, other);
  }
}
