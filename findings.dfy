/**
  `apply_transforms` as written (jopApplication/excel_template_filler.py):
  the `extract_age` branch runs `import re`, which makes `re` a local name of
  the whole function. The `digits` branch reads that local, so a `digits` step
  raises UnboundLocalError unless an `extract_age` step has already run in the
  same call. Every call has its own locals: the call that `combine` makes for
  its third argument starts unbound again, and the error it raises there is
  caught by the `combine` branch, which then leaves the value as it was.

  The functions here model that, with None for the raised error; the rest of
  the model is the intended pipeline, in which `digits` keeps the digits.
 */
module Findings {
  import opened Wrappers
  import opened Text
  import opened Pipeline
  import Age

  /** `apply_transforms` as written: None when it raises. */
  function AsWrittenTransform(value: Option<string>, spec: string, ctx: Record, reformat: Reformat): Option<string>
    decreases |spec|, 3, 0
  {
    var s := Strip(if value.Some? then value.value else "");
    if spec == [] then Some(s)
    else AsWrittenFold(s, StepsOf(spec), false, ctx, reformat)
  }

  /** The step loop as written; `bound` says whether `import re` has run in
      this call. */
  function AsWrittenFold(s: string, steps: seq<string>, bound: bool, ctx: Record, reformat: Reformat): Option<string>
    decreases TotalLength(steps), 2, |steps|
  {
    if steps == [] then Some(s)
    else
      match AsWrittenStep(s, steps[0], bound, ctx, reformat)
      case None => None
      case Some((s', bound')) => AsWrittenFold(s', steps[1..], bound', ctx, reformat)
  }

  /** One pass of the loop as written: the value after the step and whether
      `re` is bound after it, or None when the step raises. */
  function AsWrittenStep(s: string, step: string, bound: bool, ctx: Record, reformat: Reformat): Option<(string, bool)>
    decreases |step|, 1, 0
  {
    match ParseStep(step)
    case Digits => if bound then Some((OnlyDigits(s), bound)) else None
    case ExtractAge => Some((Age.Extract(s), true))
    case Combine(a) => Some((AsWrittenCombine(s, a, ctx, reformat), bound))
    case _ => Some((StepResult(s, step, ctx, reformat), bound))
  }

  /** The `combine:` branch as written: an error in the nested call is caught,
      and the value stays as it was. */
  function AsWrittenCombine(s: string, args: string, ctx: Record, reformat: Reformat): string
    decreases |args|, 0, 0
  {
    var parts := SplitOn(args, ",");
    if |parts| < 3 || Contains(Strip(parts[2]), "->") then CombineStep(s, args, ctx, reformat)
    else
      ThirdIsShorter(args);
      var other := Strip(Lookup(ctx, Strip(parts[0])));
      match AsWrittenTransform(Some(other), "|" + Strip(parts[2]), ctx, reformat)
      case None => s
      case Some(o) => JoinNonEmpty(s, Strip(parts[1]), o)
  }

  /** Some `digits` step comes before every `extract_age` step. */
  predicate DigitsBeforeImport(steps: seq<string>) {
    exists j | 0 <= j < |steps| :: steps[j] == "digits" && forall i | 0 <= i < j :: steps[i] != "extract_age"
  }

  predicate NoCombine(steps: seq<string>) {
    forall i | 0 <= i < |steps| :: !StartsWith(steps[i], "combine:")
  }

  /** Without `combine:` steps, the loop as written raises exactly when a
      `digits` step runs while `re` is unbound, and otherwise computes what the
      intended loop computes. */
  lemma {:induction false} AsWrittenFoldOutcome(s: string, steps: seq<string>, bound: bool, ctx: Record, reformat: Reformat)
    requires NoCombine(steps)
    ensures AsWrittenFold(s, steps, bound, ctx, reformat)
            == if !bound && DigitsBeforeImport(steps) then None else Some(Fold(s, steps, ctx, reformat))
    decreases |steps|, 1
  {
    if steps == [] {
      assert !DigitsBeforeImport(steps);
    } else {
      NoCombineTail(steps);
      if steps[0] == "digits" {
        OutcomeOfDigits(s, steps, bound, ctx, reformat);
      } else if steps[0] == "extract_age" {
        OutcomeOfAge(s, steps, bound, ctx, reformat);
      } else {
        OutcomeOfOther(s, steps, bound, ctx, reformat);
      }
    }
  }

  lemma {:induction false} OutcomeOfDigits(s: string, steps: seq<string>, bound: bool, ctx: Record, reformat: Reformat)
    requires steps != [] && steps[0] == "digits" && NoCombine(steps[1..])
    ensures AsWrittenFold(s, steps, bound, ctx, reformat)
            == if !bound && DigitsBeforeImport(steps) then None else Some(Fold(s, steps, ctx, reformat))
    decreases |steps|, 0
  {
    FoldCons(s, steps, ctx, reformat);
    AsWrittenFoldCons(s, steps, bound, ctx, reformat);
    ParseNamed();
    NamedBranch(s, steps[0], ctx, reformat);
    AsWrittenDigitsBranch(s, steps[0], bound, ctx, reformat);
    DigitsFirst(steps);
    if bound {
      AsWrittenFoldOutcome(OnlyDigits(s), steps[1..], bound, ctx, reformat);
    }
  }

  lemma {:induction false} OutcomeOfAge(s: string, steps: seq<string>, bound: bool, ctx: Record, reformat: Reformat)
    requires steps != [] && steps[0] == "extract_age" && NoCombine(steps[1..])
    ensures AsWrittenFold(s, steps, bound, ctx, reformat)
            == if !bound && DigitsBeforeImport(steps) then None else Some(Fold(s, steps, ctx, reformat))
    decreases |steps|, 0
  {
    FoldCons(s, steps, ctx, reformat);
    AsWrittenFoldCons(s, steps, bound, ctx, reformat);
    ParseNamed();
    NamedBranch(s, steps[0], ctx, reformat);
    AsWrittenAgeBranch(s, steps[0], bound, ctx, reformat);
    NotBeforeImport(steps);
    AsWrittenFoldOutcome(Age.Extract(s), steps[1..], true, ctx, reformat);
  }

  lemma {:induction false} OutcomeOfOther(s: string, steps: seq<string>, bound: bool, ctx: Record, reformat: Reformat)
    requires steps != [] && steps[0] != "digits" && steps[0] != "extract_age"
    requires !StartsWith(steps[0], "combine:") && NoCombine(steps[1..])
    ensures AsWrittenFold(s, steps, bound, ctx, reformat)
            == if !bound && DigitsBeforeImport(steps) then None else Some(Fold(s, steps, ctx, reformat))
    decreases |steps|, 0
  {
    var r := StepResult(s, steps[0], ctx, reformat);
    FoldCons(s, steps, ctx, reformat);
    AsWrittenFoldCons(s, steps, bound, ctx, reformat);
    ParseNamedOnly(steps[0]);
    NotCombineBranch(steps[0]);
    AsWrittenOtherBranch(s, steps[0], bound, ctx, reformat);
    DigitsBeforeImportTail(steps);
    AsWrittenFoldOutcome(r, steps[1..], bound, ctx, reformat);
  }

  lemma NoCombineTail(steps: seq<string>)
    requires steps != [] && NoCombine(steps)
    ensures !StartsWith(steps[0], "combine:") && NoCombine(steps[1..])
  {
    assert forall i | 0 <= i < |steps[1..]| :: steps[1..][i] == steps[i + 1];
  }

  lemma NotCombineBranch(step: string)
    requires !StartsWith(step, "combine:")
    ensures !ParseStep(step).Combine?
  {
  }

  lemma FoldCons(s: string, steps: seq<string>, ctx: Record, reformat: Reformat)
    requires steps != []
    ensures Fold(s, steps, ctx, reformat) == Fold(StepResult(s, steps[0], ctx, reformat), steps[1..], ctx, reformat)
  {
  }

  lemma AsWrittenFoldCons(s: string, steps: seq<string>, bound: bool, ctx: Record, reformat: Reformat)
    requires steps != []
    ensures var r := AsWrittenStep(s, steps[0], bound, ctx, reformat);
      AsWrittenFold(s, steps, bound, ctx, reformat)
      == if r.None? then None else AsWrittenFold(r.value.0, steps[1..], r.value.1, ctx, reformat)
  {
  }

  lemma AsWrittenDigitsBranch(s: string, step: string, bound: bool, ctx: Record, reformat: Reformat)
    requires ParseStep(step) == Digits
    ensures AsWrittenStep(s, step, bound, ctx, reformat) == if bound then Some((OnlyDigits(s), bound)) else None
  {
  }

  lemma AsWrittenAgeBranch(s: string, step: string, bound: bool, ctx: Record, reformat: Reformat)
    requires ParseStep(step) == ExtractAge
    ensures AsWrittenStep(s, step, bound, ctx, reformat) == Some((Age.Extract(s), true))
  {
  }

  lemma AsWrittenOtherBranch(s: string, step: string, bound: bool, ctx: Record, reformat: Reformat)
    requires ParseStep(step) != Digits && ParseStep(step) != ExtractAge && !ParseStep(step).Combine?
    ensures AsWrittenStep(s, step, bound, ctx, reformat) == Some((StepResult(s, step, ctx, reformat), bound))
  {
  }

  /** Steps that start with `digits` raise before anything binds `re`. */
  lemma DigitsFirst(steps: seq<string>)
    requires steps != [] && steps[0] == "digits"
    ensures DigitsBeforeImport(steps)
  {
    assert steps[0] == "digits";
  }

  /** Steps that start with `extract_age` bind `re` before any `digits`. */
  lemma NotBeforeImport(steps: seq<string>)
    requires steps != [] && steps[0] == "extract_age"
    ensures !DigitsBeforeImport(steps)
  {
    forall j | 0 <= j < |steps| && steps[j] == "digits"
      ensures exists i | 0 <= i < j :: steps[i] == "extract_age"
    {
      assert j != 0;
      assert steps[0] == "extract_age";
    }
  }

  /** A first step that is neither `digits` nor `extract_age` does not decide
      the question. */
  lemma DigitsBeforeImportTail(steps: seq<string>)
    requires steps != [] && steps[0] != "digits" && steps[0] != "extract_age"
    ensures DigitsBeforeImport(steps) <==> DigitsBeforeImport(steps[1..])
  {
    var tail := steps[1..];
    if DigitsBeforeImport(steps) {
      var j :| 0 <= j < |steps| && steps[j] == "digits" && forall i | 0 <= i < j :: steps[i] != "extract_age";
      assert j > 0;
      assert tail[j - 1] == "digits";
      forall i | 0 <= i < j - 1
        ensures tail[i] != "extract_age"
      {
        assert tail[i] == steps[i + 1];
      }
    }
    if DigitsBeforeImport(tail) {
      var j :| 0 <= j < |tail| && tail[j] == "digits" && forall i | 0 <= i < j :: tail[i] != "extract_age";
      assert steps[j + 1] == "digits";
      forall i | 0 <= i < j + 1
        ensures steps[i] != "extract_age"
      {
        if i > 0 {
          assert steps[i] == tail[i - 1];
        }
      }
    }
  }

  /** `apply_transforms` as written, for a spec without `combine:` steps: it
      raises exactly when `digits` comes before every `extract_age`, and
      otherwise returns the intended result. */
  lemma AsWrittenTransformOutcome(value: Option<string>, spec: string, ctx: Record, reformat: Reformat)
    requires NoCombine(StepsOf(spec))
    ensures AsWrittenTransform(value, spec, ctx, reformat)
            == if spec != [] && DigitsBeforeImport(StepsOf(spec)) then None
               else Some(Transform(value, spec, ctx, reformat))
  {
    if spec != [] {
      var s := Strip(if value.Some? then value.value else "");
      AsWrittenFoldOutcome(s, StepsOf(spec), false, ctx, reformat);
    }
  }

  /** `digits` as a spec of its own. */
  lemma StepsOfDigits(t: string)
    requires ParseStep(t) == Digits
    ensures StepsOf("|" + t) == [t]
  {
    DigitsStep(t);
    StepsOfOne(t);
  }

  /** `|digits` alone raises as written, whatever the value; the intended
      pipeline keeps the value's digits. */
  lemma DigitsAloneRaises(v: string, t: string, ctx: Record, reformat: Reformat)
    requires ParseStep(t) == Digits
    ensures AsWrittenTransform(Some(v), "|" + t, ctx, reformat).None?
    ensures Transform(Some(v), "|" + t, ctx, reformat) == OnlyDigits(Strip(v))
  {
    var s := Strip(v);
    StepsOfDigits(t);
    NamedBranch(s, t, ctx, reformat);
    FoldCons(s, [t], ctx, reformat);
    assert [t][1..] == [];
    AsWrittenDigitsBranch(s, t, false, ctx, reformat);
    AsWrittenFoldCons(s, [t], false, ctx, reformat);
  }

  /** `{{phone|digits}}` for a phone number written as digit groups joined by a
      separator such as `-` (`010-1234-5678`): as written the fill raises; the
      intended step gives the digits alone (`01012345678`). */
  lemma PhoneDigits(a: string, b: string, c: string, d: char, t: string, ctx: Record, reformat: Reformat)
    requires a != [] && forall i | 0 <= i < |a| :: IsDigit(a[i])
    requires forall i | 0 <= i < |b| :: IsDigit(b[i])
    requires c != [] && forall i | 0 <= i < |c| :: IsDigit(c[i])
    requires !IsDigit(d) && ParseStep(t) == Digits
    ensures AsWrittenTransform(Some(a + [d] + b + [d] + c), "|" + t, ctx, reformat).None?
    ensures Transform(Some(a + [d] + b + [d] + c), "|" + t, ctx, reformat) == a + b + c
  {
    var v := a + [d] + b + [d] + c;
    DigitsAloneRaises(v, t, ctx, reformat);
    PhoneValue(a, b, c, d);
  }

  lemma PhoneValue(a: string, b: string, c: string, d: char)
    requires a != [] && forall i | 0 <= i < |a| :: IsDigit(a[i])
    requires forall i | 0 <= i < |b| :: IsDigit(b[i])
    requires c != [] && forall i | 0 <= i < |c| :: IsDigit(c[i])
    requires !IsDigit(d)
    ensures OnlyDigits(Strip(a + [d] + b + [d] + c)) == a + b + c
  {
    var v := a + [d] + b + [d] + c;
    assert v[0] == a[0] && v[|v| - 1] == c[|c| - 1];
    KeptByStrip(v);
    GroupsDigits(a, b, c, d);
  }

  lemma GroupsDigits(a: string, b: string, c: string, d: char)
    requires forall i | 0 <= i < |a| :: IsDigit(a[i])
    requires forall i | 0 <= i < |b| :: IsDigit(b[i])
    requires forall i | 0 <= i < |c| :: IsDigit(c[i])
    requires !IsDigit(d)
    ensures OnlyDigits(a + [d] + b + [d] + c) == a + b + c
  {
    var x := a + [d];
    var y := x + b;
    var z := y + [d];
    OnlyDigitsExtremes(a);
    AppendNonDigit(a, d);
    assert OnlyDigits(x) == a;
    AppendDigits(x, b);
    AppendNonDigit(y, d);
    assert OnlyDigits(z) == a + b;
    AppendDigits(z, c);
  }

  lemma AppendDigits(x: string, b: string)
    requires forall i | 0 <= i < |b| :: IsDigit(b[i])
    ensures OnlyDigits(x + b) == OnlyDigits(x) + b
  {
    OnlyDigitsExtremes(b);
    OnlyDigitsConcat(x, b);
  }

  lemma AppendNonDigit(x: string, d: char)
    requires !IsDigit(d)
    ensures OnlyDigits(x + [d]) == OnlyDigits(x)
  {
    OnlyDigitsExtremes([d]);
    OnlyDigitsConcat(x, [d]);
  }

  /** An `extract_age` step earlier in the same loop binds `re`, and `digits`
      then works as intended. */
  lemma AgeThenDigits(s: string, ctx: Record, reformat: Reformat)
    ensures AsWrittenFold(s, ["extract_age", "digits"], false, ctx, reformat)
            == Some(OnlyDigits(Age.Extract(s)))
  {
    var steps := ["extract_age", "digits"];
    Differs("extract_age", "combine:", 0);
    Differs("digits", "combine:", 0);
    assert NoCombine(steps);
    NotBeforeImport(steps);
    AsWrittenFoldOutcome(s, steps, false, ctx, reformat);
    ParseNamed();
    NamedBranch(s, "extract_age", ctx, reformat);
    NamedBranch(Age.Extract(s), "digits", ctx, reformat);
    FoldCons(s, steps, ctx, reformat);
    assert steps[1..] == ["digits"];
    FoldCons(Age.Extract(s), ["digits"], ctx, reformat);
    assert ["digits"][1..] == [];
  }

  /** Text without `-` holds no `->`. */
  lemma {:induction false} NoArrow(t: string)
    requires '-' !in t
    ensures !Contains(t, "->")
    decreases |t|
  {
    if |t| >= 2 {
      assert t[..2][0] == t[0];
      NoArrow(t[1..]);
    }
  }

  /** Inside `combine:FIELD,SEP,digits` the nested call raises and the error is
      caught: the value stays as it was ... */
  lemma NestedDigitsIsCaught(s: string, field: string, sep: string, t: string, ctx: Record, reformat: Reformat)
    requires ',' !in field && ',' !in sep && ParseStep(t) == Digits
    ensures AsWrittenCombine(s, field + "," + sep + "," + t, ctx, reformat) == s
  {
    DigitsStep(t);
    SplitThree(field, sep, t);
    DigitsAloneRaises(Strip(Lookup(ctx, Strip(field))), t, ctx, reformat);
    AsWrittenCombineCaught(s, field + "," + sep + "," + t, field, sep, t, ctx, reformat);
  }

  /** ... where the intended step joins the other field's digits to it. */
  lemma NestedDigitsIntended(s: string, field: string, sep: string, t: string, ctx: Record, reformat: Reformat)
    requires ',' !in field && ',' !in sep && ParseStep(t) == Digits
    ensures CombineStep(s, field + "," + sep + "," + t, ctx, reformat)
            == JoinNonEmpty(s, Strip(sep), OnlyDigits(Strip(Lookup(ctx, Strip(field)))))
  {
    DigitsStep(t);
    var other := Strip(Lookup(ctx, Strip(field)));
    DigitsAloneRaises(other, t, ctx, reformat);
    StripIdempotent(Lookup(ctx, Strip(field)));
    CombineNested(s, field, sep, t, ctx, reformat);
  }

  lemma DigitsArgument()
    ensures '|' !in "digits" && ',' !in "digits" && !Contains("digits", "->")
    ensures !Blank("digits") && Strip("digits") == "digits"
  {
    var t := "digits";
    assert '|' !in t && ',' !in t && '-' !in t;
    assert t[0] == 'd' && t[|t| - 1] == 's';
    KeptByStrip(t);
    NoArrow(t);
  }

  /** What the step `digits` is, as a string: the only step that parses as
      `Digits`. */
  lemma DigitsStep(t: string)
    requires ParseStep(t) == Digits
    ensures '|' !in t && ',' !in t && !Contains(t, "->") && !Blank(t) && Strip(t) == t
  {
    ParseNamedOnly(t);
    DigitsArgument();
  }

  lemma AsWrittenCombineCaught(s: string, args: string, field: string, sep: string, third: string,
                               ctx: Record, reformat: Reformat)
    requires SplitOn(args, ",") == [field, sep, third] && !Contains(Strip(third), "->")
    requires AsWrittenTransform(Some(Strip(Lookup(ctx, Strip(field)))), "|" + Strip(third), ctx, reformat).None?
    ensures AsWrittenCombine(s, args, ctx, reformat) == s
  {
  }
}
