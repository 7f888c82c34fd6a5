/**
  Placeholder substitution: `replace_placeholders_in_string` and
  `replace_placeholders_in_cell` (jopApplication/excel_template_filler.py).
  Each match of the placeholder pattern is replaced by the transformed value
  of its field, looked up in the row with "" for a missing column; the text
  between matches is copied.
 */
module Substitution {
  import opened Wrappers
  import opened Text
  import opened Scanner
  import opened Pipeline

  /** A cell value: text, or a value of another type (a number, a date, an
      empty cell), which the substitution passes through untouched. */
  datatype CellValue = Str(text: string) | Other(id: nat)

  /** What `replace_func` returns for one match. */
  function Replacement(m: Match, ctx: Record, reformat: Reformat): string
    requires WellFormed(m)
  {
    Transform(Some(Lookup(ctx, Field(m))), Pipe(m), ctx, reformat)
  }

  /** The pieces of a scan with each match replaced. */
  function Render(ps: seq<Piece>, ctx: Record, reformat: Reformat): string
    requires Canonical(ps)
    decreases |ps|
  {
    if ps == [] then ""
    else
      (match ps[0]
       case Literal(c) => [c]
       case Placeholder(m) => Replacement(m, ctx, reformat))
      + Render(ps[1..], ctx, reformat)
  }

  /** `placeholder_pattern.sub(replace_func, text)` */
  function Substitute(t: string, ctx: Record, reformat: Reformat): string {
    ScanCanonical(t);
    Render(Scan(t), ctx, reformat)
  }

  /** `re.sub` reads the text from the left: a match at the start is replaced
      and the scan goes on after it ... */
  lemma SubstituteMatchStep(t: string, m: Match, ctx: Record, reformat: Reformat)
    requires MatchPrefix(t) == Some(m)
    ensures |Spelling(m)| <= |t|
    ensures Substitute(t, ctx, reformat)
            == Replacement(m, ctx, reformat) + Substitute(t[|Spelling(m)|..], ctx, reformat)
  {
    ScanCanonical(t);
    assert Scan(t)[1..] == Scan(t[|Spelling(m)|..]);
  }

  /** ... otherwise the first character is copied and the scan goes on after
      it. */
  lemma SubstituteLiteralStep(t: string, ctx: Record, reformat: Reformat)
    requires t != [] && MatchPrefix(t).None?
    ensures Substitute(t, ctx, reformat) == [t[0]] + Substitute(t[1..], ctx, reformat)
  {
    ScanCanonical(t);
    assert Scan(t)[1..] == Scan(t[1..]);
  }

  /** A placeholder the pattern can spell is replaced, whatever follows it. */
  lemma SubstitutePlaceholder(m: Match, rest: string, ctx: Record, reformat: Reformat)
    requires WellFormed(m)
    ensures Substitute(Spelling(m) + rest, ctx, reformat)
            == Replacement(m, ctx, reformat) + Substitute(rest, ctx, reformat)
  {
    var t := Spelling(m) + rest;
    MatchPrefixComplete(m, rest);
    SubstituteMatchStep(t, m, ctx, reformat);
    assert t[|Spelling(m)|..] == rest;
  }

  /** Text in which the pattern matches at no position is copied unchanged. */
  lemma {:induction false} SubstituteUnmatched(t: string, ctx: Record, reformat: Reformat)
    requires forall i | 0 <= i < |t| :: MatchPrefix(t[i..]).None?
    ensures Substitute(t, ctx, reformat) == t
    decreases |t|
  {
    if t != [] {
      assert t[0..] == t;
      SubstituteLiteralStep(t, ctx, reformat);
      forall i | 0 <= i < |t[1..]|
        ensures MatchPrefix(t[1..][i..]).None?
      {
        assert t[1..][i..] == t[i + 1..];
      }
      SubstituteUnmatched(t[1..], ctx, reformat);
      assert [t[0]] + t[1..] == t;
    }
  }

  /** Text in which `{{` never occurs is copied unchanged. */
  lemma SubstituteWithoutPlaceholders(t: string, ctx: Record, reformat: Reformat)
    requires forall i | 0 <= i && i + 1 < |t| :: !(t[i] == '{' && t[i + 1] == '{')
    ensures Substitute(t, ctx, reformat) == t
  {
    NoBracesNoMatch(t);
    SubstituteUnmatched(t, ctx, reformat);
  }

  /** `{{}}` names no field, so the pattern does not match it and it stays. */
  lemma EmptyBracesKept(ctx: Record, reformat: Reformat)
    ensures Substitute("{{}}", ctx, reformat) == "{{}}"
  {
    var t := "{{}}";
    forall i | 0 <= i < |t|
      ensures MatchPrefix(t[i..]).None?
    {
      if i == 0 {
        assert t[2..][0] == '}';
        assert Leading(t[2..], IsNameChar) == 0;
      } else {
        assert t[i..][0] == '}' || t[i..][1] == '}';
      }
    }
    SubstituteUnmatched(t, ctx, reformat);
  }

  /** A placeholder whose field is missing from the row and that has no pipe
      becomes "". */
  lemma MissingFieldIsEmpty(m: Match, ctx: Record, reformat: Reformat)
    requires WellFormed(m) && m.pipeArg.None? && Strip(m.raw) !in ctx
    ensures Replacement(m, ctx, reformat) == ""
  {
    FieldIsStrippedName(m);
  }

  /** A placeholder without a pipe becomes its field's value, stripped. */
  lemma PlainPlaceholder(m: Match, ctx: Record, reformat: Reformat)
    requires WellFormed(m) && m.pipeArg.None? && Strip(m.raw) in ctx
    ensures Replacement(m, ctx, reformat) == Strip(ctx[Strip(m.raw)])
  {
    FieldIsStrippedName(m);
  }

  /** `{{FIELD|default:V}}` for a missing field becomes V. */
  lemma MissingFieldDefault(raw: string, v: string, ctx: Record, reformat: Reformat)
    requires WellFormed(Match(raw, Some("default:" + v)))
    requires Strip(raw) !in ctx && '|' !in v && (v == [] || !IsSpace(v[|v| - 1]))
    ensures Replacement(Match(raw, Some("default:" + v)), ctx, reformat) == v
  {
    var t := "default:" + v;
    ReplacementOfPipe(raw, t, ctx, reformat);
    assert Lookup(ctx, Strip(raw)) == "";
    DefaultStepText(v);
    TransformOneStep("", t, ctx, reformat);
    assert Strip("") == "";
    DefaultStepResult("", v, ctx, reformat);
  }

  /** The replacement of a placeholder with a pipe, field name stripped. */
  lemma ReplacementOfPipe(raw: string, a: string, ctx: Record, reformat: Reformat)
    requires WellFormed(Match(raw, Some(a)))
    ensures Replacement(Match(raw, Some(a)), ctx, reformat)
            == Transform(Some(Lookup(ctx, Strip(raw))), "|" + a, ctx, reformat)
  {
    FieldIsStrippedName(Match(raw, Some(a)));
  }

  lemma DefaultStepText(v: string)
    requires '|' !in v && (v == [] || !IsSpace(v[|v| - 1]))
    ensures var t := "default:" + v; '|' !in t && !Blank(t) && Strip(t) == t
  {
    var t := "default:" + v;
    assert t[0] == 'd' && t[|t| - 1] == (if v == [] then ':' else v[|v| - 1]);
    assert '|' !in t by {
      forall i | 0 <= i < |t|
        ensures t[i] != '|'
      {
        if i >= 8 {
          assert t[i] == v[i - 8];
        }
      }
    }
    KeptByStrip(t);
  }


  /** `replace_placeholders_in_string`: text is substituted, any other value
      is returned as it is. */
  function ReplaceInString(v: CellValue, ctx: Record, reformat: Reformat): (r: CellValue)
    ensures v.Other? ==> r == v
    ensures v.Str? ==> r.Str?
  {
    match v
    case Str(t) => Str(Substitute(t, ctx, reformat))
    case Other(_) => v
  }

  /** `replace_func`: the field's value, or "" for a missing column, through
      the match's pipe spec. */
  method ReplaceMatch(m: Match, ctx: Record, reformat: Reformat) returns (r: string)
    requires WellFormed(m)
    ensures r == Replacement(m, ctx, reformat)
  {
    var field := Field(m);
    var value := if field in ctx then ctx[field] else "";
    r := ApplyTransforms(Some(value), Pipe(m), ctx, reformat);
  }

  lemma AppendAssoc(a: string, b: string, c: string)
    ensures (a + b) + c == a + (b + c)
  {
  }

  /** One step of `re.sub` at the start of `u`: a match is replaced through
      `replace_func`, or else one character is copied; `n` is how far the scan
      advances. */
  method SubstituteStep(u: string, ctx: Record, reformat: Reformat) returns (out: string, n: nat)
    requires u != []
    ensures 1 <= n <= |u|
    ensures Substitute(u, ctx, reformat) == out + Substitute(u[n..], ctx, reformat)
  {
    match MatchPrefix(u)
    case Some(m) =>
      SubstituteMatchStep(u, m, ctx, reformat);
      out := ReplaceMatch(m, ctx, reformat);
      n := |Spelling(m)|;
    case None =>
      SubstituteLiteralStep(u, ctx, reformat);
      out := [u[0]];
      n := 1;
  }

  /** `re.sub` with `replace_func` as a loop over the text. */
  method SubstituteText(t: string, ctx: Record, reformat: Reformat) returns (r: string)
    ensures r == Substitute(t, ctx, reformat)
  {
    r := "";
    var rest := t;
    while rest != []
      invariant r + Substitute(rest, ctx, reformat) == Substitute(t, ctx, reformat)
      decreases |rest|
    {
      var out, n := SubstituteStep(rest, ctx, reformat);
      AppendAssoc(r, out, Substitute(rest[n..], ctx, reformat));
      r := r + out;
      rest := rest[n..];
    }
    assert r + Substitute(rest, ctx, reformat) == r;
  }

  /** A worksheet cell. `writes` counts the assignments to `value`, so that a
      contract can say when the cell is left alone. */
  class Cell {
    var value: CellValue
    ghost var writes: nat

    constructor (v: CellValue)
      ensures value == v && writes == 0
    {
      value := v;
      writes := 0;
    }
  }

  /** `replace_placeholders_in_cell`: a text cell gets the substituted text,
      assigned only when it differs; any other cell is left alone. */
  method ReplaceInCell(cell: Cell, ctx: Record, reformat: Reformat)
    modifies cell
    ensures cell.value == ReplaceInString(old(cell.value), ctx, reformat)
    ensures cell.writes == old(cell.writes) + (if cell.value != old(cell.value) then 1 else 0)
  {
    match cell.value
    case Other(_) =>
      return;
    case Str(original) =>
      var newValue := SubstituteText(original, ctx, reformat);
      if newValue != original {
        cell.value := Str(newValue);
        cell.writes := cell.writes + 1;
      }
  }
}
