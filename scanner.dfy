/**
  The placeholder pattern of the template filler,

    \{\{\s*([^}|]+)\s*(\|[^}]*)?\}\}

  read as a matcher on the start of a string, and the left-to-right scan that
  `re.sub` performs with it.

  After `{{` the two `\s*` and `([^}|]+)` can only consume characters that are
  neither `}` nor `|`, and what follows them must be `|` or `}`; so together
  they consume exactly the maximal run of such characters (the "raw name"),
  which must be non-empty. After it come either `}}`, or `|`, the maximal run
  of non-`}` characters (the "pipe argument") and `}}`. No backtracking can
  produce any other match, so a match at a position is unique.
 */
module Scanner {
  import opened Wrappers
  import opened Text

  /** A character of `[^}|]`. */
  predicate IsNameChar(c: char) {
    c != '}' && c != '|'
  }

  /** A character of `[^}]`. */
  predicate IsPipeChar(c: char) {
    c != '}'
  }

  /** One match: the raw name between `{{` and the pipe or the closing braces,
      and the text after `|` when group 2 took part. */
  datatype Match = Match(raw: string, pipeArg: Option<string>)

  /** The matches the pattern can make. */
  predicate WellFormed(m: Match) {
    && m.raw != []
    && (forall i | 0 <= i < |m.raw| :: IsNameChar(m.raw[i]))
    && (m.pipeArg.Some? ==> forall i | 0 <= i < |m.pipeArg.value| :: IsPipeChar(m.pipeArg.value[i]))
  }

  /** The text a match spans. */
  function Spelling(m: Match): string {
    "{{" + m.raw + (if m.pipeArg.Some? then "|" + m.pipeArg.value else "") + "}}"
  }

  /** Group 1: the raw name without the whitespace the first `\s*` takes; when
      the raw name is all whitespace the group keeps its last character, since
      `[^}|]+` needs one. */
  function Group1(m: Match): (g: string)
    requires m.raw != []
    ensures g != [] && |g| <= |m.raw| && g == m.raw[|m.raw| - |g|..]
  {
    var w := Leading(m.raw, IsSpace);
    if w == |m.raw| then m.raw[|m.raw| - 1..] else m.raw[w..]
  }

  /** Group 2, which includes its `|`. */
  function Group2(m: Match): (g: Option<string>)
    ensures g.Some? <==> m.pipeArg.Some?
    ensures g.Some? ==> g.value == "|" + m.pipeArg.value
  {
    match m.pipeArg
    case None => None
    case Some(p) => Some("|" + p)
  }

  /** The field name the substitution looks up: `match.group(1).strip()`. */
  function Field(m: Match): string
    requires m.raw != []
  {
    Strip(Group1(m))
  }

  /** The pipe spec the substitution applies: `match.group(2) or ""`. */
  function Pipe(m: Match): (p: string)
    ensures p == [] <==> m.pipeArg.None?
    ensures p != [] ==> p[0] == '|' && p[1..] == m.pipeArg.value
  {
    match Group2(m)
    case None => ""
    case Some(g) => g
  }

  /** The match the pattern makes at the start of `t`, if any. */
  function MatchPrefix(t: string): (r: Option<Match>)
    ensures r.Some? ==> WellFormed(r.value) && StartsWith(t, Spelling(r.value))
  {
    if !StartsWith(t, "{{") then None
    else
      var p := 2 + Leading(t[2..], IsNameChar);
      if p == 2 || p >= |t| then None
      else if t[p] == '}' then
        if p + 1 < |t| && t[p + 1] == '}' then
          NameSpelling(t, p);
          Some(Match(t[2..p], None))
        else None
      else
        var q := p + 1 + Leading(t[p + 1..], IsPipeChar);
        if q + 1 < |t| && t[q] == '}' && t[q + 1] == '}' then
          PipeSpelling(t, p, q);
          Some(Match(t[2..p], Some(t[p + 1..q])))
        else None
  }

  lemma NameSpelling(t: string, p: nat)
    requires StartsWith(t, "{{") && p == 2 + Leading(t[2..], IsNameChar)
    requires 2 < p && p + 1 < |t| && t[p] == '}' && t[p + 1] == '}'
    ensures WellFormed(Match(t[2..p], None))
    ensures StartsWith(t, Spelling(Match(t[2..p], None)))
  {
    var m := Match(t[2..p], None);
    forall i | 0 <= i < p - 2
      ensures IsNameChar(m.raw[i])
    {
      assert m.raw[i] == t[2..][i];
    }
    assert t[..p + 2] == t[..2] + t[2..p] + t[p..p + 2];
  }

  lemma PipeSpelling(t: string, p: nat, q: nat)
    requires StartsWith(t, "{{") && p == 2 + Leading(t[2..], IsNameChar)
    requires 2 < p < |t| && t[p] == '|'
    requires q == p + 1 + Leading(t[p + 1..], IsPipeChar)
    requires q + 1 < |t| && t[q] == '}' && t[q + 1] == '}'
    ensures WellFormed(Match(t[2..p], Some(t[p + 1..q])))
    ensures StartsWith(t, Spelling(Match(t[2..p], Some(t[p + 1..q]))))
  {
    PipeChars(t, p, q);
    PipePrefix(t, p, q, t[2..p], t[p + 1..q]);
    SpellingPipe(t[2..p], t[p + 1..q]);
  }

  lemma PipeChars(t: string, p: nat, q: nat)
    requires 2 < p < q <= |t| && p == 2 + Leading(t[2..], IsNameChar)
    requires q == p + 1 + Leading(t[p + 1..], IsPipeChar)
    ensures WellFormed(Match(t[2..p], Some(t[p + 1..q])))
  {
    var raw, a := t[2..p], t[p + 1..q];
    forall i | 0 <= i < |raw|
      ensures IsNameChar(raw[i])
    {
      assert raw[i] == t[2..][i];
    }
    forall i | 0 <= i < |a|
      ensures IsPipeChar(a[i])
    {
      assert a[i] == t[p + 1..][i];
    }
  }

  lemma PipePrefix(t: string, p: nat, q: nat, raw: string, a: string)
    requires StartsWith(t, "{{") && 2 < p < q && q + 1 < |t|
    requires t[p] == '|' && t[q] == '}' && t[q + 1] == '}'
    requires raw == t[2..p] && a == t[p + 1..q]
    ensures StartsWith(t, "{{" + (raw + ("|" + (a + "}}"))))
  {
    var sp := "{{" + (raw + ("|" + (a + "}}")));
    assert |sp| == q + 2;
    assert t[0] == '{' && t[1] == '{' by {
      assert t[..2] == "{{";
    }
    forall i | 0 <= i < q + 2
      ensures sp[i] == t[i]
    {
      if 2 <= i < p {
        assert sp[i] == raw[i - 2];
      } else if p + 1 <= i < q {
        assert sp[i] == a[i - p - 1];
      }
    }
    assert t[..q + 2] == sp;
  }

  lemma SpellingPipe(raw: string, a: string)
    ensures Spelling(Match(raw, Some(a))) == "{{" + (raw + ("|" + (a + "}}")))
  {
  }

  /** The pattern matches every placeholder it can spell, whatever follows. */
  lemma MatchPrefixComplete(m: Match, rest: string)
    requires WellFormed(m)
    ensures MatchPrefix(Spelling(m) + rest) == Some(m)
  {
    if m.pipeArg.None? {
      CompleteName(m.raw, rest);
    } else {
      CompletePipe(m.raw, m.pipeArg.value, rest);
    }
  }

  lemma CompleteName(raw: string, rest: string)
    requires WellFormed(Match(raw, None))
    ensures MatchPrefix(Spelling(Match(raw, None)) + rest) == Some(Match(raw, None))
  {
    var t := Spelling(Match(raw, None)) + rest;
    var n := |raw|;
    assert t == "{{" + raw + "}}" + rest;
    assert t[..2] == "{{";
    assert t[2..] == raw + ("}}" + rest);
    LeadingOfConcat(raw, "}}" + rest, IsNameChar);
    assert t[2..2 + n] == raw;
    assert t[2 + n] == '}' && t[3 + n] == '}';
  }

  /** What `MatchPrefix` computes once the two runs are known. */
  lemma MatchPrefixPipe(t: string, p: nat, q: nat, raw: string, a: string)
    requires StartsWith(t, "{{") && p == 2 + Leading(t[2..], IsNameChar)
    requires 2 < p < |t| && t[p] == '|'
    requires q == p + 1 + Leading(t[p + 1..], IsPipeChar)
    requires q + 1 < |t| && t[q] == '}' && t[q + 1] == '}'
    requires raw == t[2..p] && a == t[p + 1..q]
    ensures MatchPrefix(t) == Some(Match(raw, Some(a)))
  {
  }

  lemma CompletePipe(raw: string, a: string, rest: string)
    requires WellFormed(Match(raw, Some(a)))
    ensures MatchPrefix(Spelling(Match(raw, Some(a))) + rest) == Some(Match(raw, Some(a)))
  {
    var t := "{{" + (raw + ("|" + (a + ("}}" + rest))));
    assert Spelling(Match(raw, Some(a))) + rest == t;
    CompletePipeAt(raw, a, rest, t);
  }

  lemma CompletePipeAt(raw: string, a: string, rest: string, t: string)
    requires WellFormed(Match(raw, Some(a)))
    requires t == "{{" + (raw + ("|" + (a + ("}}" + rest))))
    ensures MatchPrefix(t) == Some(Match(raw, Some(a)))
  {
    var n := |raw|;
    NamePartOf(raw, a + ("}}" + rest), t);
    PipePartOf(t, 3 + n, a, rest);
    MatchPrefixPipe(t, 2 + n, 3 + n + |a|, raw, a);
  }

  /** The opening braces and the raw name of a spelled placeholder with a
      pipe. */
  lemma NamePartOf(raw: string, v: string, t: string)
    requires forall i | 0 <= i < |raw| :: IsNameChar(raw[i])
    requires t == "{{" + (raw + ("|" + v))
    ensures StartsWith(t, "{{") && Leading(t[2..], IsNameChar) == |raw| && 2 + |raw| < |t|
    ensures t[2..2 + |raw|] == raw && t[2 + |raw|] == '|' && t[3 + |raw|..] == v
  {
    assert t[..2] == "{{";
    assert t[2..] == raw + ("|" + v);
    RunBefore(t, 2, raw, "|" + v, IsNameChar);
    assert ("|" + v)[1..] == v;
  }

  /** The pipe argument and the closing braces. */
  lemma PipePartOf(t: string, k: nat, a: string, rest: string)
    requires forall i | 0 <= i < |a| :: IsPipeChar(a[i])
    requires k <= |t| && t[k..] == a + ("}}" + rest)
    ensures Leading(t[k..], IsPipeChar) == |a| && k + |a| + 1 < |t|
    ensures t[k..k + |a|] == a && t[k + |a|] == '}' && t[k + |a| + 1] == '}'
  {
    RunBefore(t, k, a, "}}" + rest, IsPipeChar);
    assert t[k + |a| + 1..][0] == ("}}" + rest)[1];
  }

  /** A run of characters that satisfy `p`, followed by one that does not,
      where the text `t` has it from `k` on. */
  lemma RunBefore(t: string, k: nat, r: string, y: string, p: char -> bool)
    requires k <= |t| && t[k..] == r + y
    requires forall i | 0 <= i < |r| :: p(r[i])
    requires y != [] && !p(y[0])
    ensures Leading(t[k..], p) == |r| && k + |r| < |t|
    ensures t[k..k + |r|] == r && t[k + |r|] == y[0] && t[k + |r| + 1..] == y[1..]
  {
    LeadingOfConcat(r, y, p);
    assert t[k..][..|r|] == r;
    assert t[k..][|r|] == y[0];
    assert t[k..][|r| + 1..] == y[1..];
  }

  /** No match at the start of `t` means no placeholder is spelled there. */
  lemma MatchPrefixNone(t: string, m: Match)
    requires MatchPrefix(t).None? && WellFormed(m)
    ensures !StartsWith(t, Spelling(m))
  {
    var n := |Spelling(m)|;
    if n <= |t| {
      MatchPrefixComplete(m, t[n..]);
      assert t == t[..n] + t[n..];
    }
  }

  /** The field name is the raw name with its surrounding whitespace removed:
      the second `\s*` and the `strip()` in the substitution take whatever
      whitespace group 1 keeps at its end. */
  lemma FieldIsStrippedName(m: Match)
    requires m.raw != []
    ensures Field(m) == Strip(m.raw)
  {
    var w := Leading(m.raw, IsSpace);
    if w == |m.raw| {
      BlankName(m.raw);
    } else {
      StrippedTail(m.raw, w);
    }
  }

  /** An all-whitespace name: its last character strips to "" as it does. */
  lemma BlankName(raw: string)
    requires raw != [] && Leading(raw, IsSpace) == |raw|
    ensures Strip(raw[|raw| - 1..]) == [] && Strip(raw) == []
  {
    assert Blank(raw);
    var g := raw[|raw| - 1..];
    assert g[0] == raw[|raw| - 1];
    assert Blank(g);
  }

  /** Stripping the name from its first non-space character on gives what
      stripping the whole name gives. */
  lemma StrippedTail(raw: string, w: nat)
    requires w == Leading(raw, IsSpace) < |raw|
    ensures Strip(raw[w..]) == Strip(raw)
  {
    var g := raw[w..];
    LeadingNone(g, IsSpace);
    assert g[0..] == g;
  }

  // ---------------------------------------------------------------------------
  // The scan of `re.sub`

  /** A piece of scanned text: a character copied as it is, or a match. */
  datatype Piece = Literal(c: char) | Placeholder(m: Match)

  /** The text one piece spans. */
  function PieceText(p: Piece): string {
    match p
    case Literal(c) => [c]
    case Placeholder(m) => Spelling(m)
  }

  /** The text a sequence of pieces spans. */
  function Spell(ps: seq<Piece>): string
    decreases |ps|
  {
    if ps == [] then "" else PieceText(ps[0]) + Spell(ps[1..])
  }

  lemma SpellCons(p: Piece, ps: seq<Piece>)
    ensures Spell([p] + ps) == PieceText(p) + Spell(ps)
  {
    assert ([p] + ps)[1..] == ps;
  }

  /** `re.sub`'s scan: try the pattern at the current position; on a match take
      it and go on after it, otherwise copy one character. Matches are never
      empty, so the scan always advances. */
  function Scan(t: string): seq<Piece>
    decreases |t|
  {
    if t == [] then []
    else
      match MatchPrefix(t)
      case Some(m) => [Placeholder(m)] + Scan(t[|Spelling(m)|..])
      case None => [Literal(t[0])] + Scan(t[1..])
  }

  /** The pieces `re.sub` would cut a text into: every placeholder is one the
      pattern can make, and no match starts at a copied character. */
  predicate Canonical(ps: seq<Piece>)
    decreases |ps|
  {
    ps == [] ||
    (&& (ps[0].Literal? ==> MatchPrefix(Spell(ps)).None?)
     && (ps[0].Placeholder? ==> WellFormed(ps[0].m))
     && Canonical(ps[1..]))
  }

  /** The scan loses and adds nothing. */
  lemma {:induction false} ScanSpells(t: string)
    ensures Spell(Scan(t)) == t
    decreases |t|
  {
    if t != [] {
      match MatchPrefix(t)
      case Some(m) =>
        var n := |Spelling(m)|;
        ScanSpells(t[n..]);
        SpellCons(Placeholder(m), Scan(t[n..]));
        assert t == t[..n] + t[n..];
      case None =>
        ScanSpells(t[1..]);
        SpellCons(Literal(t[0]), Scan(t[1..]));
        assert t == [t[0]] + t[1..];
    }
  }

  /** The scan cuts a text the way `re.sub` does. */
  lemma {:induction false} ScanCanonical(t: string)
    ensures Canonical(Scan(t))
    decreases |t|
  {
    if t != [] {
      var ps := Scan(t);
      ScanSpells(t);
      match MatchPrefix(t)
      case Some(m) =>
        ScanCanonical(t[|Spelling(m)|..]);
        assert ps[1..] == Scan(t[|Spelling(m)|..]);
      case None =>
        ScanCanonical(t[1..]);
        assert ps[1..] == Scan(t[1..]);
    }
  }

  /** There is only one such way: the scan recovers any canonical cut from the
      text it spans. */
  lemma {:induction false} ScanOfSpell(ps: seq<Piece>)
    requires Canonical(ps)
    ensures Scan(Spell(ps)) == ps
    decreases |ps|
  {
    if ps != [] {
      ScanOfSpell(ps[1..]);
      ScanOfSpellHead(ps);
      assert ps == [ps[0]] + ps[1..];
    }
  }

  /** The scan takes the first piece of a canonical cut as it is. */
  lemma ScanOfSpellHead(ps: seq<Piece>)
    requires ps != [] && Canonical(ps)
    ensures Scan(Spell(ps)) == [ps[0]] + Scan(Spell(ps[1..]))
  {
    var tail := Spell(ps[1..]);
    match ps[0]
    case Literal(c) =>
      assert MatchPrefix([c] + tail).None?;
      ScanLiteral(c, tail);
    case Placeholder(m) =>
      MatchPrefixComplete(m, tail);
      ScanPlaceholder(m, tail);
  }

  lemma ScanLiteral(c: char, tail: string)
    requires MatchPrefix([c] + tail).None?
    ensures Scan([c] + tail) == [Literal(c)] + Scan(tail)
  {
    assert ([c] + tail)[1..] == tail;
  }

  lemma ScanPlaceholder(m: Match, tail: string)
    requires MatchPrefix(Spelling(m) + tail) == Some(m)
    ensures Scan(Spelling(m) + tail) == [Placeholder(m)] + Scan(tail)
  {
    assert (Spelling(m) + tail)[|Spelling(m)|..] == tail;
  }

  /** Where the pattern matches at no position, `re.sub` copies every character. */
  lemma {:induction false} ScanUnmatched(t: string)
    requires forall i | 0 <= i < |t| :: MatchPrefix(t[i..]).None?
    ensures Scan(t) == seq(|t|, i requires 0 <= i < |t| => Literal(t[i]))
    decreases |t|
  {
    if t != [] {
      assert t[0..] == t;
      forall i | 0 <= i < |t[1..]|
        ensures MatchPrefix(t[1..][i..]).None?
      {
        assert t[1..][i..] == t[i + 1..];
      }
      ScanUnmatched(t[1..]);
    }
  }

  /** A match needs `{{` at its start. */
  lemma NoBracesNoMatch(t: string)
    requires forall i | 0 <= i && i + 1 < |t| :: !(t[i] == '{' && t[i + 1] == '{')
    ensures forall i | 0 <= i < |t| :: MatchPrefix(t[i..]).None?
  {
    forall i | 0 <= i < |t|
      ensures MatchPrefix(t[i..]).None?
    {
      if i + 1 < |t| {
        assert !(t[i] == '{' && t[i + 1] == '{');
        assert t[i..][0] == t[i] && t[i..][1] == t[i + 1];
      }
    }
  }

  /** Text without `{{` holds no placeholder: every character is copied. */
  lemma ScanWithoutBraces(t: string)
    requires forall i | 0 <= i && i + 1 < |t| :: !(t[i] == '{' && t[i + 1] == '{')
    ensures Scan(t) == seq(|t|, i requires 0 <= i < |t| => Literal(t[i]))
  {
    NoBracesNoMatch(t);
    ScanUnmatched(t);
  }
}
