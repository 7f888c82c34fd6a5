/**
  The `extract_age` step: three regular expressions tried in turn with
  `re.search`, each returning its leftmost match.

    Full      `만 \d+세\(\d+\)`   the whole match
    Unclosed  `만 \d+세\(\d+`     the match with `)` appended
    Short     `(만 \d+세)`        group 1, which is the whole match

  Every `\d+` is followed by a non-digit in the pattern, or ends it, so the
  greedy run is the maximal run and a match at a position is unique.
 */
module Age {
  import opened Wrappers
  import opened Text

  datatype Pattern = Full | Unclosed | Short

  /** The end of the match of `pat` that starts at position `i`, if any. */
  function MatchAt(s: string, i: nat, pat: Pattern): (e: Option<nat>)
    requires i <= |s|
    ensures e.Some? ==> i + 4 <= e.value <= |s|
    ensures e.Some? ==> s[i] == '만' && s[i + 1] == ' ' && IsDigit(s[i + 2])
  {
    if !(i + 2 <= |s| && s[i] == '만' && s[i + 1] == ' ') then None
    else
      var d := i + 2 + Leading(s[i + 2..], IsDigit);
      if d == i + 2 || d >= |s| || s[d] != '세' then None
      else if pat == Short then Some(d + 1)
      else if d + 1 >= |s| || s[d + 1] != '(' then None
      else
        var q := d + 2 + Leading(s[d + 2..], IsDigit);
        if q == d + 2 then None
        else if pat == Unclosed then Some(q)
        else if q < |s| && s[q] == ')' then Some(q + 1)
        else None
  }

  /** `re.search` from position `from`: the leftmost match of `pat`, as its
      start and end. */
  function Search(s: string, pat: Pattern, from: nat): (r: Option<(nat, nat)>)
    requires from <= |s|
    ensures r.Some? ==> from <= r.value.0 <= |s| && MatchAt(s, r.value.0, pat) == Some(r.value.1)
    ensures r.Some? ==> forall i | from <= i < r.value.0 :: MatchAt(s, i, pat).None?
    ensures r.None? ==> forall i | from <= i <= |s| :: MatchAt(s, i, pat).None?
    decreases |s| - from
  {
    match MatchAt(s, from, pat)
    case Some(e) => Some((from, e))
    case None => if from == |s| then None else Search(s, pat, from + 1)
  }

  /** The `extract_age` step (jopApplication/excel_template_filler.py). */
  function Extract(s: string): string {
    match Search(s, Full, 0)
    case Some((a, b)) => s[a..b]
    case None =>
      match Search(s, Unclosed, 0)
      case Some((a, b)) => s[a..b] + ")"
      case None =>
        match Search(s, Short, 0)
        case Some((a, b)) => s[a..b]
        case None => s
  }


  /** A result of `Extract` that is not its input is one whole age string: the
      full form `만 N세(M)` or the short form `만 N세`. */
  lemma ExtractShape(s: string)
    ensures var r := Extract(s);
      || r == s
      || MatchAt(r, 0, Full) == Some(|r|)
      || (MatchAt(r, 0, Short) == Some(|r|) && Search(s, Full, 0).None? && Search(s, Unclosed, 0).None?)
  {
    match Search(s, Full, 0)
    case Some((a, b)) =>
      FullSlice(s, a, b);
    case None =>
      match Search(s, Unclosed, 0)
      case Some((a, b)) =>
        UnclosedSlice(s, a, b);
      case None =>
        match Search(s, Short, 0)
        case Some((a, b)) =>
          ShortSlice(s, a, b);
        case None =>
  }

  /** The digit run of a match as seen in `s` and as seen in a copy `r` whose
      positions from `i` on agree with `s` from `i + a` up to the first
      non-digit. */
  lemma RunShift(s: string, r: string, a: nat, i: nat, e: nat)
    requires i <= |r| && a + i <= e < |s|
    requires e == a + i + Leading(s[a + i..], IsDigit)
    requires e - a < |r|
    requires forall k | i <= k <= e - a :: r[k] == s[a + k]
    ensures Leading(r[i..], IsDigit) == e - a - i
  {
    forall k | 0 <= k < e - a - i
      ensures IsDigit(r[i..][k])
    {
      assert r[i..][k] == s[a + i + k] == s[a + i..][k];
    }
    assert r[i..][e - a - i] == s[e] == s[a + i..][e - a - i];
    LeadingUnique(r[i..], IsDigit, e - a - i);
  }

  /** The shape of a full match at `a` ending at `b`:
      its two digit runs end at `d` and `q`. */
  predicate FullAt(s: string, a: nat, d: nat, q: nat, b: nat) {
    a + 2 < d && d + 2 < q && q + 1 == b && b <= |s|
    && s[a] == '만' && s[a + 1] == ' ' && s[d] == '세' && s[d + 1] == '(' && s[q] == ')'
    && Leading(s[a + 2..], IsDigit) == d - a - 2
    && Leading(s[d + 2..], IsDigit) == q - d - 2
  }

  lemma FullAtMatch(s: string, a: nat, d: nat, q: nat, b: nat)
    requires FullAt(s, a, d, q, b)
    ensures MatchAt(s, a, Full) == Some(b)
  {
  }

  lemma MatchFullAt(s: string, a: nat, b: nat) returns (d: nat, q: nat)
    requires a <= |s| && MatchAt(s, a, Full) == Some(b)
    ensures FullAt(s, a, d, q, b)
  {
    d := a + 2 + Leading(s[a + 2..], IsDigit);
    q := d + 2 + Leading(s[d + 2..], IsDigit);
  }

  lemma FullSlice(s: string, a: nat, b: nat)
    requires a <= |s| && MatchAt(s, a, Full) == Some(b)
    ensures var r := s[a..b]; MatchAt(r, 0, Full) == Some(|r|)
  {
    var r := s[a..b];
    var d, q := MatchFullAt(s, a, b);
    FullSliceAt(s, a, d, q, b);
    assert |r| == b - a;
    FullAtMatch(r, 0, d - a, q - a, |r|);
  }

  /** A full match keeps its shape when cut out of its text. */
  lemma FullSliceAt(s: string, a: nat, d: nat, q: nat, b: nat)
    requires FullAt(s, a, d, q, b)
    ensures FullAt(s[a..b], 0, d - a, q - a, b - a)
  {
    var r := s[a..b];
    assert forall k | 0 <= k < b - a :: r[k] == s[a + k];
    RunShift(s, r, a, 2, d);
    RunShift(s, r, a, d - a + 2, q);
  }

  lemma UnclosedSlice(s: string, a: nat, b: nat)
    requires a <= |s| && MatchAt(s, a, Unclosed) == Some(b)
    ensures var r := s[a..b] + ")"; MatchAt(r, 0, Full) == Some(|r|)
  {
    var d := a + 2 + Leading(s[a + 2..], IsDigit);
    var q := d + 2 + Leading(s[d + 2..], IsDigit);
    assert b == q;
    var r := s[a..b] + ")";
    UnclosedSliceAt(s, a, d, q);
    assert |r| == q - a + 1;
    FullAtMatch(r, 0, d - a, q - a, |r|);
  }

  /** An unclosed match cut out of its text and closed has the full shape. */
  lemma UnclosedSliceAt(s: string, a: nat, d: nat, q: nat)
    requires a + 2 < d && d + 2 < q <= |s|
    requires s[a] == '만' && s[a + 1] == ' ' && s[d] == '세' && s[d + 1] == '('
    requires Leading(s[a + 2..], IsDigit) == d - a - 2
    requires Leading(s[d + 2..], IsDigit) == q - d - 2
    ensures FullAt(s[a..q] + ")", 0, d - a, q - a, q - a + 1)
  {
    var r := s[a..q] + ")";
    assert forall k | 0 <= k < q - a :: r[k] == s[a + k];
    RunShift(s, r, a, 2, d);
    var r' := r[d - a + 2..];
    forall k | 0 <= k < q - d - 2
      ensures IsDigit(r'[k])
    {
      assert r'[k] == s[d + 2 + k] == s[d + 2..][k];
    }
    assert r'[q - d - 2] == ')';
    LeadingUnique(r', IsDigit, q - d - 2);
  }

  lemma ShortSlice(s: string, a: nat, b: nat)
    requires a <= |s| && MatchAt(s, a, Short) == Some(b)
    ensures var r := s[a..b]; MatchAt(r, 0, Short) == Some(|r|)
  {
    var r := s[a..b];
    var d := a + 2 + Leading(s[a + 2..], IsDigit);
    assert forall k | 0 <= k < |r| :: r[k] == s[a + k];
    RunShift(s, r, a, 2, d);
  }

  /** A short-form age string holds no full or unclosed match anywhere. */
  lemma ShortHasNoLongerMatch(r: string, i: nat)
    requires MatchAt(r, 0, Short) == Some(|r|) && i <= |r|
    ensures MatchAt(r, i, Full).None? && MatchAt(r, i, Unclosed).None?
  {
    var d := 2 + Leading(r[2..], IsDigit);
    assert d + 1 == |r| && r[d] == '세';
    if 2 <= i < d {
      assert r[i] == r[2..][i - 2];
    }
  }

  /** Extracting an age twice is extracting it once. */
  lemma ExtractIdempotent(s: string)
    ensures Extract(Extract(s)) == Extract(s)
  {
    var r := Extract(s);
    ExtractShape(s);
    if r == s {
    } else if MatchAt(r, 0, Full) == Some(|r|) {
      assert Search(r, Full, 0) == Some((0, |r|));
      assert r[0..|r|] == r;
    } else {
      forall i | 0 <= i <= |r|
        ensures MatchAt(r, i, Full).None? && MatchAt(r, i, Unclosed).None?
      {
        ShortHasNoLongerMatch(r, i);
      }
      assert Search(r, Short, 0) == Some((0, |r|));
      assert r[0..|r|] == r;
    }
  }
}
