/**
  The built-in string operations of Python that the template engine relies on,
  over strings as sequences of code points: `strip`, `split`, `join`,
  `replace`, `in`, `startswith`, `zfill`, `upper`/`lower`, `int(...)` and the
  regular-expression classes `\s` and `\d`.
 */
module Text {
  import opened Wrappers

  // ---------------------------------------------------------------------------
  // Character classes

  /** Python's `str.isspace`: the characters that `str.strip()` removes and that
      the regular-expression class `\s` matches in a `str` pattern. */
  predicate IsSpace(c: char) {
    ('\t' <= c <= '\r') || ('\U{1C}' <= c <= ' ') || c == '\U{85}' || c == '\U{A0}'
    || c == '\U{1680}' || ('\U{2000}' <= c <= '\U{200A}') || c == '\U{2028}'
    || c == '\U{2029}' || c == '\U{202F}' || c == '\U{205F}' || c == '\U{3000}'
  }

  /** The decimal digits, restricted to ASCII (`\d` and `\D`). */
  predicate IsDigit(c: char) {
    '0' <= c <= '9'
  }

  /** Every character of `s` is whitespace (`s.strip() == ""`). */
  predicate Blank(s: string) {
    forall i | 0 <= i < |s| :: IsSpace(s[i])
  }

  // ---------------------------------------------------------------------------
  // strip

  /** The length of the longest prefix of `s` whose characters satisfy `p`. */
  function Leading(s: string, p: char -> bool): (k: nat)
    ensures k <= |s|
    ensures forall i | 0 <= i < k :: p(s[i])
    ensures k == |s| || !p(s[k])
    decreases |s|
  {
    if s != [] && p(s[0]) then 1 + Leading(s[1..], p) else 0
  }

  /** The length of the longest suffix of `s` whose characters satisfy `p`. */
  function Trailing(s: string, p: char -> bool): (k: nat)
    ensures k <= |s|
    ensures forall i | |s| - k <= i < |s| :: p(s[i])
    ensures k == |s| || !p(s[|s| - 1 - k])
    decreases |s|
  {
    if s != [] && p(s[|s| - 1]) then 1 + Trailing(s[..|s| - 1], p) else 0
  }

  /** Python `s.strip(chars)`: `s` without its leading and trailing characters
      that satisfy `p`. */
  function StripBy(s: string, p: char -> bool): (r: string)
    ensures Leading(s, p) + |r| <= |s|
    ensures r == s[Leading(s, p)..Leading(s, p) + |r|]
    ensures forall i | Leading(s, p) + |r| <= i < |s| :: p(s[i])
    ensures r == [] || (!p(r[0]) && !p(r[|r| - 1]))
    ensures r == [] <==> forall i | 0 <= i < |s| :: p(s[i])
  {
    var k := Leading(s, p);
    var t := s[k..];
    var j := Trailing(t, p);
    var r := t[..|t| - j];
    StripByFacts(s, p, k, t, j, r);
    r
  }

  lemma StripByFacts(s: string, p: char -> bool, k: nat, t: string, j: nat, r: string)
    requires k == Leading(s, p) && t == s[k..] && j == Trailing(t, p) && r == t[..|t| - j]
    ensures k + |r| <= |s| && r == s[k..k + |r|]
    ensures forall i | k + |r| <= i < |s| :: p(s[i])
    ensures r == [] || (!p(r[0]) && !p(r[|r| - 1]))
    ensures r == [] <==> forall i | 0 <= i < |s| :: p(s[i])
  {
    StripByTail(s, p, k, t, j, r);
    StripByEnds(s, p, k, t, j, r);
    StripByBlank(s, p, k, t, j, r);
  }

  lemma StripByEnds(s: string, p: char -> bool, k: nat, t: string, j: nat, r: string)
    requires k == Leading(s, p) && t == s[k..] && j == Trailing(t, p) && r == t[..|t| - j]
    ensures r == [] || (!p(r[0]) && !p(r[|r| - 1]))
  {
    if r != [] {
      assert r[0] == t[0] == s[k];
      assert r[|r| - 1] == t[|t| - 1 - j];
    }
  }

  lemma StripByBlank(s: string, p: char -> bool, k: nat, t: string, j: nat, r: string)
    requires k == Leading(s, p) && t == s[k..] && j == Trailing(t, p) && r == t[..|t| - j]
    ensures r == [] <==> forall i | 0 <= i < |s| :: p(s[i])
  {
    if r == [] {
      StripByEmpty(s, p, k, t);
    } else {
      assert k < |s| && !p(s[k]);
    }
  }

  lemma StripByTail(s: string, p: char -> bool, k: nat, t: string, j: nat, r: string)
    requires k <= |s| && t == s[k..] && j <= |t| && r == t[..|t| - j]
    requires forall i | |t| - j <= i < |t| :: p(t[i])
    ensures k + |r| <= |s| && r == s[k..k + |r|]
    ensures forall i | k + |r| <= i < |s| :: p(s[i])
  {
    forall i | k + |r| <= i < |s|
      ensures p(s[i])
    {
      assert s[i] == t[i - k];
    }
  }

  lemma StripByEmpty(s: string, p: char -> bool, k: nat, t: string)
    requires k <= |s| && t == s[k..]
    requires forall i | 0 <= i < k :: p(s[i])
    requires forall i | 0 <= i < |t| :: p(t[i])
    ensures forall i | 0 <= i < |s| :: p(s[i])
  {
    forall i | 0 <= i < |s|
      ensures p(s[i])
    {
      if i >= k {
        assert s[i] == t[i - k];
      }
    }
  }

  /** Python `s.strip()`. */
  function Strip(s: string): (r: string)
    ensures |r| <= |s|
    ensures r == [] || (!IsSpace(r[0]) && !IsSpace(r[|r| - 1]))
    ensures r == [] <==> Blank(s)
  {
    StripBy(s, IsSpace)
  }

  lemma {:induction false} LeadingNone(s: string, p: char -> bool)
    requires s == [] || !p(s[0])
    ensures Leading(s, p) == 0
  {
  }

  lemma {:induction false} TrailingNone(s: string, p: char -> bool)
    requires s == [] || !p(s[|s| - 1])
    ensures Trailing(s, p) == 0
  {
  }

  /** `Leading` is the one length whose prefix satisfies `p` and is followed by
      the end or by a character that does not. */
  lemma {:induction false} LeadingUnique(x: string, p: char -> bool, k: nat)
    requires k <= |x|
    requires forall i | 0 <= i < k :: p(x[i])
    requires k == |x| || !p(x[k])
    ensures Leading(x, p) == k
    decreases |x|
  {
    if k > 0 {
      assert p(x[0]);
      LeadingUnique(x[1..], p, k - 1);
    }
  }

  /** A run of `p`-characters followed by one that is not. */
  lemma LeadingOfConcat(a: string, y: string, p: char -> bool)
    requires forall i | 0 <= i < |a| :: p(a[i])
    requires y == [] || !p(y[0])
    ensures Leading(a + y, p) == |a|
  {
    var x := a + y;
    forall i | 0 <= i < |a|
      ensures p(x[i])
    {
      assert x[i] == a[i];
    }
    if y != [] {
      assert x[|a|] == y[0];
    }
    LeadingUnique(x, p, |a|);
  }

  /** `StripBy` is the one slice with `p`-characters before and after it and
      none at either of its ends. */
  lemma StripByUnique(s: string, p: char -> bool, k: nat, r: string)
    requires k + |r| <= |s| && r == s[k..k + |r|]
    requires forall i | 0 <= i < k :: p(s[i])
    requires forall i | k + |r| <= i < |s| :: p(s[i])
    requires r == [] || (!p(r[0]) && !p(r[|r| - 1]))
    ensures StripBy(s, p) == r
  {
    if r == [] {
      assert forall i | 0 <= i < |s| :: p(s[i]);
    } else {
      assert s[k] == r[0];
      LeadingUnique(s, p, k);
      var r' := StripBy(s, p);
      assert r' != [];
      assert s[k + |r| - 1] == r[|r| - 1];
      assert s[k + |r'| - 1] == r'[|r'| - 1];
    }
  }

  lemma StripUnique(s: string, k: nat, r: string)
    requires k + |r| <= |s| && r == s[k..k + |r|]
    requires forall i | 0 <= i < k :: IsSpace(s[i])
    requires forall i | k + |r| <= i < |s| :: IsSpace(s[i])
    requires r == [] || (!IsSpace(r[0]) && !IsSpace(r[|r| - 1]))
    ensures Strip(s) == r
  {
    StripByUnique(s, IsSpace, k, r);
  }

  /** A string that neither starts nor ends with a character satisfying `p` is
      its own strip. */
  lemma StripByNoOp(s: string, p: char -> bool)
    requires s == [] || (!p(s[0]) && !p(s[|s| - 1]))
    ensures StripBy(s, p) == s
  {
    LeadingNone(s, p);
    TrailingNone(s, p);
  }

  /** Text that starts and ends with a non-space is not blank and is its own
      strip. */
  lemma KeptByStrip(t: string)
    requires t != [] && !IsSpace(t[0]) && !IsSpace(t[|t| - 1])
    ensures !Blank(t) && Strip(t) == t
  {
    StripByNoOp(t, IsSpace);
  }

  /** A non-empty string is its own strip exactly when it neither starts nor
      ends with whitespace. */
  lemma StrippedEnds(x: string)
    requires x != []
    ensures Strip(x) == x <==> !IsSpace(x[0]) && !IsSpace(x[|x| - 1])
  {
    if !IsSpace(x[0]) && !IsSpace(x[|x| - 1]) {
      KeptByStrip(x);
    }
  }

  /** Stripping twice is stripping once: `s.strip().strip() == s.strip()`. */
  lemma StripIdempotent(s: string)
    ensures Strip(Strip(s)) == Strip(s)
  {
    StripByNoOp(Strip(s), IsSpace);
  }

  /** `Strip` keeps a contiguous piece of `s`, so whatever `s` does not contain,
      its strip does not contain either. */
  lemma StripWithin(s: string, c: char)
    requires c !in s
    ensures c !in Strip(s)
  {
    var k := Leading(s, IsSpace);
    var r := Strip(s);
    assert forall i | 0 <= i < |r| :: r[i] == s[k + i];
  }

  // ---------------------------------------------------------------------------
  // Case mapping, restricted to ASCII

  function UpperChar(c: char): char {
    if 'a' <= c <= 'z' then (c as int - 32) as char else c
  }

  function LowerChar(c: char): char {
    if 'A' <= c <= 'Z' then (c as int + 32) as char else c
  }

  /** Python `s.upper()` on ASCII letters; every other character is kept. */
  function ToUpper(s: string): (r: string)
    ensures |r| == |s|
    ensures forall i | 0 <= i < |s| :: r[i] == UpperChar(s[i])
  {
    seq(|s|, i requires 0 <= i < |s| => UpperChar(s[i]))
  }

  /** Python `s.lower()` on ASCII letters; every other character is kept. */
  function ToLower(s: string): (r: string)
    ensures |r| == |s|
    ensures forall i | 0 <= i < |s| :: r[i] == LowerChar(s[i])
  {
    seq(|s|, i requires 0 <= i < |s| => LowerChar(s[i]))
  }

  /** Upper-casing twice is upper-casing once. */
  lemma UpperIdempotent(s: string)
    ensures ToUpper(ToUpper(s)) == ToUpper(s)
  {
  }

  lemma LowerIdempotent(s: string)
    ensures ToLower(ToLower(s)) == ToLower(s)
  {
  }

  lemma UpperKeepsSpace(c: char)
    ensures IsSpace(UpperChar(c)) == IsSpace(c)
  {
  }

  /** Upper-casing and stripping commute, because case mapping neither creates
      nor removes whitespace: `"{{x|upper|trim}}"` and `"{{x|trim|upper}}"`
      agree on every value. */
  lemma UpperStripCommute(s: string)
    ensures Strip(ToUpper(s)) == ToUpper(Strip(s))
  {
    var u := ToUpper(s);
    UpperSpaces(s);
    StripAgree(s, u);
    StripPointwise(s, u);
    UpperOfPointwise(Strip(s), Strip(u));
  }

  /** A string that is upper-cased character by character is `ToUpper`. */
  lemma UpperOfPointwise(x: string, y: string)
    requires |x| == |y| && forall i | 0 <= i < |x| :: y[i] == UpperChar(x[i])
    ensures y == ToUpper(x)
  {
  }

  lemma UpperSpaces(s: string)
    ensures forall i | 0 <= i < |s| :: IsSpace(ToUpper(s)[i]) == IsSpace(s[i])
  {
    forall i | 0 <= i < |s|
      ensures IsSpace(ToUpper(s)[i]) == IsSpace(s[i])
    {
      UpperKeepsSpace(s[i]);
    }
  }

  /** Where `u` is `s` upper-cased and both strip at the same places, the
      strips are upper-cased copies of each other. */
  lemma StripPointwise(s: string, u: string)
    requires |s| == |u| && forall i | 0 <= i < |s| :: u[i] == UpperChar(s[i])
    requires Leading(s, IsSpace) == Leading(u, IsSpace)
    requires |Strip(s)| == |Strip(u)|
    ensures forall i | 0 <= i < |Strip(s)| :: Strip(u)[i] == UpperChar(Strip(s)[i])
  {
    var k := Leading(s, IsSpace);
    var n := |Strip(s)|;
    SliceUpper(s, u, k, k + n);
  }

  lemma SliceUpper(s: string, u: string, a: nat, b: nat)
    requires |s| == |u| && forall i | 0 <= i < |s| :: u[i] == UpperChar(s[i])
    requires a <= b <= |s|
    ensures forall i | 0 <= i < b - a :: u[a..b][i] == UpperChar(s[a..b][i])
  {
  }

  /** Two strings whose characters agree on being whitespace, position by
      position, strip at the same places. */
  lemma StripAgree(s: string, u: string)
    requires |s| == |u|
    requires forall i | 0 <= i < |s| :: IsSpace(s[i]) == IsSpace(u[i])
    ensures Leading(s, IsSpace) == Leading(u, IsSpace)
    ensures |Strip(s)| == |Strip(u)|
  {
    LeadingAgree(s, u, IsSpace);
    var k := Leading(s, IsSpace);
    SuffixesAgree(s, u, k);
    TrailingAgree(s[k..], u[k..], IsSpace);
    StripLength(s);
    StripLength(u);
  }

  lemma SuffixesAgree(s: string, u: string, k: nat)
    requires |s| == |u| && k <= |s|
    requires forall i | 0 <= i < |s| :: IsSpace(s[i]) == IsSpace(u[i])
    ensures forall i | 0 <= i < |s[k..]| :: IsSpace(s[k..][i]) == IsSpace(u[k..][i])
  {
    var t, tu := s[k..], u[k..];
    forall i | 0 <= i < |t|
      ensures IsSpace(t[i]) == IsSpace(tu[i])
    {
      assert t[i] == s[k + i] && tu[i] == u[k + i];
    }
  }

  /** The length of a strip: what is left between the two whitespace runs. */
  lemma StripLength(s: string)
    ensures var k := Leading(s, IsSpace);
      |Strip(s)| == |s| - k - Trailing(s[k..], IsSpace)
  {
  }

  /** Two strings of the same length whose characters agree on `p` position by
      position have the same leading run. */
  lemma {:induction false} LeadingAgree(s: string, t: string, p: char -> bool)
    requires |s| == |t|
    requires forall i | 0 <= i < |s| :: p(s[i]) == p(t[i])
    ensures Leading(s, p) == Leading(t, p)
    decreases |s|
  {
    if s != [] && p(s[0]) {
      LeadingAgree(s[1..], t[1..], p);
    }
  }

  lemma {:induction false} TrailingAgree(s: string, t: string, p: char -> bool)
    requires |s| == |t|
    requires forall i | 0 <= i < |s| :: p(s[i]) == p(t[i])
    ensures Trailing(s, p) == Trailing(t, p)
    decreases |s|
  {
    if s != [] && p(s[|s| - 1]) {
      TrailingAgree(s[..|s| - 1], t[..|t| - 1], p);
    }
  }

  // ---------------------------------------------------------------------------
  // re.sub(r"\D+", "", s)

  /** The digit characters of `s`, in their original order. */
  function OnlyDigits(s: string): (r: string)
    ensures |r| <= |s|
    ensures forall i | 0 <= i < |r| :: IsDigit(r[i])
    decreases |s|
  {
    if s == [] then []
    else (if IsDigit(s[0]) then [s[0]] else []) + OnlyDigits(s[1..])
  }

  /** Removing the non-digits distributes over concatenation: each piece of the
      input keeps exactly its own digits, in order. */
  lemma {:induction false} OnlyDigitsConcat(a: string, b: string)
    ensures OnlyDigits(a + b) == OnlyDigits(a) + OnlyDigits(b)
    decreases |a|
  {
    if a != [] {
      var h := if IsDigit(a[0]) then [a[0]] else [];
      assert (a + b)[0] == a[0];
      assert (a + b)[1..] == a[1..] + b;
      OnlyDigitsConcat(a[1..], b);
      calc {
        OnlyDigits(a + b);
        h + OnlyDigits(a[1..] + b);
        h + (OnlyDigits(a[1..]) + OnlyDigits(b));
        (h + OnlyDigits(a[1..])) + OnlyDigits(b);
      }
    } else {
      assert a + b == b;
    }
  }

  /** A string of digits is kept whole, and one without digits disappears. */
  lemma {:induction false} OnlyDigitsExtremes(s: string)
    ensures (forall i | 0 <= i < |s| :: IsDigit(s[i])) ==> OnlyDigits(s) == s
    ensures (forall i | 0 <= i < |s| :: !IsDigit(s[i])) ==> OnlyDigits(s) == []
    decreases |s|
  {
    if s != [] {
      OnlyDigitsExtremes(s[1..]);
    }
  }

  /** Keeping the digits twice is keeping them once. */
  lemma OnlyDigitsIdempotent(s: string)
    ensures OnlyDigits(OnlyDigits(s)) == OnlyDigits(s)
  {
    OnlyDigitsExtremes(OnlyDigits(s));
  }

  // ---------------------------------------------------------------------------
  // str.zfill

  function Zeros(n: nat): (r: string)
    ensures |r| == n && forall i | 0 <= i < n :: r[i] == '0'
  {
    seq(n, _ => '0')
  }

  predicate IsSign(c: char) {
    c == '+' || c == '-'
  }

  /** Python `s.zfill(width)`: zeros are added on the left until the string is
      `width` long; a leading sign stays in front of them. */
  function ZeroFill(s: string, width: int): (r: string)
    ensures |r| == if width <= |s| then |s| else width
    ensures width <= |s| ==> r == s
    ensures width > |s| && s != [] && IsSign(s[0]) ==>
      r == [s[0]] + Zeros(width - |s|) + s[1..]
    ensures width > |s| && (s == [] || !IsSign(s[0])) ==>
      r == Zeros(width - |s|) + s
  {
    if width <= |s| then s
    else if s != [] && IsSign(s[0]) then [s[0]] + Zeros(width - |s|) + s[1..]
    else Zeros(width - |s|) + s
  }

  /** Zero-filling does not change the digits of an unsigned digit string other
      than by adding zeros in front: `s` is a suffix of the result. */
  lemma ZeroFillKeepsSuffix(s: string, width: int)
    requires s == [] || !IsSign(s[0])
    ensures var r := ZeroFill(s, width); |s| <= |r| && r[|r| - |s|..] == s
  {
  }

  // ---------------------------------------------------------------------------
  // int(...)

  /** `[0-9]+(_[0-9]+)*`: the digit body Python's `int` accepts in base 10. */
  predicate IsDigitGroup(b: string) {
    && |b| > 0 && IsDigit(b[0]) && IsDigit(b[|b| - 1])
    && (forall i | 0 <= i < |b| :: IsDigit(b[i]) || b[i] == '_')
    && (forall i | 0 <= i < |b| - 1 :: b[i] == '_' ==> b[i + 1] != '_')
  }

  /** The number written by digits and underscores, underscores ignored. */
  function DigitsValue(b: string): nat
    requires forall i | 0 <= i < |b| :: IsDigit(b[i]) || b[i] == '_'
    decreases |b|
  {
    if b == [] then 0
    else
      var c := b[|b| - 1];
      var v := DigitsValue(b[..|b| - 1]);
      if c == '_' then v
      else
        assert IsDigit(c);
        v * 10 + (c as int - '0' as int)
  }

  /** The whitespace `int` skips around a number. It is the `str.isspace` set
      without the four separators U+001C to U+001F: CPython's `int` keeps every
      character below U+007F as it is, maps the other whitespace to a space,
      and then skips only space, tab, newline, vertical tab, form feed and
      carriage return. */
  predicate IsIntSpace(c: char) {
    IsSpace(c) && !('\U{1C}' <= c <= '\U{1F}')
  }

  /** The text `int` reads: `t` without `IsIntSpace` whitespace at either end. */
  function IntStrip(t: string): (r: string)
    ensures |r| <= |t|
    ensures r == [] || (!IsIntSpace(r[0]) && !IsIntSpace(r[|r| - 1]))
    ensures r == [] <==> forall i | 0 <= i < |t| :: IsIntSpace(t[i])
  {
    StripBy(t, IsIntSpace)
  }

  /** Python `int(t)` on a string: surrounding whitespace, an optional sign and a
      digit body; `None` where Python raises `ValueError`. */
  function ParseInt(t: string): (r: Option<int>)
    ensures (forall i | 0 <= i < |t| :: !IsDigit(t[i])) ==> r == None
  {
    var u := IntStrip(t);
    var k := Leading(t, IsIntSpace);
    assert forall i | 0 <= i < |u| :: u[i] == t[k + i];
    ParseSigned(u)
  }

  /** `int` on the stripped text: an optional sign, then a digit body. */
  function ParseSigned(u: string): (r: Option<int>)
    ensures (forall i | 0 <= i < |u| :: !IsDigit(u[i])) ==> r == None
  {
    var signed := u != [] && IsSign(u[0]);
    var body := if signed then u[1..] else u;
    if IsDigitGroup(body) then
      var n: int := DigitsValue(body);
      Some(if signed && u[0] == '-' then -n else n)
    else None
  }

  function DigitChar(d: nat): (c: char)
    requires d < 10
    ensures IsDigit(c)
  {
    ('0' as int + d) as char
  }

  /** The decimal numeral of `n` with no leading zeros. */
  function Decimal(n: nat): (r: string)
    ensures |r| > 0
    ensures forall i | 0 <= i < |r| :: IsDigit(r[i])
  {
    if n < 10 then [DigitChar(n)] else Decimal(n / 10) + [DigitChar(n % 10)]
  }

  lemma {:induction false} DecimalValue(n: nat)
    ensures DigitsValue(Decimal(n)) == n
  {
    var r := Decimal(n);
    if n >= 10 {
      assert r[..|r| - 1] == Decimal(n / 10);
      DecimalValue(n / 10);
    }
  }

  lemma DecimalIsGroup(n: nat)
    ensures IsDigitGroup(Decimal(n))
  {
  }

  /** `int` accepts a digit body, with an optional sign in front of it. */
  lemma ParseIntGroup(b: string)
    requires IsDigitGroup(b)
    ensures ParseInt(b) == Some(DigitsValue(b))
  {
    assert !IsIntSpace(b[0]) && !IsIntSpace(b[|b| - 1]) && !IsSign(b[0]);
    StripByNoOp(b, IsIntSpace);
    LeadingNone(b, IsIntSpace);
    assert IntStrip(b) == b;
  }

  lemma ParseIntSigned(b: string, sign: char)
    requires IsDigitGroup(b) && IsSign(sign)
    ensures ParseInt([sign] + b) == Some(if sign == '-' then -(DigitsValue(b) as int) else DigitsValue(b))
  {
    var m := [sign] + b;
    assert m[0] == sign && m[1..] == b;
    assert !IsIntSpace(m[0]) && !IsIntSpace(m[|m| - 1]);
    StripByNoOp(m, IsIntSpace);
    LeadingNone(m, IsIntSpace);
    assert IntStrip(m) == m;
  }

  /** `int` accepts exactly a digit body, or a sign followed by one, once the
      whitespace it skips is stripped from both ends. */
  lemma ParseIntAccepts(t: string)
    ensures var u := IntStrip(t);
      ParseInt(t).Some? <==> (IsDigitGroup(u) || (u != [] && IsSign(u[0]) && IsDigitGroup(u[1..])))
  {
    ParseIntIsSigned(t);
    ParseSignedAccepts(IntStrip(t));
  }

  /** What `int` accepts, it reads as the value of the digit body, negated
      after a `-`. */
  lemma ParseIntValue(t: string)
    ensures var u := IntStrip(t);
      IsDigitGroup(u) ==> ParseInt(t) == Some(DigitsValue(u))
    ensures var u := IntStrip(t);
      u != [] && IsSign(u[0]) && IsDigitGroup(u[1..]) ==>
        ParseInt(t) == Some(if u[0] == '-' then -(DigitsValue(u[1..]) as int) else DigitsValue(u[1..]))
  {
    ParseIntIsSigned(t);
    ParseSignedAccepts(IntStrip(t));
  }

  lemma ParseIntIsSigned(t: string)
    ensures ParseInt(t) == ParseSigned(IntStrip(t))
  {
  }

  lemma ParseSignedAccepts(u: string)
    ensures ParseSigned(u).Some? <==> (IsDigitGroup(u) || (u != [] && IsSign(u[0]) && IsDigitGroup(u[1..])))
    ensures IsDigitGroup(u) ==> ParseSigned(u) == Some(DigitsValue(u))
    ensures u != [] && IsSign(u[0]) && IsDigitGroup(u[1..]) ==>
      ParseSigned(u) == Some(if u[0] == '-' then -(DigitsValue(u[1..]) as int) else DigitsValue(u[1..]))
  {
    if u != [] && IsSign(u[0]) {
      assert !IsDigit(u[0]);
    }
  }

  /** The whitespace `int` skips does not change what it reads. */
  lemma ParseIntStripped(t: string)
    ensures ParseInt(IntStrip(t)) == ParseInt(t)
  {
    StripByNoOp(IntStrip(t), IsIntSpace);
  }

  /** A separator such as U+001C is not skipped: `int("\x1c5")` raises, although
      `str.strip` removes the separator. */
  lemma ParseIntSeparator()
    ensures Strip("\U{1C}5") == "5"
    ensures ParseInt("\U{1C}5") == None
  {
    SeparatorStripped();
    var t := "\U{1C}5";
    IntStripNoOp(t);
    assert !IsDigit(t[0]) && !IsSign(t[0]);
  }

  lemma SeparatorStripped()
    ensures Strip("\U{1C}5") == "5"
  {
    var t := "\U{1C}5";
    assert t[1..2] == "5";
    StripUnique(t, 1, "5");
  }

  /** Text that holds a digit but is not a number is refused: here a
      trailing letter. */
  lemma ParseIntTrailingLetter()
    ensures ParseInt("5a") == None
  {
    var a := "5a";
    IntStripNoOp(a);
    assert !IsDigitGroup(a) by {
      assert !IsDigit(a[1]) && a[1] != '_';
    }
    assert !IsSign(a[0]);
  }

  /** An underscore stands alone between two digits. */
  lemma ParseIntDoubledUnderscore()
    ensures ParseInt("1__2") == None
  {
    var b := "1__2";
    IntStripNoOp(b);
    assert !IsDigitGroup(b) by {
      assert b[1] == '_' && b[2] == '_';
    }
    assert !IsSign(b[0]);
  }

  /** A text with no `int` whitespace at either end is read as it is. */
  lemma IntStripNoOp(t: string)
    requires t != [] && !IsIntSpace(t[0]) && !IsIntSpace(t[|t| - 1])
    ensures IntStrip(t) == t
  {
    StripByNoOp(t, IsIntSpace);
  }

  /** A digit body starts with a digit, not an underscore. */
  lemma ParseIntLeadingUnderscore()
    ensures ParseInt("_1") == None
  {
    var c := "_1";
    IntStripNoOp(c);
    assert !IsDigit(c[0]) && !IsSign(c[0]);
  }

  /** One sign at most. */
  lemma ParseIntDoubledSign()
    ensures ParseInt("--1") == None
  {
    var d := "--1";
    IntStripNoOp(d);
    assert !IsDigit(d[0]);
    assert !IsDigitGroup(d[1..]) by {
      assert !IsDigit(d[1..][0]);
    }
  }

  /** Spaces around the number are accepted. */
  lemma ParseIntSpaced()
    ensures ParseInt(" 42 ") == Some(42)
  {
    SpacedStrip();
    FortyTwo();
  }

  lemma SpacedStrip()
    ensures IntStrip(" 42 ") == "42"
  {
    var e := " 42 ";
    assert e[1..3] == "42";
    StripByUnique(e, IsIntSpace, 1, "42");
  }

  lemma FortyTwo()
    ensures ParseSigned("42") == Some(42)
  {
    var b := "42";
    assert IsDigitGroup(b);
    assert b[..1] == "4";
    assert DigitsValue(b) == 42;
  }

  /** `int` reads back every decimal numeral. */
  lemma ParseIntDecimal(n: nat)
    ensures ParseInt(Decimal(n)) == Some(n)
  {
    DecimalValue(n);
    DecimalIsGroup(n);
    ParseIntGroup(Decimal(n));
  }

  // ---------------------------------------------------------------------------
  // split, join, replace, in, startswith

  /** Python `s.split(sep)` for a non-empty separator: the pieces between the
      leftmost non-overlapping occurrences of `sep`. */
  function SplitOn(s: string, sep: string): (parts: seq<string>)
    requires sep != []
    ensures |parts| >= 1
    decreases |s|
  {
    if |s| < |sep| then [s]
    else if s[..|sep|] == sep then [""] + SplitOn(s[|sep|..], sep)
    else
      var rest := SplitOn(s[1..], sep);
      [[s[0]] + rest[0]] + rest[1..]
  }

  /** Python `sep.join(parts)`. */
  function Join(parts: seq<string>, sep: string): string
    decreases |parts|
  {
    if parts == [] then ""
    else if |parts| == 1 then parts[0]
    else parts[0] + sep + Join(parts[1..], sep)
  }

  lemma JoinCons(c: char, ps: seq<string>, sep: string)
    requires |ps| >= 1
    ensures Join([[c] + ps[0]] + ps[1..], sep) == [c] + Join(ps, sep)
  {
    var qs := [[c] + ps[0]] + ps[1..];
    if |ps| > 1 {
      assert qs[1..] == ps[1..];
    }
  }

  /** Joining the pieces of a split with the same separator gives back the
      string. */
  lemma {:induction false} JoinSplit(s: string, sep: string)
    requires sep != []
    ensures Join(SplitOn(s, sep), sep) == s
    decreases |s|
  {
    if |s| < |sep| {
    } else if s[..|sep|] == sep {
      var rest := s[|sep|..];
      JoinSplit(rest, sep);
      SplitOnSep(s, sep);
      JoinEmptyHead(SplitOn(rest, sep), sep);
      assert s == sep + rest;
    } else {
      JoinSplit(s[1..], sep);
      SplitOnChar(s, sep);
      JoinCons(s[0], SplitOn(s[1..], sep), sep);
      assert s == [s[0]] + s[1..];
    }
  }

  lemma SplitOnSep(s: string, sep: string)
    requires sep != [] && |sep| <= |s| && s[..|sep|] == sep
    ensures SplitOn(s, sep) == [""] + SplitOn(s[|sep|..], sep)
  {
  }

  lemma SplitOnChar(s: string, sep: string)
    requires sep != [] && |sep| <= |s| && s[..|sep|] != sep
    ensures var rest := SplitOn(s[1..], sep);
      SplitOn(s, sep) == [[s[0]] + rest[0]] + rest[1..]
  {
  }

  /** A join starts with the first character of its first piece. */
  lemma JoinFirst(parts: seq<string>, sep: string)
    requires |parts| >= 1 && parts[0] != []
    ensures Join(parts, sep) != [] && Join(parts, sep)[0] == parts[0][0]
  {
  }

  /** A join ends with the last character of its last piece. */
  lemma {:induction false} JoinLast(parts: seq<string>, sep: string)
    requires |parts| >= 1 && parts[|parts| - 1] != []
    ensures var j := Join(parts, sep); var z := parts[|parts| - 1];
      j != [] && j[|j| - 1] == z[|z| - 1]
    decreases |parts|
  {
    if |parts| > 1 {
      assert parts[1..][|parts| - 2] == parts[|parts| - 1];
      JoinLast(parts[1..], sep);
    }
  }

  lemma JoinEmptyHead(ps: seq<string>, sep: string)
    requires |ps| >= 1
    ensures Join([""] + ps, sep) == sep + Join(ps, sep)
  {
    assert ([""] + ps)[1..] == ps;
  }

  /** No piece of a split on one character contains that character. */
  lemma {:induction false} SplitPartsExclude(s: string, c: char)
    ensures forall i | 0 <= i < |SplitOn(s, [c])| :: c !in SplitOn(s, [c])[i]
    decreases |s|
  {
    if |s| >= 1 {
      SplitPartsExclude(s[1..], c);
      if s[..1] != [c] {
        assert s[0] != c;
      }
    }
  }

  /** Every piece of a join is no longer than the joined string; with at least
      three pieces, the third one is shorter by at least two separators. */
  lemma {:induction false} JoinBounds(parts: seq<string>, sep: string)
    ensures forall i | 0 <= i < |parts| :: |parts[i]| <= |Join(parts, sep)|
    ensures |parts| >= 3 ==> |parts[2]| + 2 * |sep| <= |Join(parts, sep)|
    ensures TotalLength(parts) <= |Join(parts, sep)|
    decreases |parts|
  {
    if |parts| >= 2 {
      JoinBounds(parts[1..], sep);
      assert forall i | 1 <= i < |parts| :: parts[i] == parts[1..][i - 1];
    }
  }

  /** The sum of the lengths of some strings. */
  function TotalLength(xs: seq<string>): nat
    decreases |xs|
  {
    if xs == [] then 0 else |xs[0]| + TotalLength(xs[1..])
  }

  lemma {:induction false} WithinTotalLength(xs: seq<string>, i: nat)
    requires i < |xs|
    ensures |xs[i]| <= TotalLength(xs)
    decreases |xs|
  {
    if i > 0 {
      WithinTotalLength(xs[1..], i - 1);
    }
  }

  /** Python `sub in s`. */
  predicate Contains(s: string, sub: string)
    decreases |s|
  {
    |sub| <= |s| && (s[..|sub|] == sub || Contains(s[1..], sub))
  }

  /** A string splits into two or more pieces exactly when it contains the
      separator. */
  lemma {:induction false} ContainsIffSplits(s: string, sep: string)
    requires sep != []
    ensures Contains(s, sep) <==> |SplitOn(s, sep)| >= 2
    decreases |s|
  {
    if |s| >= |sep| && s[..|sep|] != sep {
      ContainsIffSplits(s[1..], sep);
    }
  }

  /** Python `s.startswith(prefix)`. */
  predicate StartsWith(s: string, prefix: string) {
    |prefix| <= |s| && s[..|prefix|] == prefix
  }

  /** Python `s.split(c, 1)` when `c in s`: the text before the first `c` and
      the text after it. */
  function SplitOnce(s: string, c: char): (r: (string, string))
    requires c in s
    ensures s == r.0 + [c] + r.1
    ensures c !in r.0
    decreases |s|
  {
    if s[0] == c then ("", s[1..])
    else
      assert c in s[1..] by {
        var i :| 0 <= i < |s| && s[i] == c;
        assert s[1..][i - 1] == c;
      }
      var r := SplitOnce(s[1..], c);
      ([s[0]] + r.0, r.1)
  }

  /** After a prefix that ends in `c` and has no other `c`, `split(c, 1)[1]`
      is the rest of the string. */
  lemma AfterPrefix(s: string, prefix: string, c: char)
    requires StartsWith(s, prefix) && prefix != [] && prefix[|prefix| - 1] == c
    requires c !in prefix[..|prefix| - 1]
    ensures c in s
    ensures SplitOnce(s, c).1 == s[|prefix|..]
  {
    assert s[|prefix| - 1] == c;
    var r := SplitOnce(s, c);
    var n := |prefix| - 1;
    assert s[|r.0|] == c;
    assert forall i | 0 <= i < |r.0| :: s[i] == r.0[i];
    assert forall i | 0 <= i < n :: s[i] == prefix[..n][i];
    assert |r.0| == n;
  }

  /** `sub in s` holds when `sub` occurs at some position. */
  lemma {:induction false} ContainsAt(s: string, i: nat, sub: string)
    requires i + |sub| <= |s| && s[i..i + |sub|] == sub
    ensures Contains(s, sub)
    decreases i
  {
    if i > 0 {
      assert s[1..][i - 1..i - 1 + |sub|] == s[i..i + |sub|];
      ContainsAt(s[1..], i - 1, sub);
    }
  }

  /** A string without the separator character splits into itself. */
  lemma {:induction false} SplitOnNone(x: string, c: char)
    requires c !in x
    ensures SplitOn(x, [c]) == [x]
    decreases |x|
  {
    if x != [] {
      assert x[..1][0] == x[0] && x[0] in x;
      assert c !in x[1..] by {
        assert forall i | 0 <= i < |x[1..]| :: x[1..][i] == x[i + 1];
      }
      SplitOnNone(x[1..], c);
      assert [x[0]] + x[1..] == x;
    }
  }

  /** Splitting on a character cuts off the text before its first occurrence. */
  lemma {:induction false} SplitOnFirst(x: string, c: char, y: string)
    requires c !in x
    ensures SplitOn(x + [c] + y, [c]) == [x] + SplitOn(y, [c])
    decreases |x|
  {
    var s := x + [c] + y;
    if x == [] {
      assert s[..1] == [c] && s[1..] == y;
    } else {
      assert s[..1][0] == x[0] && x[0] in x;
      assert s[1..] == x[1..] + [c] + y;
      assert c !in x[1..] by {
        assert forall i | 0 <= i < |x[1..]| :: x[1..][i] == x[i + 1];
      }
      SplitOnFirst(x[1..], c, y);
      assert [x[0]] + x[1..] == x;
    }
  }

  /** Splitting the join of pieces that do not contain the separator character
      gives the pieces back. */
  lemma {:induction false} SplitJoin(parts: seq<string>, c: char)
    requires |parts| >= 1
    requires forall i | 0 <= i < |parts| :: c !in parts[i]
    ensures SplitOn(Join(parts, [c]), [c]) == parts
    decreases |parts|
  {
    if |parts| == 1 {
      SplitOnNone(parts[0], c);
    } else {
      SplitJoin(parts[1..], c);
      SplitOnFirst(parts[0], c, Join(parts[1..], [c]));
      assert parts == [parts[0]] + parts[1..];
    }
  }

  /** The first piece of a split on a character is the text before its first
      occurrence, or all of it. */
  lemma {:induction false} SplitOnHead(y: string, c: char)
    ensures var h := SplitOn(y, [c])[0];
      |h| <= |y| && h == y[..|h|] && c !in h && (|h| == |y| || y[|h|] == c)
    decreases |y|
  {
    if y != [] && y[..1] != [c] {
      SplitOnHead(y[1..], c);
    }
  }

  /** A string without the first character of the separator splits into
      itself. */
  lemma {:induction false} SplitOnAbsent(x: string, sep: string)
    requires sep != [] && sep[0] !in x
    ensures SplitOn(x, sep) == [x]
    decreases |x|
  {
    if |x| >= |sep| {
      assert x[..|sep|][0] == x[0] && x[0] in x;
      assert sep[0] !in x[1..] by {
        assert forall i | 0 <= i < |x[1..]| :: x[1..][i] == x[i + 1];
      }
      SplitOnAbsent(x[1..], sep);
      assert [x[0]] + x[1..] == x;
    }
  }

  /** A character missing from a join is missing from every piece. */
  lemma {:induction false} JoinExcludes(parts: seq<string>, sep: string, c: char)
    requires c !in Join(parts, sep)
    ensures forall i | 0 <= i < |parts| :: c !in parts[i]
    decreases |parts|
  {
    if |parts| >= 2 {
      JoinExcludes(parts[1..], sep, c);
      assert forall i | 1 <= i < |parts| :: parts[i] == parts[1..][i - 1];
    }
  }

  /** A character missing from every piece and from the separator is missing
      from the join. */
  lemma {:induction false} JoinKeepsOut(parts: seq<string>, sep: string, c: char)
    requires c !in sep
    requires forall i | 0 <= i < |parts| :: c !in parts[i]
    ensures c !in Join(parts, sep)
    decreases |parts|
  {
    if |parts| >= 2 {
      JoinKeepsOut(parts[1..], sep, c);
    }
  }

  /** A string without the separator splits into itself. */
  lemma {:induction false} SplitOnMissing(x: string, sep: string)
    requires sep != [] && !Contains(x, sep)
    ensures SplitOn(x, sep) == [x]
    decreases |x|
  {
    if |x| >= |sep| {
      SplitOnMissing(x[1..], sep);
      assert [x[0]] + x[1..] == x;
    }
  }

  /** Splitting cuts off the text before the first occurrence of the
      separator, when no occurrence starts inside that text. */
  lemma {:induction false} SplitOnFirstSep(x: string, sep: string, y: string)
    requires sep != []
    requires forall i | 0 <= i < |x| :: !StartsWith((x + sep + y)[i..], sep)
    ensures SplitOn(x + sep + y, sep) == [x] + SplitOn(y, sep)
    decreases |x|
  {
    var s := x + sep + y;
    if x == [] {
      assert s[..|sep|] == sep && s[|sep|..] == y;
    } else {
      assert !StartsWith(s[0..], sep);
      assert s[0..] == s;
      assert s[1..] == x[1..] + sep + y;
      forall i | 0 <= i < |x[1..]|
        ensures !StartsWith((x[1..] + sep + y)[i..], sep)
      {
        assert (x[1..] + sep + y)[i..] == s[i + 1..];
      }
      SplitOnFirstSep(x[1..], sep, y);
      assert [x[0]] + x[1..] == x;
    }
  }

  /** Splitting the join of pieces that do not contain the first character of
      the separator gives the pieces back. */
  lemma {:induction false} SplitJoinSep(parts: seq<string>, sep: string)
    requires sep != [] && |parts| >= 1
    requires forall i | 0 <= i < |parts| :: sep[0] !in parts[i]
    ensures SplitOn(Join(parts, sep), sep) == parts
    decreases |parts|
  {
    if |parts| == 1 {
      SplitOnAbsent(parts[0], sep);
    } else {
      var x := parts[0];
      var y := Join(parts[1..], sep);
      forall i | 0 <= i < |x|
        ensures !StartsWith((x + sep + y)[i..], sep)
      {
        assert (x + sep + y)[i..][0] == x[i];
      }
      SplitOnFirstSep(x, sep, y);
      SplitJoinSep(parts[1..], sep);
      assert parts == [parts[0]] + parts[1..];
    }
  }

  /** Python `s.replace(target, replacement)` for a non-empty `target`. */
  function Replace(s: string, target: string, replacement: string): string
    requires target != []
  {
    Join(SplitOn(s, target), replacement)
  }
}
