/** The few JavaScript string built-ins the core relies on, over `seq<char>`:
    `String.prototype.split` with a one-character separator and with `/\s+/`,
    `endsWith`, `toLowerCase` (ASCII letters only) and `Number.prototype.toString`
    on integers. */
module JsStrings {

  /** The characters ECMAScript's regular-expression class `\s` matches
      (WhiteSpace and LineTerminator), as inclusive ranges: space, tab to
      carriage return, no-break space, ogham space mark, en quad to hair space,
      line and paragraph separators, narrow no-break space, medium mathematical
      space, ideographic space and the byte order mark. */
  const SpaceRanges: seq<(char, char)> := [
    (' ', ' '), ('\t', '\r'), ('\U{00A0}', '\U{00A0}'), ('\U{1680}', '\U{1680}'),
    ('\U{2000}', '\U{200A}'), ('\U{2028}', '\U{2029}'), ('\U{202F}', '\U{202F}'),
    ('\U{205F}', '\U{205F}'), ('\U{3000}', '\U{3000}'), ('\U{FEFF}', '\U{FEFF}')]

  predicate InRanges(c: char, ranges: seq<(char, char)>) {
    ranges != [] && (ranges[0].0 <= c <= ranges[0].1 || InRanges(c, ranges[1..]))
  }

  predicate IsSpace(c: char) {
    InRanges(c, SpaceRanges)
  }

  /** On ASCII, `\s` is the space and the controls tab, line feed, line
      tabulation, form feed and carriage return; no other ASCII character. */
  lemma SpaceAscii(c: char)
    requires c < '\U{0080}'
    ensures IsSpace(c) <==> c == ' ' || c == '\t' || c == '\n' || c == '\U{000B}' || c == '\U{000C}' || c == '\r'
  {
    var high := SpaceRanges[2..];
    assert SpaceRanges[1..][1..] == high;
    assert forall i :: 0 <= i < |high| ==> c < high[i].0;
    BelowRanges(c, high);
    assert InRanges(c, SpaceRanges[1..]) == ('\t' <= c <= '\r' || InRanges(c, high));
    assert IsSpace(c) == (c == ' ' || InRanges(c, SpaceRanges[1..]));
  }

  /** A character below every range's lower end is in none of them. */
  lemma {:induction false} BelowRanges(c: char, ranges: seq<(char, char)>)
    requires forall i :: 0 <= i < |ranges| ==> c < ranges[i].0
    ensures !InRanges(c, ranges)
  {
    if ranges != [] {
      assert forall i :: 0 <= i < |ranges[1..]| ==> c < ranges[1..][i].0 by {
        forall i | 0 <= i < |ranges[1..]| ensures c < ranges[1..][i].0 {
          assert ranges[1..][i] == ranges[i + 1];
        }
      }
      BelowRanges(c, ranges[1..]);
    }
  }

  predicate NoSpace(s: string) {
    forall i :: 0 <= i < |s| ==> !IsSpace(s[i])
  }

  // ---------------------------------------------------------------------------
  // s.split(sep) for a one-character separator

  /** Index of the first `sep` in `s`, or `|s|` when there is none. */
  function IndexOf(s: string, sep: char): (k: nat)
    ensures k <= |s|
    ensures sep !in s[..k]
    ensures k < |s| ==> s[k] == sep
  {
    if s == [] || s[0] == sep then 0 else 1 + IndexOf(s[1..], sep)
  }

  /** `s.split(sep)`: the pieces between separators, always at least one. */
  function Split(s: string, sep: char): (r: seq<string>)
    ensures |r| >= 1
    ensures forall i :: 0 <= i < |r| ==> sep !in r[i]
    ensures Join(r, sep) == s
    decreases |s|
  {
    var k := IndexOf(s, sep);
    if k == |s| then [s]
    else
      var rest := Split(s[k + 1..], sep);
      assert s == s[..k] + [sep] + s[k + 1..];
      [s[..k]] + rest
  }

  /** `pieces.join(sep)`, the inverse the split is checked against. */
  function Join(pieces: seq<string>, sep: char): string {
    if |pieces| == 0 then ""
    else if |pieces| == 1 then pieces[0]
    else pieces[0] + [sep] + Join(pieces[1..], sep)
  }

  // ---------------------------------------------------------------------------
  // s.split(/\s+/)

  /** Length of the longest prefix of `s` without a `\s` character. */
  function TokenLength(s: string): (k: nat)
    ensures k <= |s|
    ensures NoSpace(s[..k])
    ensures k < |s| ==> IsSpace(s[k])
  {
    if s == [] || IsSpace(s[0]) then 0 else 1 + TokenLength(s[1..])
  }

  /** Length of the run of `\s` characters at the front of `s`. */
  function SpaceRun(s: string): (n: nat)
    ensures n <= |s|
    ensures forall i :: 0 <= i < n ==> IsSpace(s[i])
    ensures n < |s| ==> !IsSpace(s[n])
  {
    if s != [] && IsSpace(s[0]) then 1 + SpaceRun(s[1..]) else 0
  }

  predicate AllSpace(g: string) {
    forall i :: 0 <= i < |g| ==> IsSpace(g[i])
  }

  /** `s.split(/\s+/)`: the pieces between maximal runs of `\s` characters. A
      leading run yields an empty first piece, a trailing run an empty last one,
      and the empty string splits into one empty piece. */
  function SplitSpaces(s: string): (r: seq<string>)
    ensures |r| >= 1
    ensures forall i :: 0 <= i < |r| ==> NoSpace(r[i])
    ensures forall i :: 0 < i < |r| - 1 ==> r[i] != ""
    decreases |s|
  {
    var k := TokenLength(s);
    if k == |s| then [s]
    else
      var t := s[k..];
      [s[..k]] + SplitSpaces(t[SpaceRun(t)..])
  }

  /** The separators `split(/\s+/)` consumes: the maximal runs of `\s`
      characters between the pieces. */
  function Gaps(s: string): (g: seq<string>)
    ensures forall i :: 0 <= i < |g| ==> g[i] != [] && AllSpace(g[i])
    decreases |s|
  {
    var k := TokenLength(s);
    if k == |s| then []
    else
      var t := s[k..];
      assert t[0] == s[k];
      [LeadingGap(t)] + Gaps(t[SpaceRun(t)..])
  }

  /** The run of `\s` characters at the front of `t`. */
  function LeadingGap(t: string): (g: string)
    requires t != [] && IsSpace(t[0])
    ensures g != [] && AllSpace(g)
  {
    var n := SpaceRun(t);
    assert forall i :: 0 <= i < n ==> t[..n][i] == t[i];
    t[..n]
  }

  /** `fields[0] + gaps[0] + fields[1] + ... + fields[n-1]`. */
  function Weave(fields: seq<string>, gaps: seq<string>): string
    requires |gaps| + 1 == |fields|
  {
    if |fields| == 1 then fields[0]
    else fields[0] + gaps[0] + Weave(fields[1..], gaps[1..])
  }

  lemma WeaveCons(f: string, fields: seq<string>, g: string, gaps: seq<string>)
    requires |gaps| + 1 == |fields|
    ensures Weave([f] + fields, [g] + gaps) == f + g + Weave(fields, gaps)
  {
    assert ([f] + fields)[1..] == fields && ([g] + gaps)[1..] == gaps;
  }

  /** There is one run of whitespace between each two pieces of
      `split(/\s+/)`, and putting the pieces back together with those runs
      between them gives the input again. */
  lemma {:induction false} SplitSpacesWeave(s: string)
    ensures |Gaps(s)| + 1 == |SplitSpaces(s)| && Weave(SplitSpaces(s), Gaps(s)) == s
    decreases |s|
  {
    var k := TokenLength(s);
    if k < |s| {
      var t := s[k..];
      var n := SpaceRun(t);
      SplitSpacesWeave(t[n..]);
      WeaveCons(s[..k], SplitSpaces(t[n..]), LeadingGap(t), Gaps(t[n..]));
      CutTwice(s, k, n);
    }
  }

  lemma CutTwice(s: string, k: nat, n: nat)
    requires k + n <= |s|
    ensures s == s[..k] + s[k..][..n] + s[k..][n..]
  {
    assert s[k..] == s[k..][..n] + s[k..][n..];
    assert s == s[..k] + s[k..];
  }

  /** A manifest-shaped line `a`, one or more `\s` characters, `b` splits into
      exactly `[a, b]`. */
  lemma {:induction false} SplitSpacesTwoFields(a: string, gap: string, b: string)
    requires NoSpace(a) && NoSpace(b) && b != []
    requires gap != [] && forall i :: 0 <= i < |gap| ==> IsSpace(gap[i])
    ensures SplitSpaces(a + gap + b) == [a, b]
  {
    var s := a + gap + b;
    TokenLengthOf(a, gap + b);
    assert s == a + (gap + b);
    assert s[|a|..] == gap + b;
    SpaceRunOf(gap, b);
    assert (gap + b)[|gap|..] == b;
    TokenLengthOf(b, []);
    assert b + [] == b;
  }

  lemma {:induction false} TokenLengthOf(a: string, rest: string)
    requires NoSpace(a)
    requires rest == [] || IsSpace(rest[0])
    ensures TokenLength(a + rest) == |a|
  {
    if a != [] {
      assert (a + rest)[1..] == a[1..] + rest;
      TokenLengthOf(a[1..], rest);
    }
  }

  lemma {:induction false} SpaceRunOf(gap: string, b: string)
    requires forall i :: 0 <= i < |gap| ==> IsSpace(gap[i])
    requires b == [] || !IsSpace(b[0])
    ensures SpaceRun(gap + b) == |gap|
  {
    if gap != [] {
      assert (gap + b)[1..] == gap[1..] + b;
      SpaceRunOf(gap[1..], b);
    }
  }

  // ---------------------------------------------------------------------------
  // endsWith and toLowerCase

  /** Whether `s` begins with `prefix`; the contracts use it to describe names. */
  predicate StartsWith(s: string, prefix: string) {
    |prefix| <= |s| && s[..|prefix|] == prefix
  }

  /** `s.endsWith(suffix)`. */
  predicate EndsWith(s: string, suffix: string) {
    |suffix| <= |s| && s[|s| - |suffix|..] == suffix
  }

  function LowerChar(c: char): char {
    if 'A' <= c <= 'Z' then (c as int - 'A' as int + 'a' as int) as char else c
  }

  /** `s.toLowerCase()`, restricted to the ASCII letters. */
  function ToLower(s: string): (r: string)
    ensures |r| == |s| && !HasUpper(r)
    ensures forall i :: 0 <= i < |s| && !('A' <= s[i] <= 'Z') ==> r[i] == s[i]
  {
    seq(|s|, i requires 0 <= i < |s| => LowerChar(s[i]))
  }

  predicate HasUpper(s: string) {
    exists i :: 0 <= i < |s| && 'A' <= s[i] <= 'Z'
  }

  /** Lowercasing twice is lowercasing once. */
  lemma ToLowerIdempotent(s: string)
    ensures ToLower(ToLower(s)) == ToLower(s)
  {
    LowerUnchangedIff(ToLower(s));
  }

  /** `s.toLowerCase() === s` holds exactly when `s` has no upper-case letter. */
  lemma {:induction false} LowerUnchangedIff(s: string)
    ensures ToLower(s) == s <==> !HasUpper(s)
  {
    if ToLower(s) == s {
      forall i | 0 <= i < |s| ensures !('A' <= s[i] <= 'Z') {
        assert ToLower(s)[i] == LowerChar(s[i]);
      }
    }
  }

  // ---------------------------------------------------------------------------
  // Number.prototype.toString on integers, and the parse that inverts it

  function DigitChar(d: nat): char
    requires d < 10
  {
    ('0' as int + d) as char
  }

  function DigitValue(c: char): int {
    c as int - '0' as int
  }

  predicate IsDigit(c: char) {
    '0' <= c <= '9'
  }

  /** A non-empty run of decimal digits with no leading zero. */
  predicate DecimalDigits(d: string) {
    && |d| >= 1
    && (forall i :: 0 <= i < |d| ==> IsDigit(d[i]))
    && (|d| > 1 ==> d[0] != '0')
  }

  /** `s` is the canonical decimal text of `n`: a `-` exactly when `n` is
      negative, then the digits of its magnitude with no leading zero. */
  predicate CanonicalDecimal(s: string, n: int) {
    if n < 0 then |s| >= 2 && s[0] == '-' && DecimalDigits(s[1..]) && ParseDigits(s[1..]) == -n
    else DecimalDigits(s) && ParseDigits(s) == n
  }

  /** Decimal digits of `n`, most significant first, no leading zeros. */
  function NatToString(n: nat): (r: string)
    ensures DecimalDigits(r)
  {
    if n < 10 then [DigitChar(n)] else NatToString(n / 10) + [DigitChar(n % 10)]
  }

  /** `n.toString()` for an integer-valued JavaScript number. */
  function IntToString(n: int): string {
    if n < 0 then "-" + NatToString(-n) else NatToString(n)
  }

  function ParseDigits(s: string): int {
    if s == [] then 0 else 10 * ParseDigits(s[..|s| - 1]) + DigitValue(s[|s| - 1])
  }

  function ParseInt(s: string): int {
    if s != [] && s[0] == '-' then -ParseDigits(s[1..]) else ParseDigits(s)
  }

  /** Digit strings read back as non-negative numbers, and those with two or
      more digits (hence no leading zero) as at least 10. */
  lemma {:induction false} DigitsBounds(d: string)
    requires DecimalDigits(d)
    ensures 0 <= ParseDigits(d)
    ensures |d| == 1 ==> ParseDigits(d) < 10
    ensures |d| >= 2 ==> ParseDigits(d) >= 10
  {
    if |d| >= 2 {
      var p := d[..|d| - 1];
      assert p[0] == d[0];
      DigitsBounds(p);
      if |p| == 1 {
        assert ParseDigits(p) == DigitValue(p[0]) by { assert p[..0] == []; }
      }
    } else {
      assert d[..0] == [];
    }
  }

  /** An integer has only one canonical decimal text. */
  lemma {:induction false} DigitsUnique(s: string, t: string)
    requires DecimalDigits(s) && DecimalDigits(t) && ParseDigits(s) == ParseDigits(t)
    ensures s == t
    decreases |s|
  {
    DigitsBounds(s);
    DigitsBounds(t);
    if |s| == 1 {
      assert s[..0] == [] && t[..0] == [];
    } else {
      var ps, pt := s[..|s| - 1], t[..|t| - 1];
      assert ps[0] == s[0] && pt[0] == t[0];
      DigitsBounds(ps);
      DigitsBounds(pt);
      assert ParseDigits(ps) == ParseDigits(pt);
      DigitsUnique(ps, pt);
      assert s == ps + [s[|s| - 1]] && t == pt + [t[|t| - 1]];
    }
  }

  lemma {:induction false} ParseNatToString(n: nat)
    ensures ParseDigits(NatToString(n)) == n
  {
    if n >= 10 {
      var s := NatToString(n);
      assert s[..|s| - 1] == NatToString(n / 10);
      ParseNatToString(n / 10);
    }
  }

  /** `n.toString()` is the canonical decimal text of `n`: a `-` exactly when
      `n` is negative, then digits only, with no leading zero, whose value is
      the magnitude of `n`. */
  lemma IntToStringCanonical(n: int)
    ensures CanonicalDecimal(IntToString(n), n)
  {
    if n < 0 {
      assert IntToString(n)[1..] == NatToString(-n);
      ParseNatToString(-n);
    } else {
      ParseNatToString(n);
    }
  }

  /** `toString` is the only canonical decimal text of an integer. */
  lemma CanonicalDecimalUnique(s: string, n: int)
    requires CanonicalDecimal(s, n)
    ensures s == IntToString(n)
  {
    var r := IntToString(n);
    IntToStringCanonical(n);
    if n < 0 {
      DigitsUnique(s[1..], r[1..]);
      assert s == [s[0]] + s[1..] && r == [r[0]] + r[1..];
    } else {
      DigitsUnique(s, r);
    }
  }

  /** The decimal form of an integer reads back as the same integer. */
  lemma ParseIntToString(n: int)
    ensures ParseInt(IntToString(n)) == n
  {
    IntToStringCanonical(n);
  }
}
