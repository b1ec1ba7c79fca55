/**
 * The ECMAScript string operations the matrix-literal reader relies on:
 * the white-space class of `\s` and `trim`, `substring`, `split` on one
 * character, and the bracket trimming and row extraction of MatrixTool.
 */
module Text {
  import opened Wrappers

  /** WhiteSpace or LineTerminator (sections 12.2 and 12.3 of ECMA-262), the class `\s` and `trim` use. */
  predicate IsSpace(c: char) {
    var n := c as int;
    n == 0x09 || n == 0x0A || n == 0x0B || n == 0x0C || n == 0x0D || n == 0x20 || n == 0xA0
    || n == 0x1680 || (0x2000 <= n <= 0x200A) || n == 0x2028 || n == 0x2029
    || n == 0x202F || n == 0x205F || n == 0x3000 || n == 0xFEFF
  }

  predicate AllSpace(s: string) {
    forall i :: 0 <= i < |s| ==> IsSpace(s[i])
  }

  // ---------------------------------------------------------------------
  // trim, and replace(/^\s*|\s*$/g, "")
  // ---------------------------------------------------------------------

  function TrimStart(s: string): (r: string)
    ensures |r| <= |s| && r == s[|s| - |r|..]
    ensures AllSpace(s[..|s| - |r|])
    ensures |r| == 0 || !IsSpace(r[0])
    decreases |s|
  {
    if |s| > 0 && IsSpace(s[0]) then
      var r := TrimStart(s[1..]);
      TrimStartStep(s, r);
      r
    else s
  }

  /** Trimming s[1..] trims s when s starts with white space. */
  lemma TrimStartStep(s: string, r: string)
    requires |s| > 0 && IsSpace(s[0])
    requires |r| <= |s[1..]| && r == s[1..][|s[1..]| - |r|..] && AllSpace(s[1..][..|s[1..]| - |r|])
    ensures r == s[|s| - |r|..] && AllSpace(s[..|s| - |r|])
  {
    assert s[..|s| - |r|] == [s[0]] + s[1..][..|s[1..]| - |r|];
    SpaceCons(s[0], s[1..][..|s[1..]| - |r|]);
  }

  /** A run of white space stays one when white space is put in front. */
  lemma SpaceCons(c: char, t: string)
    requires IsSpace(c) && AllSpace(t)
    ensures AllSpace([c] + t)
  {
    forall i | 0 <= i < |t| + 1
      ensures IsSpace(([c] + t)[i])
    {
      if i > 0 {
        assert ([c] + t)[i] == t[i - 1];
      }
    }
  }

  function TrimEnd(s: string): (r: string)
    ensures |r| <= |s| && r == s[..|r|]
    ensures AllSpace(s[|r|..])
    ensures |r| == 0 || !IsSpace(r[|r| - 1])
    decreases |s|
  {
    if |s| > 0 && IsSpace(s[|s| - 1]) then TrimEnd(s[..|s| - 1]) else s
  }

  /** The text without its leading and trailing white space. */
  function Trim(s: string): (r: string)
    ensures |r| == 0 || (!IsSpace(r[0]) && !IsSpace(r[|r| - 1]))
  {
    var t := TrimStart(s);
    var r := TrimEnd(t);
    assert |r| > 0 ==> r[0] == t[0];
    r
  }

  /** Trimming removes exactly the white space around the text and nothing else. */
  lemma {:induction false} TrimAround(lead: string, t: string, trail: string)
    requires AllSpace(lead) && AllSpace(trail)
    requires |t| == 0 || (!IsSpace(t[0]) && !IsSpace(t[|t| - 1]))
    ensures Trim(lead + t + trail) == t
  {
    assert lead + t + trail == lead + (t + trail);
    if |t| == 0 {
      assert t + trail == trail;
      TrimStartAllSpace(lead + trail);
    } else {
      TrimStartAround(lead, t + trail);
      TrimEndAround(t, trail);
    }
  }

  lemma {:induction false} TrimStartAllSpace(s: string)
    requires AllSpace(s)
    ensures TrimStart(s) == ""
    decreases |s|
  {
    if |s| > 0 {
      TrimStartAllSpace(s[1..]);
    }
  }

  lemma {:induction false} TrimStartAround(lead: string, u: string)
    requires AllSpace(lead) && (|u| == 0 || !IsSpace(u[0]))
    ensures TrimStart(lead + u) == u
    decreases |lead|
  {
    if |lead| > 0 {
      assert (lead + u)[1..] == lead[1..] + u;
      TrimStartAround(lead[1..], u);
    } else {
      assert lead + u == u;
    }
  }

  lemma {:induction false} TrimEndAround(u: string, trail: string)
    requires AllSpace(trail) && (|u| == 0 || !IsSpace(u[|u| - 1]))
    ensures TrimEnd(u + trail) == u
    decreases |trail|
  {
    if |trail| > 0 {
      var n := |u + trail|;
      assert (u + trail)[..n - 1] == u + trail[..|trail| - 1];
      TrimEndAround(u, trail[..|trail| - 1]);
    } else {
      assert u + trail == u;
    }
  }

  lemma TrimIdempotent(s: string)
    ensures Trim(Trim(s)) == Trim(s)
  {
    TrimAround("", Trim(s), "");
    assert "" + Trim(s) + "" == Trim(s);
  }

  // ---------------------------------------------------------------------
  // substring and split
  // ---------------------------------------------------------------------

  function Clamp(x: int, n: nat): (r: nat)
    ensures r <= n
  {
    if x < 0 then 0 else if x > n then n else x
  }

  /** String.prototype.substring: both ends clamped to the string, swapped when the start is past the end. */
  function Substring(s: string, start: int, end: int): (r: string)
    ensures |r| <= |s|
    ensures 0 <= start <= end <= |s| ==> r == s[start..end]
    ensures 0 <= end <= start <= |s| ==> r == s[end..start]
  {
    var a := Clamp(start, |s|);
    var b := Clamp(end, |s|);
    if a <= b then s[a..b] else s[b..a]
  }

  /** text.split(sep) for a one-character separator: every piece, empty ones included. */
  function Split(s: string, sep: char): (r: seq<string>)
    ensures |r| >= 1
    ensures forall k :: 0 <= k < |r| ==> sep !in r[k]
    decreases |s|
  {
    if |s| == 0 then [""]
    else if s[0] == sep then [""] + Split(s[1..], sep)
    else
      var rest := Split(s[1..], sep);
      [[s[0]] + rest[0]] + rest[1..]
  }

  /** The pieces glued back together with the separator. */
  function Join(parts: seq<string>, sep: char): string
    requires |parts| >= 1
    decreases |parts|
  {
    if |parts| == 1 then parts[0] else parts[0] + [sep] + Join(parts[1..], sep)
  }

  /** Splitting loses nothing: joining the pieces with the separator gives the text back. */
  lemma {:induction false} SplitJoin(s: string, sep: char)
    ensures Join(Split(s, sep), sep) == s
    decreases |s|
  {
    if |s| > 0 {
      SplitJoin(s[1..], sep);
      var rest := Split(s[1..], sep);
      if s[0] == sep {
        assert Split(s, sep)[1..] == rest;
        assert s == [sep] + s[1..];
      } else {
        var r := Split(s, sep);
        if |rest| == 1 {
          assert r == [[s[0]] + rest[0]];
        } else {
          assert r[1..] == rest[1..];
          assert Join(r, sep) == [s[0]] + rest[0] + [sep] + Join(rest[1..], sep);
          assert Join(rest, sep) == rest[0] + [sep] + Join(rest[1..], sep);
        }
        assert s == [s[0]] + s[1..];
      }
    }
  }

  /** Text without the separator is one piece. */
  lemma {:induction false} SplitNone(s: string, sep: char)
    requires sep !in s
    ensures Split(s, sep) == [s]
    decreases |s|
  {
    if |s| > 0 {
      assert sep !in s[1..] by {
        forall k | 0 <= k < |s[1..]| ensures s[1..][k] != sep {
          assert s[1..][k] == s[k + 1];
        }
      }
      SplitNone(s[1..], sep);
      assert [s[0]] + s[1..] == s;
    }
  }

  // ---------------------------------------------------------------------
  // trimBracket
  // ---------------------------------------------------------------------

  /** A character of the transpose suffix `(\s*')*`. */
  predicate IsDash(c: char) { IsSpace(c) || c == '\'' }

  predicate AllDash(s: string) {
    forall i :: 0 <= i < |s| ==> IsDash(s[i])
  }

  /** A run of white space and `'` stays one when either is appended. */
  lemma DashSnoc(t: string, c: char)
    requires AllDash(t) && IsDash(c)
    ensures AllDash(t + [c])
  {
    forall i | 0 <= i < |t| + 1
      ensures IsDash((t + [c])[i])
    {
      if i < |t| {
        assert (t + [c])[i] == t[i];
      }
    }
  }

  /** The number of `'` in s. */
  function QuoteCount(s: string): (n: nat)
    ensures n <= |s|
    decreases |s|
  {
    if |s| == 0 then 0 else (if s[|s| - 1] == '\'' then 1 else 0) + QuoteCount(s[..|s| - 1])
  }

  lemma {:induction false} QuoteCountAppend(a: string, b: string)
    ensures QuoteCount(a + b) == QuoteCount(a) + QuoteCount(b)
    decreases |b|
  {
    if |b| == 0 {
      assert a + b == a;
    } else {
      assert (a + b)[..|a + b| - 1] == a + b[..|b| - 1];
      QuoteCountAppend(a, b[..|b| - 1]);
    }
  }

  /**
   * The length of the longest suffix of s made of white space and `'`: with
   * s ending in `'` it is the first match of `(\s*')*$`.
   */
  function DashLength(s: string): (n: nat)
    ensures n <= |s| && AllDash(s[|s| - n..])
    ensures n < |s| ==> !IsDash(s[|s| - n - 1])
    decreases |s|
  {
    if |s| > 0 && IsDash(s[|s| - 1]) then
      var m := DashLength(s[..|s| - 1]);
      assert s[|s| - (m + 1)..] == s[..|s| - 1][|s| - 1 - m..] + [s[|s| - 1]];
      DashSnoc(s[..|s| - 1][|s| - 1 - m..], s[|s| - 1]);
      m + 1
    else 0
  }

  datatype Bracketed = Bracketed(text: string, is_transpose: bool)

  /**
   * trimBracket: a trailing run of `'` (white space allowed between them) is
   * cut off and marks a transpose when it holds an odd number of quotes; what
   * is left must start with `[` and end with `]`, which are removed.
   */
  function TrimBracket(text: string): (r: Option<Bracketed>)
    ensures r.Some? ==>
      var t := r.value.text;
      |t| + 2 <= |text| && text[..|t| + 2] == "[" + t + "]"
      && AllDash(text[|t| + 2..])
      && (r.value.is_transpose <==> QuoteCount(text[|t| + 2..]) % 2 == 1)
  {
    var dash := if |text| > 0 && text[|text| - 1] == '\'' then DashLength(text) else 0;
    var input := text[..|text| - dash];
    var is_transpose := QuoteCount(text[|text| - dash..]) % 2 == 1;
    if |input| > 0 && input[0] == '[' && input[|input| - 1] == ']' then
      assert |input| >= 2;
      var t := input[1..|input| - 1];
      assert input == "[" + t + "]";
      Some(Bracketed(t, is_transpose))
    else None
  }

  /**
   * Bracketed text followed by a transpose suffix is read back exactly: the
   * inner text, and a transpose when the suffix has an odd number of quotes.
   */
  lemma TrimBracketRoundTrip(t: string, q: string)
    requires AllDash(q) && (|q| == 0 || q[|q| - 1] == '\'')
    ensures TrimBracket("[" + t + "]" + q) == Some(Bracketed(t, QuoteCount(q) % 2 == 1))
  {
    var text := "[" + t + "]" + q;
    if |q| > 0 {
      DashSuffixExact("[" + t + "]", q);
    }
    assert text[..|text| - |q|] == "[" + t + "]";
    assert text[|text| - |q|..] == q;
  }

  lemma {:induction false} DashSuffixExact(p: string, q: string)
    requires |p| > 0 && !IsDash(p[|p| - 1]) && AllDash(q)
    ensures DashLength(p + q) == |q|
    decreases |q|
  {
    var s := p + q;
    if |q| == 0 {
      assert s == p;
    } else {
      assert s[..|s| - 1] == p + q[..|q| - 1];
      assert s[|s| - 1] == q[|q| - 1];
      DashSuffixExact(p, q[..|q| - 1]);
    }
  }

  /** Text that does not end in `]` once the quotes are cut off has no brackets to trim. */
  lemma TrimBracketUnbracketed(text: string)
    requires |text| == 0 || !IsDash(text[|text| - 1])
    requires |text| == 0 || text[|text| - 1] != ']' || text[0] != '['
    ensures TrimBracket(text) == None
  {
  }

  // ---------------------------------------------------------------------
  // The rows of a JSON-style literal, /\[[^\]]+\]/g
  // ---------------------------------------------------------------------

  /** The index of the first `]` in s, if any. */
  function CloseIndex(s: string): (r: Option<nat>)
    ensures r.Some? ==> r.value < |s| && s[r.value] == ']' && ']' !in s[..r.value]
    ensures r.None? ==> ']' !in s
    decreases |s|
  {
    if |s| == 0 then None
    else if s[0] == ']' then Some(0)
    else
      var r := CloseIndex(s[1..]);
      if r.None? then None
      else
        assert s[..r.value + 1] == [s[0]] + s[1..][..r.value];
        Some(r.value + 1)
  }

  /**
   * Every match of /\[[^\]]+\]/g, left to right: a `[`, at least one
   * character other than `]`, and the first `]` after it.
   */
  function BracketGroups(s: string): (r: seq<string>)
    ensures forall k :: 0 <= k < |r| ==> |r[k]| >= 3 && r[k][0] == '[' && r[k][|r[k]| - 1] == ']'
    decreases |s|
  {
    if |s| == 0 then []
    else if s[0] != '[' then BracketGroups(s[1..])
    else
      var c := CloseIndex(s[1..]);
      if c.None? then []
      else if c.value == 0 then BracketGroups(s[1..])
      else [s[..c.value + 2]] + BracketGroups(s[c.value + 2..])
  }

  /** A bracketed group is read as one row, and reading resumes right after it. */
  lemma BracketGroupsCons(a: string, rest: string)
    requires |a| > 0 && ']' !in a
    ensures BracketGroups("[" + a + "]" + rest) == ["[" + a + "]"] + BracketGroups(rest)
  {
    var s := "[" + a + "]" + rest;
    assert s[1..] == a + "]" + rest;
    CloseOf(a, rest);
    assert s[..|a| + 2] == "[" + a + "]";
    assert s[|a| + 2..] == rest;
  }

  /** `[a],[b]` holds the two groups `[a]` and `[b]`. */
  lemma TwoGroups(a: string, b: string)
    requires |a| > 0 && ']' !in a && |b| > 0 && ']' !in b
    ensures BracketGroups("[" + a + "]" + ",[" + b + "]") == ["[" + a + "]", "[" + b + "]"]
  {
    CommaJoin(a, b);
    LastGroup(b);
    BracketGroupsCons(a, "," + ("[" + b + "]"));
  }

  lemma CommaJoin(a: string, b: string)
    ensures "[" + a + "]" + ",[" + b + "]" == ("[" + a + "]") + ("," + ("[" + b + "]"))
  {
  }

  /** `,[b]` at the end holds the one group `[b]`. */
  lemma LastGroup(b: string)
    requires |b| > 0 && ']' !in b
    ensures BracketGroups("," + ("[" + b + "]")) == ["[" + b + "]"]
  {
    SkipComma("[" + b + "]");
    BracketGroupsCons(b, "");
    assert "[" + b + "]" + "" == "[" + b + "]";
  }

  /** A comma before a group is skipped. */
  lemma SkipComma(t: string)
    ensures BracketGroups("," + t) == BracketGroups(t)
  {
    assert ("," + t)[1..] == t;
  }

  lemma CloseOf(a: string, rest: string)
    requires ']' !in a
    ensures CloseIndex(a + "]" + rest) == Some(|a|)
  {
    var s := a + "]" + rest;
    assert s[|a|] == ']';
  }

  // ---------------------------------------------------------------------
  // toLocaleLowerCase on the Basic Latin letters
  // ---------------------------------------------------------------------

  predicate IsUpper(c: char) { 'A' <= c <= 'Z' }

  function LowerChar(c: char): (d: char)
    ensures !IsUpper(d)
    ensures IsUpper(c) ==> d as int == c as int + 32
    ensures !IsUpper(c) ==> d == c
  {
    if IsUpper(c) then (c as int + 32) as char else c
  }

  /** The text with A–Z mapped to a–z and every other character kept. */
  function LowerAscii(s: string): (r: string)
    ensures |r| == |s| && forall i :: 0 <= i < |s| ==> r[i] == LowerChar(s[i])
  {
    seq(|s|, i requires 0 <= i < |s| => LowerChar(s[i]))
  }

  /** Lower-casing twice is lower-casing once, and text without capitals is kept. */
  lemma LowerAsciiIdempotent(s: string)
    ensures LowerAscii(LowerAscii(s)) == LowerAscii(s)
    ensures (forall i :: 0 <= i < |s| ==> !IsUpper(s[i])) ==> LowerAscii(s) == s
  {
  }

  // ---------------------------------------------------------------------
  // String(n) for an integer n
  // ---------------------------------------------------------------------

  predicate IsDigit(c: char) { '0' <= c <= '9' }

  function Digit(d: nat): (c: char)
    requires d < 10
    ensures IsDigit(c) && c as int - '0' as int == d
  {
    ('0' as int + d) as char
  }

  /** The decimal numeral of n, without leading zeros. */
  function NatText(n: nat): (s: string)
    ensures |s| > 0 && forall i :: 0 <= i < |s| ==> IsDigit(s[i])
    ensures |s| > 1 ==> s[0] != '0'
    decreases n
  {
    if n < 10 then [Digit(n)] else NatText(n / 10) + [Digit(n % 10)]
  }

  function DigitOf(c: char): (d: nat)
    requires IsDigit(c)
    ensures d < 10 && Digit(d) == c
  {
    c as int - '0' as int
  }

  /** The integer a string of digits denotes. */
  function DigitsValue(s: string): nat
    requires forall i :: 0 <= i < |s| ==> IsDigit(s[i])
    decreases |s|
  {
    if |s| == 0 then 0 else 10 * DigitsValue(s[..|s| - 1]) + DigitOf(s[|s| - 1])
  }

  /** Reading the numeral back gives the number. */
  lemma {:induction false} NatTextValue(n: nat)
    ensures DigitsValue(NatText(n)) == n
    decreases n
  {
    if n >= 10 {
      NatTextValue(n / 10);
      var s := NatText(n);
      assert s[..|s| - 1] == NatText(n / 10);
    }
  }

  /** Different numbers have different numerals. */
  lemma NatTextInjective(m: nat, n: nat)
    requires NatText(m) == NatText(n)
    ensures m == n
  {
    NatTextValue(m);
    NatTextValue(n);
  }

  /** String(n): a minus sign before a negative number. */
  function IntText(n: int): (s: string)
    ensures n >= 0 ==> s == NatText(n)
    ensures n < 0 ==> s == "-" + NatText(-n)
  {
    if n < 0 then "-" + NatText(-n) else NatText(n)
  }
}
