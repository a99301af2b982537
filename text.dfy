/** The JavaScript string built-ins the program uses (`toLowerCase`, `endsWith`,
    `trim`, the regular-expression classes `\d`, `\w`, `\s` and `.`, and
    `String(n)` for a natural number), on `string`, which is `seq<char>`. */
module Text {
  import opened Seqs

  /** Lower-casing of one character, on the ASCII letters. */
  function LowerChar(c: char): char {
    if 'A' <= c <= 'Z' then (c as int + 32) as char else c
  }

  /** `String.prototype.toLowerCase`, on the ASCII letters. */
  function Lower(s: string): string {
    seq(|s|, i requires 0 <= i < |s| => LowerChar(s[i]))
  }

  /** Lower-casing works character by character, so it distributes over concatenation. */
  lemma LowerAppend(a: string, b: string)
    ensures Lower(a + b) == Lower(a) + Lower(b)
  {
  }

  /** Lower-casing keeps the length and commutes with taking a suffix. */
  lemma LowerSuffix(s: string, k: nat)
    requires k <= |s|
    ensures |Lower(s)| == |s| && Lower(s)[k..] == Lower(s[k..])
  {
  }

  /** Lower-casing twice is lower-casing once. */
  lemma LowerIdempotent(s: string)
    ensures Lower(Lower(s)) == Lower(s)
  {
  }

  /** `String.prototype.startsWith`. */
  predicate StartsWith(s: string, prefix: string) {
    |prefix| <= |s| && s[..|prefix|] == prefix
  }

  /** `String.prototype.endsWith`. */
  predicate EndsWith(s: string, suffix: string) {
    |suffix| <= |s| && s[|s| - |suffix|..] == suffix
  }

  /** A string ends with what was appended to it. */
  lemma EndsWithAppended(x: string, e: string)
    ensures EndsWith(x + e, e)
  {
    assert (x + e)[|x|..] == e;
  }

  /** A suffix of a suffix is a suffix. */
  lemma EndsWithTrans(s: string, t: string, u: string)
    requires EndsWith(s, t) && EndsWith(t, u)
    ensures EndsWith(s, u)
  {
    assert s[|s| - |u|..] == t[|t| - |u|..];
  }

  /** Cutting a suffix off and putting it back gives the string. */
  lemma CutSuffix(s: string, suffix: string)
    requires EndsWith(s, suffix)
    ensures s[..|s| - |suffix|] + suffix == s
  {
    assert s[..|s| - |suffix|] + s[|s| - |suffix|..] == s;
  }

  /** `s.toLowerCase().endsWith(suffix.toLowerCase())`. */
  predicate EndsWithIgnoringCase(s: string, suffix: string) {
    EndsWith(Lower(s), Lower(suffix))
  }

  /** A string that literally ends with `suffix` also does so ignoring case. */
  lemma EndsWithIgnoresCase(s: string, suffix: string)
    requires EndsWith(s, suffix)
    ensures EndsWithIgnoringCase(s, suffix)
  {
    LowerSuffix(s, |s| - |suffix|);
  }

  /** A suffix of a suffix is a suffix, ignoring case. */
  lemma EndsWithIgnoringCaseTrans(s: string, t: string, suffix: string)
    requires EndsWith(s, t) && EndsWithIgnoringCase(t, suffix)
    ensures EndsWithIgnoringCase(s, suffix)
  {
    LowerSuffix(s, |s| - |t|);
    var ls, lt, lx := Lower(s), Lower(t), Lower(suffix);
    assert ls[|ls| - |lt|..] == lt;
    assert ls[|ls| - |lx|..] == lt[|lt| - |lx|..];
  }

  /** The regular-expression class `\d`. */
  predicate IsDigit(c: char) {
    '0' <= c <= '9'
  }

  /** The regular-expression class `\w`. */
  predicate IsWordChar(c: char) {
    'a' <= c <= 'z' || 'A' <= c <= 'Z' || '0' <= c <= '9' || c == '_'
  }

  /** The line terminators, which the regular-expression `.` does not match. */
  predicate IsLineTerminator(c: char) {
    c == '\n' || c == '\r' || c as int == 0x2028 || c as int == 0x2029
  }

  /** The regular-expression class `\s`, which is also what `trim` removes:
      the ECMAScript white space and line terminator characters. */
  predicate IsSpace(c: char) {
    var n := c as int;
    n == 0x09 || n == 0x0A || n == 0x0B || n == 0x0C || n == 0x0D || n == 0x20
    || n == 0xA0 || n == 0x1680 || (0x2000 <= n <= 0x200A)
    || n == 0x2028 || n == 0x2029 || n == 0x202F || n == 0x205F
    || n == 0x3000 || n == 0xFEFF
  }

  /** `String.prototype.trim`: what lies between the leading and the trailing
      run of white space. What it cuts off is white space only, and what it
      keeps neither begins nor ends with white space. */
  function Trim(s: string): (r: string)
    ensures LeadingCount(s, IsSpace) + |r| <= |s|
    ensures r == s[LeadingCount(s, IsSpace)..LeadingCount(s, IsSpace) + |r|]
    ensures forall k :: 0 <= k < LeadingCount(s, IsSpace) ==> IsSpace(s[k])
    ensures forall k :: LeadingCount(s, IsSpace) + |r| <= k < |s| ==> IsSpace(s[k])
    ensures r == [] || (!IsSpace(r[0]) && !IsSpace(r[|r| - 1]))
  {
    Strip(s, IsSpace)
  }

  /** A string that neither begins nor ends with white space is its own trim. */
  lemma TrimOfTrimmed(s: string)
    requires s == [] || (!IsSpace(s[0]) && !IsSpace(s[|s| - 1]))
    ensures Trim(s) == s
  {
    StripOfStripped(s, IsSpace);
  }

  /** Trimming a string padded with white space on both sides gives back
      what was padded, when that neither begins nor ends with white space. */
  lemma TrimOfPadded(w1: string, m: string, w2: string)
    requires forall k :: 0 <= k < |w1| ==> IsSpace(w1[k])
    requires forall k :: 0 <= k < |w2| ==> IsSpace(w2[k])
    requires m != [] && !IsSpace(m[0]) && !IsSpace(m[|m| - 1])
    ensures Trim(w1 + m + w2) == m
  {
    var s := w1 + m + w2;
    var r := Trim(s);
    var lead := LeadingCount(s, IsSpace);
    assert s[|w1|] == m[0];
    assert s[|w1| + |m| - 1] == m[|m| - 1];
    assert r != [];
    assert lead == |w1| by {
      assert r[0] == s[lead];
    }
    var end := lead + |r|;
    assert end == |w1| + |m| by {
      assert r[|r| - 1] == s[end - 1];
    }
    assert r == s[|w1|..|w1| + |m|];
  }

  /** Trimming is idempotent. */
  lemma TrimIdempotent(s: string)
    ensures Trim(Trim(s)) == Trim(s)
  {
    TrimOfTrimmed(Trim(s));
  }

  /** Neither a single nor a double quote. */
  predicate IsNotQuote(c: char) {
    c != '\'' && c != '"'
  }

  /** `replace(/['"]/g, '')`: deletes every single and double quote. */
  function RemoveQuotes(s: string): (r: string)
    ensures forall c :: c in r <==> c in s && c != '\'' && c != '"'
  {
    Filter(s, IsNotQuote)
  }

  /** Quote removal works piece by piece, so the characters kept stay in
      their order. */
  lemma RemoveQuotesAppend(a: string, b: string)
    ensures RemoveQuotes(a + b) == RemoveQuotes(a) + RemoveQuotes(b)
  {
    FilterAppend(a, b, IsNotQuote);
  }

  /** One character is dropped exactly when it is a quote; with
      `RemoveQuotesAppend` this fixes the result of every string. */
  lemma RemoveQuotesOne(c: char)
    ensures RemoveQuotes([c]) == if c == '\'' || c == '"' then [] else [c]
  {
    FilterOne(c, IsNotQuote);
  }

  /** The decimal digit for `d < 10`. */
  function DigitChar(d: nat): (c: char)
    requires d < 10
    ensures IsDigit(c)
  {
    ('0' as int + d) as char
  }

  /** `String(n)` for a natural number: its decimal numeral without leading zeros. */
  function NatToString(n: nat): (r: string)
    ensures r != [] && forall k :: 0 <= k < |r| ==> IsDigit(r[k])
    ensures n >= 10 ==> |r| >= 2
  {
    if n < 10 then [DigitChar(n)] else NatToString(n / 10) + [DigitChar(n % 10)]
  }

  /** The value of a decimal numeral (`parseInt` on digits only). */
  function DecimalValue(s: string): nat
    requires forall k :: 0 <= k < |s| ==> IsDigit(s[k])
  {
    if s == [] then 0
    else
      assert IsDigit(s[|s| - 1]);
      DecimalValue(s[..|s| - 1]) * 10 + (s[|s| - 1] as int - '0' as int)
  }

  /** Reading back the numeral of `n` gives `n`. */
  lemma {:induction false} DecimalRoundTrip(n: nat)
    ensures DecimalValue(NatToString(n)) == n
  {
    if n >= 10 {
      DecimalRoundTrip(n / 10);
      var s := NatToString(n);
      assert s[..|s| - 1] == NatToString(n / 10);
    }
  }

  /** Different numbers have different numerals. */
  lemma NatToStringInjective(a: nat, b: nat)
    requires NatToString(a) == NatToString(b)
    ensures a == b
  {
    DecimalRoundTrip(a);
    DecimalRoundTrip(b);
  }
}
