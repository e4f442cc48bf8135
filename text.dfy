/** `String.prototype.trim` over Dafny strings (sequences of Unicode scalar values). */
module Text {

  /** The characters `trim` strips: ECMAScript's WhiteSpace (tab, vertical tab,
      form feed, the zero-width no-break space U+FEFF and every Unicode space
      separator, category Zs) and LineTerminator (line feed, carriage return,
      line separator, paragraph separator). The Zs members are those of the
      current Unicode version. Among ASCII characters exactly space, tab,
      line feed, vertical tab, form feed and carriage return qualify, and
      every whitespace character lies in the Basic Multilingual Plane. */
  predicate IsWhitespace(c: char): (b: bool)
    ensures c as int < 0x80 ==> (b <==> c == ' ' || '\t' <= c <= '\r')
    ensures b ==> c as int <= 0xFFFF
  {
    || c == '\t' || c == '\n' || c == '\U{B}' || c == '\U{C}' || c == '\r'
    || c == ' ' || c == '\U{A0}' || c == '\U{1680}'
    || ('\U{2000}' <= c <= '\U{200A}')
    || c == '\U{2028}' || c == '\U{2029}' || c == '\U{202F}' || c == '\U{205F}'
    || c == '\U{3000}' || c == '\U{FEFF}'
  }

  /** Empty, or made of whitespace only. */
  predicate IsBlank(s: string)
  {
    forall i | 0 <= i < |s| :: IsWhitespace(s[i])
  }

  /** Scanning forward from `i`: the position of the first character that is
      not whitespace, or `|s|` when there is none. */
  function SkipBlanks(s: string, i: nat): (j: nat)
    requires i <= |s|
    ensures i <= j <= |s|
    ensures forall n | i <= n < j :: IsWhitespace(s[n])
    ensures j == |s| || !IsWhitespace(s[j])
    decreases |s| - i
  {
    if i < |s| && IsWhitespace(s[i]) then SkipBlanks(s, i + 1) else i
  }

  /** Scanning backward from `j`, never past `lo`: the position just after
      the last character that is not whitespace, or `lo` when there is none. */
  function BackOverBlanks(s: string, lo: nat, j: nat): (k: nat)
    requires lo <= j <= |s|
    ensures lo <= k <= j
    ensures forall n | k <= n < j :: IsWhitespace(s[n])
    ensures k == lo || !IsWhitespace(s[k - 1])
    decreases j
  {
    if lo < j && IsWhitespace(s[j - 1]) then BackOverBlanks(s, lo, j - 1) else j
  }

  /** `s.trim()`: `s` without its leading and trailing whitespace. The result
      is empty exactly when `s` is blank, and otherwise it neither starts nor
      ends with whitespace. TrimIsInfix says where in `s` it comes from. */
  function Trim(s: string): (r: string)
    ensures |r| <= |s|
    ensures r == [] <==> IsBlank(s)
    ensures r == [] || (!IsWhitespace(r[0]) && !IsWhitespace(r[|r| - 1]))
  {
    var start := SkipBlanks(s, 0);
    s[start..BackOverBlanks(s, start, |s|)]
  }

  /** `s.trim()` is the piece of `s` left between a blank prefix and a blank suffix. */
  lemma TrimIsInfix(s: string)
    ensures var k := SkipBlanks(s, 0);
      && k + |Trim(s)| <= |s|
      && Trim(s) == s[k..k + |Trim(s)|]
      && IsBlank(s[..k]) && IsBlank(s[k + |Trim(s)|..])
  {
  }

  /** A non-empty string that neither starts nor ends with whitespace is its own trim. */
  lemma TrimKeepsTrimmed(s: string)
    requires s != [] && !IsWhitespace(s[0]) && !IsWhitespace(s[|s| - 1])
    ensures Trim(s) == s
  {
  }

  /** Trimming a trimmed string changes nothing. */
  lemma TrimIdempotent(s: string)
    ensures Trim(Trim(s)) == Trim(s)
  {
  }
}
