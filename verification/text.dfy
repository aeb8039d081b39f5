/** String helpers the store applies to its inputs: Python's `str.strip()`,
    `str.lower()` restricted to ASCII, and the decimal text of a row id
    (the user-management window hands ids to the store as text). */
module Text {

  /** Python's `str.isspace()`: the characters whose bidirectional class is
      WS, B or S, or whose category is Zs. */
  predicate IsSpace(c: char) {
    var n := c as int;
    || (9 <= n <= 13) || (28 <= n <= 32) || n == 0x85 || n == 0xA0
    || n == 0x1680 || (0x2000 <= n <= 0x200A) || n == 0x2028 || n == 0x2029
    || n == 0x202F || n == 0x205F || n == 0x3000
  }

  /** No whitespace at either end: what `strip()` leaves. */
  predicate Trimmed(s: string) {
    |s| == 0 || (!IsSpace(s[0]) && !IsSpace(s[|s| - 1]))
  }

  /** The first index at or after `i` that does not hold whitespace. */
  function SkipSpaces(s: string, i: nat): (k: nat)
    requires i <= |s|
    ensures i <= k <= |s|
    ensures forall m :: i <= m < k ==> IsSpace(s[m])
    ensures k == |s| || !IsSpace(s[k])
    decreases |s| - i
  {
    if i < |s| && IsSpace(s[i]) then SkipSpaces(s, i + 1) else i
  }

  /** The end of `s[lo..j]` once its trailing whitespace is dropped. */
  function DropTrailing(s: string, lo: nat, j: nat): (k: nat)
    requires lo <= j <= |s|
    ensures lo <= k <= j
    ensures forall m :: k <= m < j ==> IsSpace(s[m])
    ensures k == lo || !IsSpace(s[k - 1])
  {
    if lo < j && IsSpace(s[j - 1]) then DropTrailing(s, lo, j - 1) else j
  }

  /** Python's `s.strip()`: the infix of `s` left once the whitespace at both
      ends is cut off. */
  function Strip(s: string): (r: string)
    ensures Trimmed(r)
    ensures exists i, j ::
      (&& 0 <= i <= j <= |s| && r == s[i..j]
       && (forall m :: 0 <= m < i ==> IsSpace(s[m]))
       && (forall m :: j <= m < |s| ==> IsSpace(s[m])))
  {
    var i := SkipSpaces(s, 0);
    var j := DropTrailing(s, i, |s|);
    assert i < j ==> s[i..j][0] == s[i] && s[i..j][j - i - 1] == s[j - 1];
    s[i..j]
  }

  /** A string that already has no whitespace at its ends is its own strip. */
  lemma StripTrimmed(s: string)
    requires Trimmed(s)
    ensures Strip(s) == s
  {
    assert SkipSpaces(s, 0) == 0;
    if |s| > 0 {
      assert DropTrailing(s, 0, |s|) == |s|;
    }
    assert s[0..|s|] == s;
  }

  /** Stripping twice is stripping once. */
  lemma StripIdempotent(s: string)
    ensures Strip(Strip(s)) == Strip(s)
  {
    StripTrimmed(Strip(s));
  }

  predicate IsUpper(c: char) {
    'A' <= c <= 'Z'
  }

  function LowerChar(c: char): (r: char)
    ensures !IsUpper(r)
    ensures IsSpace(r) <==> IsSpace(c)
    ensures !IsUpper(c) ==> r == c
  {
    if IsUpper(c) then (c as int + 32) as char else c
  }

  /** `str.lower()` on ASCII letters: every upper-case letter becomes its
      lower-case form, every other character is kept. */
  function Lower(s: string): (r: string)
    ensures |r| == |s|
    ensures forall i :: 0 <= i < |r| ==> !IsUpper(r[i])
    ensures forall i :: 0 <= i < |r| ==> (IsUpper(s[i]) <==> r[i] != s[i])
    ensures forall i :: 0 <= i < |r| ==> (IsSpace(r[i]) <==> IsSpace(s[i]))
    ensures forall i :: 0 <= i < |s| && IsUpper(s[i]) ==>
      'a' <= r[i] <= 'z' && r[i] as int - 'a' as int == s[i] as int - 'A' as int
  {
    seq(|s|, i requires 0 <= i < |s| => LowerChar(s[i]))
  }

  /** A string with no upper-case letter is unchanged by `lower()`. */
  lemma LowerOfLower(s: string)
    requires forall i :: 0 <= i < |s| ==> !IsUpper(s[i])
    ensures Lower(s) == s
  {
  }

  /** Two characters that are equal, or are the same ASCII letter in the
      two cases. */
  predicate SameIgnoringCase(a: char, b: char) {
    || a == b
    || (IsUpper(a) && b as int == a as int + 32)
    || (IsUpper(b) && a as int == b as int + 32)
  }

  /** Spellings that differ only in the case of ASCII letters lower alike. */
  lemma LowerIgnoresCase(s: string, t: string)
    requires |s| == |t|
    requires forall i :: 0 <= i < |s| ==> SameIgnoringCase(s[i], t[i])
    ensures Lower(s) == Lower(t)
  {
  }

  /** How the store normalises an email: `email.strip().lower()`. */
  function NormEmail(e: string): (r: string)
    ensures Trimmed(r)
    ensures forall i :: 0 <= i < |r| ==> !IsUpper(r[i])
  {
    Lower(Strip(e))
  }

  /** Normalising an already normalised email changes nothing, so the stored
      form of an email finds its own row again. */
  lemma NormEmailIdempotent(e: string)
    ensures NormEmail(NormEmail(e)) == NormEmail(e)
  {
    var n := NormEmail(e);
    StripTrimmed(n);
    LowerOfLower(n);
  }

  /** Spellings whose stripped forms differ only in letter case normalise
      to the same email. */
  lemma NormEmailIgnoresCase(e1: string, e2: string)
    requires |Strip(e1)| == |Strip(e2)|
    requires forall i :: 0 <= i < |Strip(e1)| ==> SameIgnoringCase(Strip(e1)[i], Strip(e2)[i])
    ensures NormEmail(e1) == NormEmail(e2)
  {
    LowerIgnoresCase(Strip(e1), Strip(e2));
  }

  function Digit(d: nat): (c: char)
    requires d < 10
    ensures '0' <= c <= '9'
  {
    ('0' as int + d) as char
  }

  /** The decimal text of an id, as SQLite renders an INTEGER column. */
  function IdText(n: nat): (r: string)
    ensures 1 <= |r|
    ensures n < 10 <==> |r| == 1
    ensures forall i :: 0 <= i < |r| ==> '0' <= r[i] <= '9'
  {
    if n < 10 then [Digit(n)] else IdText(n / 10) + [Digit(n % 10)]
  }

  /** Distinct ids have distinct decimal texts, so a text key matches at most
      one id. */
  lemma {:induction false} IdTextInjective(a: nat, b: nat)
    requires IdText(a) == IdText(b)
    ensures a == b
  {
    var ta, tb := IdText(a), IdText(b);
    if a < 10 || b < 10 {
      assert a < 10 && b < 10;
      assert ta[0] == Digit(a) && tb[0] == Digit(b);
    } else {
      assert ta[|ta| - 1] == Digit(a % 10) && tb[|tb| - 1] == Digit(b % 10);
      assert ta[..|ta| - 1] == IdText(a / 10);
      assert tb[..|tb| - 1] == IdText(b / 10);
      IdTextInjective(a / 10, b / 10);
    }
  }

  /** The number a string of decimal digits spells, read most significant
      digit first (Horner's rule). */
  function DecimalValue(s: string): nat
    requires forall i :: 0 <= i < |s| ==> '0' <= s[i] <= '9'
  {
    if |s| == 0 then 0
    else 10 * DecimalValue(s[..|s| - 1]) + (s[|s| - 1] as int - '0' as int)
  }

  /** `IdText(n)` is `str(n)`: its digits spell `n`, with no leading zero. */
  lemma {:induction false} IdTextIsDecimal(n: nat)
    ensures DecimalValue(IdText(n)) == n
    ensures |IdText(n)| > 1 ==> IdText(n)[0] != '0'
  {
    var r := IdText(n);
    if n >= 10 {
      IdTextIsDecimal(n / 10);
      assert r[..|r| - 1] == IdText(n / 10);
      assert r[0] == IdText(n / 10)[0];
    }
  }
}
