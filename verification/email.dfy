/** The email check of `utils/validators.py` (and its copy in `utils.py`):
    `re.match` of the pattern
      ^[a-z0-9]+[\._]?[a-z0-9]+[@]\w+[.]\w+$
    against the whole string. `RegexMatch` reads the pattern off piece by
    piece as a declarative reference; `ValidarEmail` is a recogniser that
    splits at the first '@' and checks each side; the two agree on every
    string. `\w` is taken over ASCII. */
module EmailFormat {
  import opened Text

  /** `[a-z0-9]` */
  predicate IsAlnumLower(c: char) {
    'a' <= c <= 'z' || '0' <= c <= '9'
  }

  /** `\w` over ASCII: letters, digits and the underscore. */
  predicate IsWord(c: char) {
    'a' <= c <= 'z' || 'A' <= c <= 'Z' || '0' <= c <= '9' || c == '_'
  }

  /** `[\._]` */
  predicate IsSep(c: char) {
    c == '.' || c == '_'
  }

  predicate AllAlnum(s: string) {
    forall k :: 0 <= k < |s| ==> IsAlnumLower(s[k])
  }

  predicate AllWord(s: string) {
    forall k :: 0 <= k < |s| ==> IsWord(s[k])
  }

  /** `[a-z0-9]+[\._]?[a-z0-9]+`: the string is `l[..i] + l[i..j] + l[j..]`
      with both outer pieces non-empty runs of `[a-z0-9]` and the middle
      piece empty or one separator. */
  ghost predicate LocalPart(l: string) {
    exists i, j ::
      (&& 1 <= i <= j < |l| && j <= i + 1
       && AllAlnum(l[..i]) && AllAlnum(l[j..])
       && (j == i + 1 ==> IsSep(l[i])))
  }

  /** The pattern from `^` to `$` without the final-newline allowance:
      local part, '@', `\w+`, '.', `\w+`, and nothing after. */
  ghost predicate Matched(s: string) {
    exists a, b ::
      (&& 0 <= a && a + 1 < b && b + 1 < |s|
       && s[a] == '@' && s[b] == '.'
       && LocalPart(s[..a]) && AllWord(s[a + 1..b]) && AllWord(s[b + 1..]))
  }

  /** `re.match(pattern, s) is not None`: without MULTILINE, Python's `$`
      matches at the very end and also just before a final '\n'. */
  ghost predicate RegexMatch(s: string) {
    || Matched(s)
    || (|s| > 0 && s[|s| - 1] == '\n' && Matched(s[..|s| - 1]))
  }

  /** The first index at or after `i` holding `c`, or `|s|`. */
  function FindChar(s: string, c: char, i: nat): (k: nat)
    requires i <= |s|
    ensures i <= k <= |s|
    ensures forall m :: i <= m < k ==> s[m] != c
    ensures k == |s| || s[k] == c
    decreases |s| - i
  {
    if i == |s| || s[i] == c then i else FindChar(s, c, i + 1)
  }

  /** The first index at or after `i` holding a separator, or `|s|`. */
  function FindSep(s: string, i: nat): (k: nat)
    requires i <= |s|
    ensures i <= k <= |s|
    ensures forall m :: i <= m < k ==> !IsSep(s[m])
    ensures k == |s| || IsSep(s[k])
    decreases |s| - i
  {
    if i == |s| || IsSep(s[i]) then i else FindSep(s, i + 1)
  }

  /** The part before '@': split at the first separator, if any. */
  predicate LocalOk(l: string) {
    var i := FindSep(l, 0);
    && 1 <= i && AllAlnum(l[..i])
    && (i == |l| ==> 2 <= |l|)
    && (i < |l| ==> i + 1 < |l| && AllAlnum(l[i + 1..]))
  }

  /** The part after '@': split at the first '.'. */
  predicate DomainOk(d: string) {
    var b := FindChar(d, '.', 0);
    1 <= b && b + 1 < |d| && AllWord(d[..b]) && AllWord(d[b + 1..])
  }

  /** The string `$` is checked against: one final newline is ignored. */
  function Body(s: string): (c: string)
    ensures c == s || (|s| > 0 && s[|s| - 1] == '\n' && c == s[..|s| - 1])
  {
    if |s| > 0 && s[|s| - 1] == '\n' then s[..|s| - 1] else s
  }

  /** Split at the first '@' and check both sides. */
  predicate Recognised(c: string) {
    var a := FindChar(c, '@', 0);
    a < |c| && LocalOk(c[..a]) && DomainOk(c[a + 1..])
  }

  /** `validar_email`: the body of the string is recognised, which is to
      say that `re.match` finds the pattern. */
  function ValidarEmail(email: string): (ok: bool)
    ensures ok <==> RegexMatch(email)
  {
    BodyRecognisedIsRegex(email);
    Recognised(Body(email))
  }

  lemma {:induction false} LocalOkIsLocalPart(l: string)
    requires LocalOk(l)
    ensures LocalPart(l)
  {
    var i := FindSep(l, 0);
    if i == |l| {
      assert l[..1] == l[..i][..1] && l[1..] == l[..i][1..];
      assert AllAlnum(l[..1]) && AllAlnum(l[1..]);
    } else {
      assert AllAlnum(l[..i]) && AllAlnum(l[i + 1..]) && IsSep(l[i]);
    }
  }

  lemma {:induction false} LocalPartIsLocalOk(l: string)
    requires LocalPart(l)
    ensures LocalOk(l)
    ensures forall k :: 0 <= k < |l| ==> IsAlnumLower(l[k]) || IsSep(l[k])
  {
    var i, j :| (&& 1 <= i <= j < |l| && j <= i + 1
                 && AllAlnum(l[..i]) && AllAlnum(l[j..])
                 && (j == i + 1 ==> IsSep(l[i])));
    forall k | 0 <= k < |l| ensures IsAlnumLower(l[k]) || IsSep(l[k]) {
      if k < i {
        assert l[..i][k] == l[k];
      } else if k >= j {
        assert l[j..][k - j] == l[k];
      }
    }
    forall m | 0 <= m < i ensures !IsSep(l[m]) {
      assert l[..i][m] == l[m];
    }
    if j == i {
      assert forall k :: 0 <= k < |l| ==> IsAlnumLower(l[k]);
      assert FindSep(l, 0) == |l|;
      assert l[..|l|] == l;
    } else {
      assert FindSep(l, 0) == i;
    }
  }

  /** The body picked by `Body` is the only candidate: a matched string
      never ends in a newline. */
  lemma MatchedEndsInWord(s: string)
    requires Matched(s)
    ensures |s| > 0 && IsWord(s[|s| - 1])
  {
    var a, b :| (&& 0 <= a && a + 1 < b && b + 1 < |s|
                 && s[a] == '@' && s[b] == '.'
                 && LocalPart(s[..a]) && AllWord(s[a + 1..b]) && AllWord(s[b + 1..]));
    assert s[b + 1..][|s| - b - 2] == s[|s| - 1];
  }

  lemma {:induction false} RecognisedIsMatched(c: string)
    requires Recognised(c)
    ensures Matched(c)
  {
    var a := FindChar(c, '@', 0);
    var d := c[a + 1..];
    var b' := FindChar(d, '.', 0);
    var b := a + 1 + b';
    LocalOkIsLocalPart(c[..a]);
    assert c[a + 1..b] == d[..b'];
    assert c[b + 1..] == d[b' + 1..];
    assert c[b] == d[b'];
  }

  /** `FindChar` stops at the first occurrence. */
  lemma FindCharIsFirst(s: string, c: char, a: nat)
    requires a < |s| && s[a] == c
    requires forall m :: 0 <= m < a ==> s[m] != c
    ensures FindChar(s, c, 0) == a
  {
  }

  lemma {:induction false} WordsAfterAt(c: string, a: nat, b: nat)
    requires a + 1 < b && b + 1 < |c| && c[b] == '.'
    requires AllWord(c[a + 1..b]) && AllWord(c[b + 1..])
    ensures DomainOk(c[a + 1..])
  {
    var d := c[a + 1..];
    var b' := b - a - 1;
    forall m | 0 <= m < b' ensures d[m] != '.' {
      assert c[a + 1..b][m] == d[m];
    }
    assert d[b'] == c[b];
    FindCharIsFirst(d, '.', b');
    assert d[..b'] == c[a + 1..b];
    assert d[b' + 1..] == c[b + 1..];
  }

  lemma {:induction false} MatchedIsRecognised(c: string)
    requires Matched(c)
    ensures Recognised(c)
  {
    var a, b :| (&& 0 <= a && a + 1 < b && b + 1 < |c|
                 && c[a] == '@' && c[b] == '.'
                 && LocalPart(c[..a]) && AllWord(c[a + 1..b]) && AllWord(c[b + 1..]));
    AtIsFirst(c, a);
    WordsAfterAt(c, a, b);
  }

  /** The '@' after a local part is the first one. */
  lemma AtIsFirst(c: string, a: nat)
    requires a < |c| && c[a] == '@' && LocalPart(c[..a])
    ensures FindChar(c, '@', 0) == a && LocalOk(c[..a])
  {
    var l := c[..a];
    LocalPartIsLocalOk(l);
    forall m | 0 <= m < a ensures c[m] != '@' {
      assert l[m] == c[m];
    }
    FindCharIsFirst(c, '@', a);
  }

  /** The recogniser accepts exactly the strings the pattern matches. */
  lemma BodyRecognisedIsRegex(s: string)
    ensures Recognised(Body(s)) <==> RegexMatch(s)
  {
    var c := Body(s);
    if Recognised(c) {
      RecognisedIsMatched(c);
    }
    if Matched(s) {
      MatchedEndsInWord(s);
      assert c == s;
      MatchedIsRecognised(s);
    } else if |s| > 0 && s[|s| - 1] == '\n' && Matched(s[..|s| - 1]) {
      MatchedIsRecognised(s[..|s| - 1]);
    }
  }

  /** The '@' at `a` and the '.' at `b` split `c` into a local part of at
      least two `[a-z0-9]` characters with at most one separator, never at
      either end; no other '@'; and a domain of word characters around the
      one '.'. */
  ghost predicate Shaped(c: string, a: int, b: int) {
    && 2 <= a && a + 2 <= b && b + 2 <= |c| && c[a] == '@' && c[b] == '.'
    && IsAlnumLower(c[0]) && IsAlnumLower(c[a - 1])
    && (forall k :: 0 <= k < a ==> IsAlnumLower(c[k]) || IsSep(c[k]))
    && (forall k, m :: 0 <= k < m < a && IsSep(c[k]) ==> !IsSep(c[m]))
    && (forall k :: a < k < |c| ==> c[k] != '@')
    && (forall k :: a < k < |c| && k != b ==> IsWord(c[k]))
  }

  /** The local part's own shape. */
  lemma {:induction false} LocalShape(l: string)
    requires LocalPart(l)
    ensures 2 <= |l| && IsAlnumLower(l[0]) && IsAlnumLower(l[|l| - 1])
    ensures forall k :: 0 <= k < |l| ==> IsAlnumLower(l[k]) || IsSep(l[k])
    ensures forall k, m :: 0 <= k < m < |l| && IsSep(l[k]) ==> !IsSep(l[m])
  {
    var i, j :| (&& 1 <= i <= j < |l| && j <= i + 1
                 && AllAlnum(l[..i]) && AllAlnum(l[j..])
                 && (j == i + 1 ==> IsSep(l[i])));
    LocalPartIsLocalOk(l);
    assert forall k :: 0 <= k < i ==> l[..i][k] == l[k];
    assert forall k :: j <= k < |l| ==> l[j..][k - j] == l[k];
  }

  /** Every character of the domain but the one '.' is a word character. */
  lemma {:induction false} DomainShape(c: string, a: nat, b: nat)
    requires a + 1 < b && b + 1 < |c| && c[b] == '.'
    requires AllWord(c[a + 1..b]) && AllWord(c[b + 1..])
    ensures forall k :: a < k < |c| && k != b ==> IsWord(c[k])
  {
    forall k | a < k < |c| && k != b ensures IsWord(c[k]) {
      if k < b {
        assert c[a + 1..b][k - a - 1] == c[k];
      } else {
        assert c[b + 1..][k - b - 1] == c[k];
      }
    }
  }

  lemma {:induction false} MatchedShape(c: string)
    requires Matched(c)
    ensures 6 <= |c|
    ensures exists a, b :: Shaped(c, a, b)
  {
    var a, b :| (&& 0 <= a && a + 1 < b && b + 1 < |c|
                 && c[a] == '@' && c[b] == '.'
                 && LocalPart(c[..a]) && AllWord(c[a + 1..b]) && AllWord(c[b + 1..]));
    var l := c[..a];
    LocalShape(l);
    DomainShape(c, a, b);
    assert forall k :: 0 <= k < a ==> c[k] == l[k];
    assert Shaped(c, a, b);
  }

  /** An accepted string's body matches the pattern without the newline
      allowance. */
  lemma BodyMatched(s: string)
    requires ValidarEmail(s)
    ensures Matched(Body(s))
  {
    if !Matched(s) {
      assert Body(s) == s[..|s| - 1];
    } else {
      MatchedEndsInWord(s);
    }
  }

  /** What an accepted string looks like once the optional final newline is
      set aside: at least six characters, shaped as above. */
  lemma ValidEmailShape(s: string)
    requires ValidarEmail(s)
    ensures 6 <= |Body(s)|
    ensures exists a, b :: Shaped(Body(s), a, b)
  {
    BodyMatched(s);
    MatchedShape(Body(s));
  }

  /** `strip()` removes exactly the final newline `$` tolerated, and
      nothing else, from an accepted string. */
  lemma StripOfValid(s: string)
    requires ValidarEmail(s)
    ensures Strip(s) == Body(s)
  {
    var c := Body(s);
    ValidEmailShape(s);
    var a, b :| Shaped(c, a, b);
    assert IsAlnumLower(c[0]) && IsWord(c[|c| - 1]);
    assert !IsSpace(c[0]) && !IsSpace(c[|c| - 1]);
    if c == s {
      StripTrimmed(c);
    } else {
      var r := Strip(s);
      var i, j :| (&& 0 <= i <= j <= |s| && r == s[i..j]
                   && (forall m :: 0 <= m < i ==> IsSpace(s[m]))
                   && (forall m :: j <= m < |s| ==> IsSpace(s[m])));
      assert s[0] == c[0] && s[|c| - 1] == c[|c| - 1];
      assert i == 0;
      assert |c| <= j;
      assert IsSpace(s[|s| - 1]);
      assert j < |s|;
      assert r == s[..|s| - 1];
    }
  }

  /** Lower-casing keeps a matched string matched: its local part has no
      upper-case letter to change, and a lowered word character is still
      one. */
  lemma {:induction false} LowerKeepsMatch(c: string)
    requires Matched(c)
    ensures Matched(Lower(c))
  {
    var a, b :| (&& 0 <= a && a + 1 < b && b + 1 < |c|
                 && c[a] == '@' && c[b] == '.'
                 && LocalPart(c[..a]) && AllWord(c[a + 1..b]) && AllWord(c[b + 1..]));
    var n := Lower(c);
    LowerKeepsLocal(c, a);
    LowerKeepsDomain(c, a, b);
    var host, top := n[a + 1..b], n[b + 1..];
    forall k | 0 <= k < |host| ensures IsWord(host[k]) {
      assert host[k] == n[a + 1 + k];
    }
    forall k | 0 <= k < |top| ensures IsWord(top[k]) {
      assert top[k] == n[b + 1 + k];
    }
  }

  /** Lower-casing leaves a local part, which has no upper-case letter, as
      it was. */
  lemma LowerKeepsLocal(c: string, a: nat)
    requires a < |c| && c[a] == '@' && LocalPart(c[..a])
    ensures Lower(c)[..a] == c[..a] && Lower(c)[a] == '@'
  {
    var l, n := c[..a], Lower(c);
    LocalShape(l);
    forall k | 0 <= k < a ensures n[k] == c[k] {
      assert l[k] == c[k];
    }
  }

  /** Lower-casing keeps the domain's '.' and its word characters. */
  lemma LowerKeepsDomain(c: string, a: nat, b: nat)
    requires a + 1 < b && b + 1 < |c| && c[b] == '.'
    requires AllWord(c[a + 1..b]) && AllWord(c[b + 1..])
    ensures Lower(c)[b] == '.'
    ensures forall k :: a < k < |c| && k != b ==> IsWord(Lower(c)[k])
  {
    var n := Lower(c);
    DomainShape(c, a, b);
    forall k | a < k < |c| && k != b ensures IsWord(n[k]) {
      assert IsWord(c[k]);
    }
  }

  /** The store's normalisation of an accepted email, `strip().lower()`, is
      again accepted: it is the lowered body. */
  lemma NormalisedValidEmailStaysValid(s: string)
    requires ValidarEmail(s)
    ensures NormEmail(s) == Lower(Body(s))
    ensures ValidarEmail(NormEmail(s))
  {
    StripOfValid(s);
    BodyMatched(s);
    LowerKeepsMatch(Body(s));
  }

  /** Before its '@', an accepted string holds only `[a-z0-9._]`. */
  lemma LocalCharactersOfValid(s: string)
    ensures ValidarEmail(s) ==>
      exists a :: (&& 2 <= a < |s| && s[a] == '@'
                   && forall k :: 0 <= k < a ==> IsAlnumLower(s[k]) || IsSep(s[k]))
  {
    if ValidarEmail(s) {
      ValidEmailShape(s);
      var c := Body(s);
      var a, b :| Shaped(c, a, b);
      assert s[a] == c[a];
      assert forall k :: 0 <= k < a ==> s[k] == c[k];
    }
  }

  /** An accepted string holds exactly one '@'. */
  lemma ExactlyOneAt(s: string)
    requires ValidarEmail(s)
    ensures exists a :: (&& 0 <= a < |s| && s[a] == '@'
                         && forall k :: 0 <= k < |s| && k != a ==> s[k] != '@')
  {
    ValidEmailShape(s);
    var c := Body(s);
    var a, b :| Shaped(c, a, b);
    assert forall k :: 0 <= k < |c| ==> s[k] == c[k];
    assert s[a] == '@';
    forall k | 0 <= k < |s| && k != a ensures s[k] != '@' {
      if k < |c| {
        assert IsAlnumLower(c[k]) || IsSep(c[k]) || k > a;
      }
    }
  }

  /** One final newline more is accepted exactly when the string is accepted
      and does not already end in a newline. */
  lemma NewlineAppended(s: string)
    ensures ValidarEmail(s + "\n") <==> ValidarEmail(s) && (|s| == 0 || s[|s| - 1] != '\n')
  {
    assert Body(s + "\n") == s;
    if Recognised(s) {
      RecognisedIsMatched(s);
      MatchedEndsInWord(s);
    }
  }

  /** A string that starts with '@' has an empty local part and is
      refused. */
  lemma EmptyLocalPartRejected(s: string)
    requires 0 < |s| && s[0] == '@'
    ensures !ValidarEmail(s)
  {
    LocalCharactersOfValid(s);
  }

  /** An upper-case letter anywhere before the first '@' is refused. */
  lemma UpperCaseLocalPartRejected(s: string, k: nat)
    requires k < |s| && IsUpper(s[k]) && forall m :: 0 <= m < k ==> s[m] != '@'
    ensures !ValidarEmail(s)
  {
    LocalCharactersOfValid(s);
  }

  /** A run of `[a-z0-9]` holds no separator. */
  lemma NoSeparatorInRun(l: string)
    requires AllAlnum(l)
    ensures FindSep(l, 0) == |l|
  {
    var i := FindSep(l, 0);
    assert i < |l| ==> IsAlnumLower(l[i]);
  }

  lemma AcceptsPlainAddress()
    ensures ValidarEmail("alice@x.com")
  {
    var s := "alice@x.com";
    assert FindChar(s, '@', 0) == 5 by {
      FindCharIsFirst(s, '@', 5);
    }
    assert LocalOk(s[..5]) by {
      var l := s[..5];
      assert l == "alice";
      NoSeparatorInRun(l);
      assert l[..5] == l;
    }
    assert DomainOk(s[6..]) by {
      var d := s[6..];
      assert d == "x.com";
      FindCharIsFirst(d, '.', 1);
      assert d[..1] == "x" && d[2..] == "com";
    }
  }

  /** Python's `$` lets one final newline through. */
  lemma AcceptsTrailingNewline()
    ensures ValidarEmail("ab@c.d\n")
  {
    var s := "ab@c.d\n";
    var c := Body(s);
    assert c == "ab@c.d";
    FindCharIsFirst(c, '@', 2);
    assert c[..2] == "ab";
    assert FindSep("ab", 0) == 2;
    assert c[3..] == "c.d";
    FindCharIsFirst("c.d", '.', 1);
  }

  lemma RejectsUpperCase()
    ensures !ValidarEmail("ALICE@X.COM")
  {
    UpperCaseLocalPartRejected("ALICE@X.COM", 0);
  }

  /** A one-character local part is too short. */
  lemma RejectsSingleCharacterLocalPart()
    ensures !ValidarEmail("a@x.com")
  {
    var s := "a@x.com";
    FindCharIsFirst(s, '@', 1);
    assert s[..1] == "a";
  }

  /** A second '.' in the domain is refused. */
  lemma RejectsTwoDotDomain()
    ensures !ValidarEmail("ab@mail.co.uk")
  {
    var s := "ab@mail.co.uk";
    FindCharIsFirst(s, '@', 2);
    var d := s[3..];
    assert d == "mail.co.uk";
    FindCharIsFirst(d, '.', 4);
    assert d[5..] == "co.uk";
    assert !IsWord(d[5..][2]);
  }
}
