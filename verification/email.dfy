/**
 The address check used at registration: the pattern
 `^[a-zA-Z0-9.+_-]+@[a-zA-Z0-9._-]+\.[a-zA-Z]+$` applied with Python's
 `re.match`, written as a hand matcher over strings and related to a
 reference definition that spells out the pattern's concatenation.
 */
module Email {
  import opened Wrappers

  /** `[a-zA-Z]` */
  predicate IsLetter(c: char) {
    'a' <= c <= 'z' || 'A' <= c <= 'Z'
  }

  predicate IsDigit(c: char) {
    '0' <= c <= '9'
  }

  /** `[a-zA-Z0-9.+_-]`, the characters of the part before the `@`. */
  predicate IsLocalChar(c: char) {
    IsLetter(c) || IsDigit(c) || c == '.' || c == '+' || c == '_' || c == '-'
  }

  /** `[a-zA-Z0-9._-]`, the characters of the domain before its last dot. */
  predicate IsDomainChar(c: char) {
    IsLetter(c) || IsDigit(c) || c == '.' || c == '_' || c == '-'
  }

  predicate AllLocal(s: string) {
    forall i :: 0 <= i < |s| ==> IsLocalChar(s[i])
  }

  predicate AllDomain(s: string) {
    forall i :: 0 <= i < |s| ==> IsDomainChar(s[i])
  }

  predicate AllLetters(s: string) {
    forall i :: 0 <= i < |s| ==> IsLetter(s[i])
  }

  /**
   `s` is `local @ domain . tld` with the `@` at index `a` and the dot at
   index `b`, each of the three blocks non-empty and drawn from its class:
   one way the pattern's four pieces can cover the whole string.
   */
  predicate SplitsAsEmail(s: string, a: int, b: int) {
    && 0 < a && a + 1 < b && b + 1 < |s|
    && s[a] == '@' && s[b] == '.'
    && AllLocal(s[..a]) && AllDomain(s[a + 1..b]) && AllLetters(s[b + 1..])
  }

  /** Reference meaning of the pattern anchored at both ends. */
  ghost predicate EmailShape(s: string) {
    exists a, b :: SplitsAsEmail(s, a, b)
  }

  /** Position of the first `c` in `s`, if any. */
  function FirstIndexOf(s: string, c: char): (r: Option<nat>)
    ensures r.Some? ==> r.value < |s| && s[r.value] == c
    ensures r.Some? ==> forall j :: 0 <= j < r.value ==> s[j] != c
    ensures r.None? <==> c !in s
  {
    if |s| == 0 then None
    else if s[0] == c then Some(0)
    else match FirstIndexOf(s[1..], c)
      case None => None
      case Some(i) => Some(i + 1)
  }

  /** Position of the last `c` in `s`, if any. */
  function LastIndexOf(s: string, c: char): (r: Option<nat>)
    ensures r.Some? ==> r.value < |s| && s[r.value] == c
    ensures r.Some? ==> forall j :: r.value < j < |s| ==> s[j] != c
    ensures r.None? <==> c !in s
  {
    if |s| == 0 then None
    else if s[|s| - 1] == c then Some(|s| - 1)
    else
      var r := LastIndexOf(s[..|s| - 1], c);
      assert s == s[..|s| - 1] + [s[|s| - 1]];
      r
  }

  /**
   The only split the matcher tries: the `@` at the first `@`, the dot at
   the last dot after it.
   */
  function CandidateSplit(s: string): (r: Option<(nat, nat)>)
    ensures r.Some? ==> r.value.0 < r.value.1 < |s| && s[r.value.0] == '@' && s[r.value.1] == '.'
    ensures forall a, b :: SplitsAsEmail(s, a, b) ==> r == Some((a, b))
  {
    OnlyCandidateSplit(s);
    match FirstIndexOf(s, '@')
    case None => None
    case Some(a) =>
      match LastIndexOf(s[a + 1..], '.')
      case None => None
      case Some(p) => Some((a, a + 1 + p))
  }

  /**
   The hand matcher: the string matches iff its candidate split has a
   non-empty local part over the local class, at least one domain
   character before the dot and one or more letters after it.
   */
  function MatchesEmailPattern(s: string): (ok: bool)
    ensures ok <==> EmailShape(s)
  {
    match CandidateSplit(s)
    case None => false
    case Some((a, b)) => SplitsAsEmail(s, a, b)
  }

  /**
   `re.match` with a trailing `$`: Python's `$` also matches just before a
   newline that ends the string, so one final newline is tolerated.
   */
  function EmailAccepted(s: string): (ok: bool)
    ensures ok <==> EmailShape(s) || (|s| > 0 && s[|s| - 1] == '\n' && EmailShape(s[..|s| - 1]))
  {
    MatchesEmailPattern(s)
    || (|s| > 0 && s[|s| - 1] == '\n' && MatchesEmailPattern(s[..|s| - 1]))
  }

  /** Every split of the pattern's shape is the hand matcher's candidate. */
  lemma OnlyCandidateSplit(s: string)
    ensures forall a, b :: SplitsAsEmail(s, a, b) ==>
              && FirstIndexOf(s, '@') == Some(a)
              && LastIndexOf(s[a + 1..], '.') == Some(b - a - 1)
  {
    forall a, b | SplitsAsEmail(s, a, b)
      ensures FirstIndexOf(s, '@') == Some(a)
      ensures LastIndexOf(s[a + 1..], '.') == Some(b - a - 1)
    {
      ShapeFixesSplit(s, a, b);
    }
  }

  /** Any split of the pattern's shape is the one the hand matcher finds:
      the first `@` and the last dot after it. */
  lemma ShapeFixesSplit(s: string, a: int, b: int)
    requires SplitsAsEmail(s, a, b)
    ensures FirstIndexOf(s, '@') == Some(a)
    ensures LastIndexOf(s[a + 1..], '.') == Some(b - a - 1)
  {
    forall j | 0 <= j < a
      ensures s[j] != '@'
    {
      assert IsLocalChar(s[..a][j]);
    }
    assert s[a] == '@';
    var rest := s[a + 1..];
    forall j | b - a - 1 < j < |rest|
      ensures rest[j] != '.'
    {
      assert IsLetter(s[b + 1..][j - (b - a)]);
    }
    assert rest[b - a - 1] == '.';
  }

  /** An address of the pattern's shape holds exactly one `@`: none of the
      three character classes contains it. */
  lemma ShapeHasOneAt(s: string)
    requires EmailShape(s)
    ensures exists a :: 0 <= a < |s| && s[a] == '@'
                        && forall i :: 0 <= i < |s| && s[i] == '@' ==> i == a
  {
    var a, b :| SplitsAsEmail(s, a, b);
    forall i | 0 <= i < |s| && i != a
      ensures s[i] != '@'
    {
      if i < a {
        assert IsLocalChar(s[..a][i]);
      } else if i < b {
        assert IsDomainChar(s[a + 1..b][i - a - 1]);
      } else if i > b {
        assert IsLetter(s[b + 1..][i - b - 1]);
      }
    }
  }

  /** An accepted address holds no newline except possibly a final one. */
  lemma AcceptedHasNoInnerNewline(s: string)
    requires EmailAccepted(s)
    ensures forall i :: 0 <= i < |s| - 1 ==> s[i] != '\n'
  {
    forall i | 0 <= i < |s| - 1
      ensures s[i] != '\n'
    {
      if EmailShape(s) {
        NoNewlineInShape(s, i);
      } else {
        NoNewlineInShape(s[..|s| - 1], i);
      }
    }
  }

  /** None of the pattern's character classes holds a newline. */
  lemma NoNewlineInShape(s: string, i: int)
    requires EmailShape(s)
    requires 0 <= i < |s|
    ensures s[i] != '\n'
  {
  }
}
