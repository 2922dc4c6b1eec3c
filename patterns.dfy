/**
 * The five redaction patterns of the pattern pass, each as the language its
 * regular expression denotes (Accepts) and as the match Python's
 * backtracking engine reports at a given start position (MatchAt).
 */
module Patterns {
  import opened Options
  import opened Chars

  /** The five rules, one per pattern */
  datatype Rule = Account | Ssn | Swift | Iban | Email

  /** The order in which the pattern pass applies the rules */
  const Rules: seq<Rule> := [Account, Ssn, Swift, Iban, Email]

  /** The category name that appears in a rule's replacement token */
  function Label(r: Rule): string {
    match r
    case Account => "ACCOUNT"
    case Ssn => "SSN"
    case Swift => "SWIFT"
    case Iban => "IBAN"
    case Email => "EMAIL"
  }

  /** The bracketed token that replaces a redacted value of the given category */
  function RedactionToken(category: string): string {
    "[REDACTED_" + category + "]"
  }

  /** The replacement token of a rule, e.g. "[REDACTED_ACCOUNT]" */
  function Token(r: Rule): string {
    RedactionToken(Label(r))
  }

  /**
   * Accepts(r, t, i, j): the regular expression of r, anchored at position i
   * of t, can match exactly t[i..j]. The `\b` assertions look at the
   * characters around the match.
   *   Account  \b\d{10,16}\b
   *   Ssn      \b\d{3}-\d{2}-\d{4}\b
   *   Swift    \b[A-Z]{6}[A-Z0-9]{2}([A-Z0-9]{3})?\b
   *   Iban     \b[A-Z]{2}\d{2}[A-Z0-9]{1,30}\b
   *   Email    [a-zA-Z0-9_.+-]+@[a-zA-Z0-9-]+\.[a-zA-Z0-9-.]+
   */
  ghost predicate Accepts(r: Rule, t: string, i: nat, j: nat) {
    i <= j <= |t| &&
    match r
    case Account =>
      i + 10 <= j <= i + 16 && AllIn(t, i, j, Digit) && Boundary(t, i) && Boundary(t, j)
    case Ssn =>
      j == i + 11 && AllIn(t, i, i + 3, Digit) && t[i + 3] == '-' && AllIn(t, i + 4, i + 6, Digit)
      && t[i + 6] == '-' && AllIn(t, i + 7, j, Digit) && Boundary(t, i) && Boundary(t, j)
    case Swift =>
      (j == i + 8 || j == i + 11) && AllIn(t, i, i + 6, Upper) && AllIn(t, i + 6, j, UpperDigit)
      && Boundary(t, i) && Boundary(t, j)
    case Iban =>
      i + 5 <= j <= i + 34 && AllIn(t, i, i + 2, Upper) && AllIn(t, i + 2, i + 4, Digit)
      && AllIn(t, i + 4, j, UpperDigit) && Boundary(t, i) && Boundary(t, j)
    case Email =>
      exists a: nat, d: nat :: EmailSplit(t, i, a, d, j)
  }

  /** t[i..j] is local-part t[i..a], '@', domain t[a+1..d], '.', tail t[d+1..j] */
  predicate EmailSplit(t: string, i: nat, a: nat, d: nat, j: nat) {
    i < a && a + 1 < d && d + 1 < j <= |t|
    && AllIn(t, i, a, LocalPart) && t[a] == '@' && AllIn(t, a + 1, d, DomainPart)
    && t[d] == '.' && AllIn(t, d + 1, j, TailPart)
  }

  /**
   * The end of the match that Python's `re` reports when it tries rule r at
   * position i, if any. Each pattern is deterministic once greedy repetition
   * and `\b` are taken into account:
   *  - Account: `\d{10,16}` gives back digits one at a time, but a shorter
   *    candidate is followed by a digit, so `\b` holds only after the whole run.
   *  - Ssn: a fixed-length pattern.
   *  - Swift: the optional group is tried first (length 11), then length 8.
   *  - Iban: as for Account, only the whole `[A-Z0-9]` run can end at `\b`.
   *  - Email: none of the three runs can be shortened, because the character
   *    that follows each shorter run is not '@', not '.', or not needed.
   */
  function MatchAt(r: Rule, t: string, i: nat): (m: Option<nat>)
    requires i <= |t|
    ensures m.Some? ==> i < m.value <= |t|
  {
    match r
    case Account => AccountAt(t, i)
    case Ssn => SsnAt(t, i)
    case Swift => SwiftAt(t, i)
    case Iban => IbanAt(t, i)
    case Email => EmailAt(t, i)
  }

  function AccountAt(t: string, i: nat): Option<nat>
    requires i <= |t|
  {
    var n := RunLength(t, i, Digit);
    if Boundary(t, i) && 10 <= n <= 16 && Boundary(t, i + n) then Some(i + n) else None
  }

  function SsnAt(t: string, i: nat): Option<nat>
    requires i <= |t|
  {
    if i + 11 <= |t| && Boundary(t, i)
       && RunLength(t, i, Digit) == 3 && t[i + 3] == '-'
       && RunLength(t, i + 4, Digit) == 2 && t[i + 6] == '-'
       && RunLength(t, i + 7, Digit) >= 4 && Boundary(t, i + 11)
    then Some(i + 11)
    else None
  }

  function SwiftAt(t: string, i: nat): Option<nat>
    requires i <= |t|
  {
    if Boundary(t, i) && RunLength(t, i, Upper) >= 6 && RunLength(t, i + 6, UpperDigit) >= 2 then
      if RunLength(t, i + 6, UpperDigit) >= 5 && Boundary(t, i + 11) then Some(i + 11)
      else if Boundary(t, i + 8) then Some(i + 8)
      else None
    else None
  }

  function IbanAt(t: string, i: nat): Option<nat>
    requires i <= |t|
  {
    if Boundary(t, i) && RunLength(t, i, Upper) >= 2 && RunLength(t, i + 2, Digit) >= 2 then
      var n := RunLength(t, i + 4, UpperDigit);
      if 1 <= n <= 30 && Boundary(t, i + 4 + n) then Some(i + 4 + n) else None
    else None
  }

  function EmailAt(t: string, i: nat): Option<nat>
    requires i <= |t|
  {
    var a := i + RunLength(t, i, LocalPart);
    if a == i || a == |t| || t[a] != '@' then None
    else
      var d := a + 1 + RunLength(t, a + 1, DomainPart);
      if d == a + 1 || d == |t| || t[d] != '.' then None
      else
        var j := d + 1 + RunLength(t, d + 1, TailPart);
        if j == d + 1 then None else Some(j)
  }
}

module PatternFacts {
  import opened Options
  import opened Chars
  import opened Patterns

  /**
   * MatchAt is the regular expression's own verdict: what it reports at i is
   * a match of the pattern, and no match of the pattern at i is longer (for
   * these five patterns, Python's backtracking order yields the longest
   * match, and there is none when the pattern cannot match at i).
   */
  lemma MatchAtIsLongestAccepted(r: Rule, t: string, i: nat)
    requires i <= |t|
    ensures MatchAt(r, t, i).Some? ==> Accepts(r, t, i, MatchAt(r, t, i).value)
    ensures forall j: nat :: Accepts(r, t, i, j) ==> MatchAt(r, t, i).Some? && j <= MatchAt(r, t, i).value
  {
    match r
    case Account => AccountLongest(t, i);
    case Ssn => SsnLongest(t, i);
    case Swift => SwiftLongest(t, i);
    case Iban => IbanLongest(t, i);
    case Email => EmailLongest(t, i);
  }

  /** `\b\d{10,16}\b`: only the whole digit run can be followed by `\b` */
  lemma AccountLongest(t: string, i: nat)
    requires i <= |t|
    ensures AccountAt(t, i).Some? ==> Accepts(Account, t, i, AccountAt(t, i).value)
    ensures forall j: nat :: Accepts(Account, t, i, j) ==> AccountAt(t, i) == Some(j)
  {
    forall j: nat | Accepts(Account, t, i, j)
      ensures AccountAt(t, i) == Some(j)
    {
      assert IsDigit(t[j - 1]);
      RunLengthExact(t, i, j, Digit);
    }
  }

  /** `\b\d{3}-\d{2}-\d{4}\b`: a fixed-length pattern */
  lemma SsnLongest(t: string, i: nat)
    requires i <= |t|
    ensures SsnAt(t, i).Some? ==> Accepts(Ssn, t, i, SsnAt(t, i).value)
    ensures forall j: nat :: Accepts(Ssn, t, i, j) ==> SsnAt(t, i) == Some(j)
  {
    forall j: nat | Accepts(Ssn, t, i, j)
      ensures SsnAt(t, i) == Some(j)
    {
      RunLengthExact(t, i, i + 3, Digit);
      RunLengthExact(t, i + 4, i + 6, Digit);
      RunLengthCovers(t, i + 7, i + 11, Digit);
    }
  }

  /** The optional three-character group is tried before the eight-character form */
  lemma SwiftLongest(t: string, i: nat)
    requires i <= |t|
    ensures SwiftAt(t, i).Some? ==> Accepts(Swift, t, i, SwiftAt(t, i).value)
    ensures forall j: nat :: Accepts(Swift, t, i, j) ==> SwiftAt(t, i) == Some(j)
  {
    forall j: nat | Accepts(Swift, t, i, j)
      ensures SwiftAt(t, i) == Some(j)
    {
      RunLengthCovers(t, i, i + 6, Upper);
      RunLengthCovers(t, i + 6, j, UpperDigit);
      assert RunLength(t, i + 6, UpperDigit) >= 5 ==> In(t[i + 8], UpperDigit);
    }
  }

  /** As for account numbers, only the whole `[A-Z0-9]` run can end at `\b` */
  lemma IbanLongest(t: string, i: nat)
    requires i <= |t|
    ensures IbanAt(t, i).Some? ==> Accepts(Iban, t, i, IbanAt(t, i).value)
    ensures forall j: nat :: Accepts(Iban, t, i, j) ==> IbanAt(t, i) == Some(j)
  {
    if IbanAt(t, i).Some? {
      assert AllIn(t, i, i + 2, Upper) && AllIn(t, i + 2, i + 4, Digit);
    }
    forall j: nat | Accepts(Iban, t, i, j)
      ensures IbanAt(t, i) == Some(j)
    {
      IbanAcceptedIsFound(t, i, j);
    }
  }

  /** Every IBAN match the pattern admits at i is the one IbanAt reports */
  lemma IbanAcceptedIsFound(t: string, i: nat, j: nat)
    requires Accepts(Iban, t, i, j)
    ensures IbanAt(t, i) == Some(j)
  {
    RunLengthCovers(t, i, i + 2, Upper);
    RunLengthCovers(t, i + 2, i + 4, Digit);
    assert In(t[j - 1], UpperDigit);
    RunLengthExact(t, i + 4, j, UpperDigit);
  }

  /** The e-mail match reported at i is the longest the pattern admits there */
  lemma EmailLongest(t: string, i: nat)
    requires i <= |t|
    ensures EmailAt(t, i).Some? ==> Accepts(Email, t, i, EmailAt(t, i).value)
    ensures forall j: nat :: Accepts(Email, t, i, j) ==> EmailAt(t, i).Some? && j <= EmailAt(t, i).value
  {
    if EmailAt(t, i).Some? {
      var a := i + RunLength(t, i, LocalPart);
      var d := a + 1 + RunLength(t, a + 1, DomainPart);
      assert EmailSplit(t, i, a, d, EmailAt(t, i).value);
    }
    forall j: nat | Accepts(Email, t, i, j)
      ensures EmailAt(t, i).Some? && j <= EmailAt(t, i).value
    {
      var a: nat, d: nat :| EmailSplit(t, i, a, d, j);
      EmailSplitIsGreedy(t, i, a, d, j);
    }
  }

  /** A split of an e-mail match puts '@' and '.' where the greedy runs stop */
  lemma EmailSplitIsGreedy(t: string, i: nat, a: nat, d: nat, j: nat)
    requires EmailSplit(t, i, a, d, j)
    ensures EmailAt(t, i).Some? && j <= EmailAt(t, i).value
  {
    EmailRunsStop(t, i, a, d, j);
    RunLengthCovers(t, d + 1, j, TailPart);
  }

  /** A split whose tail cannot be extended is exactly the match the e-mail rule reports */
  lemma EmailSplitIsMatch(t: string, i: nat, a: nat, d: nat, j: nat)
    requires EmailSplit(t, i, a, d, j) && (j == |t| || !In(t[j], TailPart))
    ensures MatchAt(Email, t, i) == Some(j)
  {
    EmailRunsStop(t, i, a, d, j);
    RunLengthExact(t, d + 1, j, TailPart);
  }

  /** The local-part and domain runs of a split are the maximal runs */
  lemma EmailRunsStop(t: string, i: nat, a: nat, d: nat, j: nat)
    requires EmailSplit(t, i, a, d, j)
    ensures i + RunLength(t, i, LocalPart) == a
    ensures a + 1 + RunLength(t, a + 1, DomainPart) == d
  {
    assert !In(t[a], LocalPart);
    RunLengthExact(t, i, a, LocalPart);
    assert !In(t[d], DomainPart);
    RunLengthExact(t, a + 1, d, DomainPart);
  }


  /** A character that some pattern can match: a word character, '-', '.', '+' or '@' */
  predicate MatchChar(c: char) {
    IsWord(c) || c == '-' || c == '.' || c == '+' || c == '@'
  }

  /** A match of any pattern is made of match characters only (no bracket, no space) */
  lemma AcceptedChars(r: Rule, t: string, i: nat, j: nat)
    requires Accepts(r, t, i, j)
    ensures forall k :: i <= k < j ==> MatchChar(t[k])
  {
    if r.Email? {
      var a: nat, d: nat :| EmailSplit(t, i, a, d, j);
      forall k | i <= k < j ensures MatchChar(t[k]) {
        if k < a { assert In(t[k], LocalPart); }
        else if a < k < d { assert In(t[k], DomainPart); }
        else if d < k { assert In(t[k], TailPart); }
      }
    } else if r.Ssn? {
      forall k | i <= k < j ensures MatchChar(t[k]) {
        if k < i + 3 { assert In(t[k], Digit); }
        else if i + 3 < k < i + 6 { assert In(t[k], Digit); }
        else if i + 6 < k { assert In(t[k], Digit); }
      }
    } else if r.Swift? {
      forall k | i <= k < j ensures MatchChar(t[k]) {
        if k < i + 6 { assert In(t[k], Upper); } else { assert In(t[k], UpperDigit); }
      }
    } else if r.Iban? {
      forall k | i <= k < j ensures MatchChar(t[k]) {
        if k < i + 2 { assert In(t[k], Upper); }
        else if k < i + 4 { assert In(t[k], Digit); }
        else { assert In(t[k], UpperDigit); }
      }
    }
  }

  /** A non-empty category name of upper-case letters, as all ten redaction categories are */
  predicate UpperWord(s: string) {
    |s| > 0 && forall k :: 0 <= k < |s| ==> IsUpper(s[k])
  }

  /** t holds the token of category at position p */
  predicate TokenAt(t: string, category: string, p: nat) {
    p + |RedactionToken(category)| <= |t| && t[p..p + |RedactionToken(category)|] == RedactionToken(category)
  }

  /** A token at p: brackets at both ends, word characters without digits or '@' between them, "REDACTED_" first */
  lemma TokenShape(t: string, category: string, p: nat)
    requires UpperWord(category) && TokenAt(t, category, p)
    ensures var n := |RedactionToken(category)|;
      n >= 12 && t[p] == '[' && t[p + n - 1] == ']' && t[p + 9] == '_'
      && forall k :: p < k < p + n - 1 ==> IsWord(t[k]) && !IsDigit(t[k]) && t[k] != '@'
  {
    var tok := RedactionToken(category);
    var n := |tok|;
    assert t[p] == tok[0] && t[p + n - 1] == tok[n - 1] && t[p + 9] == tok[9];
    forall k | p < k < p + n - 1
      ensures IsWord(t[k]) && !IsDigit(t[k]) && t[k] != '@'
    {
      assert t[k] == tok[k - p];
      if k - p >= 10 { assert tok[k - p] == category[k - p - 10]; }
    }
  }

  /**
   * No match of any rule touches a redaction token, wherever the token
   * stands: a later rule never re-matches what an earlier rule (or the
   * entity pass) inserted.
   */
  lemma TokenNeverMatched(r: Rule, t: string, category: string, p: nat, i: nat)
    requires UpperWord(category) && TokenAt(t, category, p)
    requires i <= |t| && MatchAt(r, t, i).Some?
    ensures MatchAt(r, t, i).value <= p || p + |RedactionToken(category)| <= i
  {
    var tok := RedactionToken(category);
    var n := |tok|;
    var j := MatchAt(r, t, i).value;
    MatchAtIsLongestAccepted(r, t, i);
    AcceptedChars(r, t, i, j);
    TokenShape(t, category, p);
    // what each rule needs inside its match
    assert r.Account? || r.Ssn? ==> IsDigit(t[i]);
    assert r.Iban? ==> i + 2 < j && IsDigit(t[i + 2]);
    if r.Email? {
      var a: nat, d: nat :| EmailSplit(t, i, a, d, j);
      assert i < a < j && t[a] == '@';
    }
    assert r.Swift? ==> IsWord(t[i]) && !WordAt(t, i - 1) && !WordAt(t, j) && (j == i + 8 || j == i + 11);
    assert r.Swift? && j == i + 11 ==> In(t[i + 8], UpperDigit);
  }

  /**
   * A SWIFT match and an IBAN match never overlap: both span a whole word,
   * and a word cannot have letters (SWIFT) and digits (IBAN) at its third and
   * fourth characters. So rule order never arbitrates between these two.
   */
  lemma SwiftIbanNeverOverlap(t: string, i: nat, i': nat)
    requires i <= |t| && i' <= |t|
    requires MatchAt(Swift, t, i).Some? && MatchAt(Iban, t, i').Some?
    ensures MatchAt(Swift, t, i).value <= i' || MatchAt(Iban, t, i').value <= i
  {
    var j, j' := MatchAt(Swift, t, i).value, MatchAt(Iban, t, i').value;
    MatchAtIsLongestAccepted(Swift, t, i);
    MatchAtIsLongestAccepted(Iban, t, i');
  }

  /**
   * A necessary condition for a match of r to start at i, read off the
   * pattern position by position: the opening `\b` and the fixed-length
   * prefix of each pattern, and for e-mail the '@' and '.' that must follow.
   */
  ghost predicate CanStart(r: Rule, t: string, i: nat)
    requires i < |t|
  {
    match r
    case Account =>
      i + 10 <= |t| && !WordAt(t, i - 1)
      && IsDigit(t[i]) && IsDigit(t[i + 1]) && IsDigit(t[i + 2]) && IsDigit(t[i + 3]) && IsDigit(t[i + 4])
      && IsDigit(t[i + 5]) && IsDigit(t[i + 6]) && IsDigit(t[i + 7]) && IsDigit(t[i + 8]) && IsDigit(t[i + 9])
    case Ssn =>
      i + 11 <= |t| && !WordAt(t, i - 1)
      && IsDigit(t[i]) && IsDigit(t[i + 1]) && IsDigit(t[i + 2]) && t[i + 3] == '-'
      && IsDigit(t[i + 4]) && IsDigit(t[i + 5]) && t[i + 6] == '-'
      && IsDigit(t[i + 7]) && IsDigit(t[i + 8]) && IsDigit(t[i + 9]) && IsDigit(t[i + 10])
    case Swift =>
      i + 8 <= |t| && !WordAt(t, i - 1)
      && IsUpper(t[i]) && IsUpper(t[i + 1]) && IsUpper(t[i + 2]) && IsUpper(t[i + 3]) && IsUpper(t[i + 4])
      && IsUpper(t[i + 5]) && In(t[i + 6], UpperDigit) && In(t[i + 7], UpperDigit)
      && (!WordAt(t, i + 8)
          || (i + 11 <= |t| && In(t[i + 8], UpperDigit) && In(t[i + 9], UpperDigit) && In(t[i + 10], UpperDigit)))
    case Iban =>
      i + 5 <= |t| && !WordAt(t, i - 1)
      && IsUpper(t[i]) && IsUpper(t[i + 1]) && IsDigit(t[i + 2]) && IsDigit(t[i + 3]) && In(t[i + 4], UpperDigit)
    case Email =>
      exists a: nat, d: nat :: i < a < d < |t| && t[a] == '@' && t[d] == '.'
        && AllIn(t, i, a, LocalPart) && AllIn(t, a + 1, d, DomainPart)
  }

  /** Where CanStart fails, rule r does not match */
  lemma MatchNeedsStart(r: Rule, t: string, i: nat)
    requires i <= |t| && MatchAt(r, t, i).Some?
    ensures i < |t| && CanStart(r, t, i)
  {
    var j := MatchAt(r, t, i).value;
    MatchAtIsLongestAccepted(r, t, i);
    match r
    case Account => assert IsWord(t[i]);
    case Ssn => assert IsWord(t[i]);
    case Swift =>
      assert IsWord(t[i]) && IsWord(t[i + 7]);
      assert j == i + 11 ==> In(t[i + 8], UpperDigit) && In(t[i + 9], UpperDigit) && In(t[i + 10], UpperDigit);
    case Iban => assert IsWord(t[i]) && In(t[i + 2], Digit) && In(t[i + 3], Digit);
    case Email =>
      var a: nat, d: nat :| EmailSplit(t, i, a, d, j);
  }
}
