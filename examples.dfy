/**
 * `redact_text` on particular inputs: the behaviour the redactor documents
 * (which digit runs are account numbers, what the e-mail pattern needs,
 * rule precedence, how entities are counted), derived from the model.
 */
module RedactionExamples {
  import opened Options
  import opened Chars
  import opened Patterns
  import opened PatternFacts
  import opened Scan
  import opened PiiRedactor
  import opened RedactionFacts

  /** The tokens as they appear in redacted text: the category in capitals, between "[REDACTED_" and "]" */
  lemma TokenSpellings()
    ensures Token(Account) == "[REDACTED_ACCOUNT]" && Token(Ssn) == "[REDACTED_SSN]"
    ensures Token(Swift) == "[REDACTED_SWIFT]" && Token(Iban) == "[REDACTED_IBAN]"
    ensures Token(Email) == "[REDACTED_EMAIL]" && RedactionToken("PERSON") == "[REDACTED_PERSON]"
  {
    Spelled(Token(Account), "[REDACTED_ACCOUNT]");
    Spelled(Token(Ssn), "[REDACTED_SSN]");
    Spelled(Token(Swift), "[REDACTED_SWIFT]");
    Spelled(Token(Iban), "[REDACTED_IBAN]");
    Spelled(Token(Email), "[REDACTED_EMAIL]");
    Spelled(RedactionToken("PERSON"), "[REDACTED_PERSON]");
  }

  /** Index-wise equality of two strings of the same length, for comparing a built-up text with a literal */
  lemma Spelled(s: string, lit: string)
    requires |s| == |lit| && forall k :: 0 <= k < |lit| ==> s[k] == lit[k]
    ensures s == lit
  {
  }

  /** In a text of digits only, the account rule can start only at 0, and it matches there exactly when the text has 10 to 16 digits */
  lemma AllDigitsAccount(t: string, i: nat)
    requires i <= |t| && forall k :: 0 <= k < |t| ==> IsDigit(t[k])
    ensures Patterns.MatchAt(Account, t, i) == if i == 0 && 10 <= |t| <= 16 then Some(|t|) else None
  {
    if i == 0 {
      RunLengthExact(t, 0, |t|, Digit);
    } else if i < |t| {
      assert IsWord(t[i - 1]) && IsWord(t[i]);
    }
  }

  /** Only the account rule can match in a text of digits only */
  lemma DigitsMatchOnlyAccount(t: string)
    requires forall k :: 0 <= k < |t| ==> IsDigit(t[k])
    ensures forall r :: r != Account ==> FindAll(Pattern(r), t, 0) == []
  {
    forall r | r != Account ensures FindAll(Pattern(r), t, 0) == [] {
      NoStartNoMatch(r, t, 0, |t|);
      FindAllEmpty(Pattern(r), t, 0);
    }
  }

  /** The account rule on a text of digits only: one match, the whole text, when it has 10 to 16 digits */
  lemma DigitsAccountScan(t: string)
    requires forall k :: 0 <= k < |t| ==> IsDigit(t[k])
    ensures FindAll(Pattern(Account), t, 0) == if 10 <= |t| <= 16 then [Span(0, |t|)] else []
    ensures Sub(Pattern(Account), t, Token(Account), 0) == if 10 <= |t| <= 16 then Token(Account) else t
  {
    var m := Pattern(Account);
    if 10 <= |t| <= 16 {
      AllDigitsAccount(t, 0);
      FindAllSingle(m, t, 0, |t|);
      SubWhole(m, t, Token(Account));
    } else {
      forall i | 0 <= i < |t| ensures Scan.MatchAt(m, t, i).None? {
        AllDigitsAccount(t, i);
      }
      FindAllEmpty(m, t, 0);
    }
  }

  /** A text of digits only is redacted whole, as one account number, when it has 10 to 16 digits, and is left alone otherwise */
  lemma DigitRunRedaction(t: string)
    requires forall k :: 0 <= k < |t| ==> IsDigit(t[k])
    ensures Redact(t, []) == if 10 <= |t| <= 16 then Redaction("[REDACTED_ACCOUNT]", 1) else Redaction(t, 0)
  {
    DigitsMatchOnlyAccount(t);
    DigitsAccountScan(t);
    if 10 <= |t| <= 16 {
      SingleTokenPass(t, Account);
      TokenSpellings();
    } else {
      NothingToRedact(t, []);
    }
  }

  /** A text that one rule matches whole, and no other rule matches at all, comes back as that rule's token, counted once */
  lemma SingleTokenPass(t: string, r: Rule)
    requires FindAll(Pattern(r), t, 0) == [Span(0, |t|)]
    requires forall r' :: r' != r ==> FindAll(Pattern(r'), t, 0) == []
    ensures Redact(t, []) == Redaction(Token(r), 1)
  {
    var tok := Token(r);
    SubWhole(Pattern(r), t, tok);
    TokenAloneHasNoMatches(r);
    PatternPassInOrder(t);
    ThroughPass(t, tok, Account, r);
    ThroughPass(t, tok, Ssn, r);
    ThroughPass(t, tok, Swift, r);
    ThroughPass(t, tok, Iban, r);
    ThroughPass(t, tok, Email, r);
  }

  /** A scan whose one match is the whole text rewrites it to the token */
  lemma SubWhole(m: Matcher, t: string, tok: string)
    requires ValidMatcher(m) && FindAll(m, t, 0) == [Span(0, |t|)]
    ensures Sub(m, t, tok, 0) == tok
  {
    assert Splice(t, [Span(0, |t|)], tok, 0) == t[0..0] + tok + Splice(t, [], tok, |t|);
  }

  /** No rule matches inside a lone token */
  lemma TokenAloneHasNoMatches(r: Rule)
    ensures forall r' :: FindAll(Pattern(r'), Token(r), 0) == []
  {
    assert UpperWord(Label(r));
    assert Join([Label(r)]) == Token(r);
    TokenTextHasNoMatches([Label(r)]);
  }

  /** How rule r' treats the text before rule r rewrites it to tok (r' comes first), and after */
  lemma ThroughPass(t: string, tok: string, r': Rule, r: Rule)
    requires r' != r ==> FindAll(Pattern(r'), t, 0) == []
    requires FindAll(Pattern(r'), tok, 0) == []
    ensures r' != r ==> Sub(Pattern(r'), t, Token(r'), 0) == t
    ensures Sub(Pattern(r'), tok, Token(r'), 0) == tok
  {
    if r' != r {
      SubWithoutMatches(Pattern(r'), t, Token(r'));
    }
    SubWithoutMatches(Pattern(r'), tok, Token(r'));
  }

  /** A 16-digit card number becomes one account token */
  lemma CardNumberExample()
    ensures Redact("4111111111111111", []) == Redaction("[REDACTED_ACCOUNT]", 1)
  {
    DigitRunRedaction("4111111111111111");
  }

  /** Runs of 9 and of 17 digits are not account numbers */
  lemma ShortAndLongDigitRunsExample()
    ensures Redact("123456789", []) == Redaction("123456789", 0)
    ensures Redact("12345678901234567", []) == Redaction("12345678901234567", 0)
  {
    var nine, seventeen := "123456789", "12345678901234567";
    assert forall k :: 0 <= k < |nine| ==> IsDigit(nine[k]);
    assert forall k :: 0 <= k < |seventeen| ==> IsDigit(seventeen[k]);
    DigitRunRedaction(nine);
    DigitRunRedaction(seventeen);
  }

  /** Without an '@' there is no e-mail address */
  lemma NoAtNoEmail(t: string)
    requires forall k :: 0 <= k < |t| ==> t[k] != '@'
    ensures FindAll(Pattern(Email), t, 0) == []
  {
    NoStartNoMatch(Email, t, 0, |t|);
    FindAllEmpty(Pattern(Email), t, 0);
  }

  /** Without capital letters there is no SWIFT/BIC code and no IBAN */
  lemma NoUpperNoSwiftIban(t: string)
    requires forall k :: 0 <= k < |t| ==> !IsUpper(t[k])
    ensures FindAll(Pattern(Swift), t, 0) == [] && FindAll(Pattern(Iban), t, 0) == []
  {
    NoStartNoMatch(Swift, t, 0, |t|);
    FindAllEmpty(Pattern(Swift), t, 0);
    NoStartNoMatch(Iban, t, 0, |t|);
    FindAllEmpty(Pattern(Iban), t, 0);
  }

  /** The SSN rule takes "123-45-6789" whole */
  lemma SsnScan()
    ensures FindAll(Pattern(Ssn), "123-45-6789", 0) == [Span(0, 11)]
  {
    var t := "123-45-6789";
    SsnMatch();
    NoStartNoMatch(Ssn, t, 1, 11);
    FindAllSingle(Pattern(Ssn), t, 0, 11);
  }

  /** The SSN rule at the start of "123-45-6789" matches all eleven characters */
  lemma SsnMatch()
    ensures Patterns.MatchAt(Ssn, "123-45-6789", 0) == Some(11)
  {
    var t := "123-45-6789";
    RunLengthExact(t, 0, 3, Digit);
    RunLengthExact(t, 4, 6, Digit);
    RunLengthExact(t, 7, 11, Digit);
  }

  /** No other rule matches in "123-45-6789" */
  lemma SsnTextOtherRules()
    ensures forall r :: r != Ssn ==> FindAll(Pattern(r), "123-45-6789", 0) == []
  {
    var t := "123-45-6789";
    assert forall k :: 0 <= k < |t| ==> !IsUpper(t[k]) && t[k] != '@';
    NoAtNoEmail(t);
    NoUpperNoSwiftIban(t);
    SsnTextNoAccount();
  }

  /** "123-45-6789" holds no run of ten digits */
  lemma SsnTextNoAccount()
    ensures FindAll(Pattern(Account), "123-45-6789", 0) == []
  {
    var t := "123-45-6789";
    assert t[3] == '-';
    NoStartNoMatch(Account, t, 0, |t|);
    FindAllEmpty(Pattern(Account), t, 0);
  }

  /** A social security number in the 3-2-4 layout becomes one SSN token */
  lemma SsnExample()
    ensures Redact("123-45-6789", []) == Redaction("[REDACTED_SSN]", 1)
  {
    SsnScan();
    SsnTextOtherRules();
    SingleTokenPass("123-45-6789", Ssn);
    TokenSpellings();
  }

  /** Digits grouped 3-3-3 are not an SSN */
  lemma NotAnSsnExample()
    ensures FindAll(Pattern(Ssn), "123-456-789", 0) == []
  {
    var t := "123-456-789";
    assert t[6] != '-';
    NoStartNoMatch(Ssn, t, 0, |t|);
    FindAllEmpty(Pattern(Ssn), t, 0);
  }

  /** Without digits there is no account number and no SSN */
  lemma NoDigitNoAccountSsn(t: string)
    requires forall k :: 0 <= k < |t| ==> !IsDigit(t[k])
    ensures FindAll(Pattern(Account), t, 0) == [] && FindAll(Pattern(Ssn), t, 0) == []
  {
    NoStartNoMatch(Account, t, 0, |t|);
    FindAllEmpty(Pattern(Account), t, 0);
    NoStartNoMatch(Ssn, t, 0, |t|);
    FindAllEmpty(Pattern(Ssn), t, 0);
  }

  /** When only the e-mail rule matches, and only once, `redact_text` replaces that one address */
  lemma OnlyEmailPass(t: string, s: nat, e: nat)
    requires FindAll(Pattern(Account), t, 0) == [] && FindAll(Pattern(Ssn), t, 0) == []
    requires FindAll(Pattern(Swift), t, 0) == [] && FindAll(Pattern(Iban), t, 0) == []
    requires s < e <= |t| && FindAll(Pattern(Email), t, 0) == [Span(s, e)]
    ensures Redact(t, []) == Redaction(t[..s] + Token(Email) + t[e..], 1)
  {
    SubWithoutMatches(Pattern(Account), t, Token(Account));
    SubWithoutMatches(Pattern(Ssn), t, Token(Ssn));
    SubWithoutMatches(Pattern(Swift), t, Token(Swift));
    SubWithoutMatches(Pattern(Iban), t, Token(Iban));
    SubSingle(Pattern(Email), t, Token(Email), s, e);
    PatternPassInOrder(t);
  }

  /** An address local@domain.tail whose parts use the characters the pattern allows */
  predicate Address(local: string, domain: string, tail: string) {
    |local| > 0 && |domain| > 0 && |tail| > 0
    && (forall k :: 0 <= k < |local| ==> In(local[k], LocalPart))
    && (forall k :: 0 <= k < |domain| ==> In(domain[k], DomainPart))
    && (forall k :: 0 <= k < |tail| ==> In(tail[k], TailPart))
  }

  /** The text around an address: no other '@', and a character on each side that stops the greedy runs */
  predicate Surrounding(pre: string, post: string) {
    (forall k :: 0 <= k < |pre| ==> pre[k] != '@')
    && (forall k :: 0 <= k < |post| ==> post[k] != '@')
    && (pre == [] || !In(pre[|pre| - 1], LocalPart))
    && (post == [] || !In(post[0], TailPart))
  }

  /** The address local@domain.tail */
  function AddressText(local: string, domain: string, tail: string): string {
    local + "@" + domain + "." + tail
  }

  /** Where each part of pre + local@domain.tail + post lies */
  lemma AddressLayout(pre: string, local: string, domain: string, tail: string, post: string)
    requires Address(local, domain, tail) && Surrounding(pre, post)
    ensures var t := pre + AddressText(local, domain, tail) + post;
      var a := |pre| + |local|;
      var d := a + 1 + |domain|;
      var j := d + 1 + |tail|;
      j + |post| == |t|
      && AllIn(t, |pre|, a, LocalPart) && t[a] == '@' && AllIn(t, a + 1, d, DomainPart) && t[d] == '.'
      && AllIn(t, d + 1, j, TailPart) && (j == |t| || !In(t[j], TailPart))
      && (forall k :: 0 <= k < |t| && k != a ==> t[k] != '@')
      && (0 < |pre| ==> !In(t[|pre| - 1], LocalPart))
  {
    var t := pre + AddressText(local, domain, tail) + post;
    var a := |pre| + |local|;
    var d := a + 1 + |domain|;
    var j := d + 1 + |tail|;
    assert forall k :: 0 <= k < |local| ==> t[|pre| + k] == local[k];
    assert forall k :: 0 <= k < |domain| ==> t[a + 1 + k] == domain[k];
    assert forall k :: 0 <= k < |tail| ==> t[d + 1 + k] == tail[k];
    assert forall k :: 0 <= k < |post| ==> t[j + k] == post[k];
    assert forall k :: 0 <= k < |pre| ==> t[k] == pre[k];
    assert t[a] == '@' && t[d] == '.';
    forall k | 0 <= k < |t| && k != a ensures t[k] != '@' {
      if k < |pre| {
      } else if k < a {
        assert In(local[k - |pre|], LocalPart);
      } else if a < k < d {
        assert In(domain[k - a - 1], DomainPart);
      } else if d < k < j {
        assert In(tail[k - d - 1], TailPart);
      } else if j <= k {
        assert post[k - j] != '@';
      }
    }
  }

  /** The e-mail rule tried at the start of the address matches the whole address */
  lemma AddressMatch(pre: string, local: string, domain: string, tail: string, post: string)
    requires Address(local, domain, tail) && Surrounding(pre, post)
    ensures var addr := AddressText(local, domain, tail);
      Patterns.MatchAt(Email, pre + addr + post, |pre|) == Some(|pre| + |addr|)
  {
    var t := pre + AddressText(local, domain, tail) + post;
    var a := |pre| + |local|;
    var d := a + 1 + |domain|;
    var j := d + 1 + |tail|;
    AddressLayout(pre, local, domain, tail, post);
    EmailSplitIsMatch(t, |pre|, a, d, j);
  }

  /** Before the address and after it, the e-mail rule cannot start */
  lemma AddressAlone(pre: string, local: string, domain: string, tail: string, post: string)
    requires Address(local, domain, tail) && Surrounding(pre, post)
    ensures var addr := AddressText(local, domain, tail);
      var t := pre + addr + post;
      forall i :: (0 <= i < |pre| || |pre| + |addr| <= i < |t|) ==> Scan.MatchAt(Pattern(Email), t, i).None?
  {
    var addr := AddressText(local, domain, tail);
    var t := pre + addr + post;
    AddressLayout(pre, local, domain, tail, post);
    NoStartNoMatch(Email, t, 0, |pre|);
    NoStartNoMatch(Email, t, |pre| + |addr|, |t|);
  }

  /**
   * In running text, an address with nothing but '@'-free text around it,
   * set off by characters the runs cannot absorb, is the one e-mail match.
   */
  lemma AddressInText(pre: string, local: string, domain: string, tail: string, post: string)
    requires Address(local, domain, tail) && Surrounding(pre, post)
    ensures var addr := AddressText(local, domain, tail);
      FindAll(Pattern(Email), pre + addr + post, 0) == [Span(|pre|, |pre| + |addr|)]
  {
    var addr := AddressText(local, domain, tail);
    AddressMatch(pre, local, domain, tail, post);
    AddressAlone(pre, local, domain, tail, post);
    FindAllSingle(Pattern(Email), pre + addr + post, |pre|, |pre| + |addr|);
  }

  /** In text without digits or capitals, a single e-mail match is the only thing redacted */
  lemma LowercaseOneEmail(t: string, s: nat, e: nat)
    requires forall k :: 0 <= k < |t| ==> !IsDigit(t[k]) && !IsUpper(t[k])
    requires s < e <= |t| && FindAll(Pattern(Email), t, 0) == [Span(s, e)]
    ensures Redact(t, []) == Redaction(t[..s] + Token(Email) + t[e..], 1)
  {
    NoDigitNoAccountSsn(t);
    NoUpperNoSwiftIban(t);
    OnlyEmailPass(t, s, e);
  }

  /** Cutting pre + s + post around s gives back pre and post */
  lemma Around(x: Redaction, pre: string, s: string, post: string, tok: string)
    requires var t := pre + s + post; x == Redaction(t[..|pre|] + tok + t[|pre| + |s|..], 1)
    ensures x == Redaction(pre + tok + post, 1)
  {
    var t := pre + s + post;
    assert t[..|pre|] == pre;
    assert t[|pre| + |s|..] == post;
  }

  /** An address in running text is replaced and the words around it are kept */
  lemma EmailExample()
    ensures Redact("contact me at a.b@example.com today", []) == Redaction("contact me at [REDACTED_EMAIL] today", 1)
  {
    var pre, local, domain, tail, post := "contact me at ", "a.b", "example", "com", " today";
    var addr := AddressText(local, domain, tail);
    EmailExampleParts();
    EmailExampleSpelling();
    AddressInText(pre, local, domain, tail, post);
    LowercaseOneEmail(pre + addr + post, |pre|, |pre| + |addr|);
    Around(Redact(pre + addr + post, []), pre, addr, post, Token(Email));
    TokenSpellings();
    EmailResultSpelling();
  }

  /** "a.b", "example" and "com" are address parts, and "contact me at " and " today" set the address off */
  lemma EmailExampleParts()
    ensures Address("a.b", "example", "com") && Surrounding("contact me at ", " today")
  {
  }

  /** The example sentence, assembled from its parts, has no digits and no capitals */
  lemma EmailExampleSpelling()
    ensures var t := "contact me at " + AddressText("a.b", "example", "com") + " today";
      t == "contact me at a.b@example.com today"
      && forall k :: 0 <= k < |t| ==> !IsDigit(t[k]) && !IsUpper(t[k])
  {
    var t := "contact me at " + AddressText("a.b", "example", "com") + " today";
    Spelled(t, "contact me at a.b@example.com today");
  }

  /** The redacted sentence, assembled from its parts */
  lemma EmailResultSpelling()
    ensures "contact me at " + "[REDACTED_EMAIL]" + " today" == "contact me at [REDACTED_EMAIL] today"
  {
    Spelled("contact me at " + "[REDACTED_EMAIL]" + " today", "contact me at [REDACTED_EMAIL] today");
  }

  /** "a@b_c.com": the domain run "b" is followed by '_', not '.', so there is no address even though a '.' comes later */
  lemma DomainNotFollowedByDotExample()
    ensures FindAll(Pattern(Email), "a@b_c.com", 0) == []
  {
    var t := "a@b_c.com";
    assert forall k :: 0 <= k < |t| && t[k] == '@' ==> k == 1;
    assert forall k :: 0 <= k < |t| && t[k] == '.' ==> k == 5;
    assert !In(t[3], DomainPart);
    NoStartNoMatch(Email, t, 0, |t|);
    FindAllEmpty(Pattern(Email), t, 0);
  }

  /**
   * Rule precedence: the account rule runs before the e-mail rule, so in
   * "1234567890@bank.com" it takes the ten digits, and the e-mail rule then
   * finds no local part in front of the '@'.
   */
  lemma AccountBeforeEmailExample()
    ensures Redact("1234567890@bank.com", []) == Redaction("[REDACTED_ACCOUNT]@bank.com", 1)
  {
    var t, t1 := "1234567890@bank.com", "[REDACTED_ACCOUNT]@bank.com";
    PrecedenceAccountScan();
    PrecedenceAfterAccount();
    forall r | r != Account ensures FindAll(Pattern(r), t1, 0) == [] {
      PrecedenceNoOtherRule(r);
    }
    OnlyAccountPass(t, 0, 10, t1);
  }

  /** The account rule matches the ten digits in front of the '@', and nothing else */
  lemma PrecedenceAccountScan()
    ensures FindAll(Pattern(Account), "1234567890@bank.com", 0) == [Span(0, 10)]
  {
    var t := "1234567890@bank.com";
    PrecedenceAccountAt();
    PrecedenceAccountElsewhere();
    NoStartNoMatch(Account, t, 1, |t|);
    FindAllSingle(Pattern(Account), t, 0, 10);
  }

  /** The account rule at the start of "1234567890@bank.com" takes the ten digits */
  lemma PrecedenceAccountAt()
    ensures Patterns.MatchAt(Account, "1234567890@bank.com", 0) == Some(10)
  {
    var t := "1234567890@bank.com";
    assert forall k :: 0 <= k < 10 ==> IsDigit(t[k]);
    assert t[10] == '@';
    RunLengthExact(t, 0, 10, Digit);
  }

  /** Nowhere else in "1234567890@bank.com" can the account rule start: inside the run a digit precedes, after it fewer than ten characters remain */
  lemma PrecedenceAccountElsewhere()
    ensures var t := "1234567890@bank.com"; forall i :: 1 <= i < |t| ==> !CanStart(Account, t, i)
  {
    var t := "1234567890@bank.com";
    forall i | 1 <= i < |t| ensures !CanStart(Account, t, i) {
      if i < 10 {
        assert IsDigit(t[i - 1]);
      }
    }
  }

  /** What the account rule leaves: its token where the digits were */
  lemma PrecedenceAfterAccount()
    ensures var t := "1234567890@bank.com"; t[..0] + Token(Account) + t[10..] == "[REDACTED_ACCOUNT]@bank.com"
  {
    TokenSpellings();
    var t := "1234567890@bank.com";
    Spelled(t[10..], "@bank.com");
  }

  /** After the account token, "@bank.com" has no capitals, no digits and no '@' after its first character */
  lemma PrecedenceSuffix()
    ensures var t := "[REDACTED_ACCOUNT]@bank.com";
      TokenAt(t, "ACCOUNT", 0) && |RedactionToken("ACCOUNT")| == 18
      && forall k :: 18 <= k < |t| ==> !IsUpper(t[k]) && !IsDigit(t[k]) && (k == 18 || t[k] != '@')
  {
    var t := "[REDACTED_ACCOUNT]@bank.com";
    Spelled(RedactionToken("ACCOUNT"), "[REDACTED_ACCOUNT]");
    Spelled(t[..18], "[REDACTED_ACCOUNT]");
  }

  /** No rule other than the account rule matches "[REDACTED_ACCOUNT]@bank.com" */
  lemma PrecedenceNoOtherRule(r: Rule)
    requires r != Account
    ensures FindAll(Pattern(r), "[REDACTED_ACCOUNT]@bank.com", 0) == []
  {
    var t := "[REDACTED_ACCOUNT]@bank.com";
    PrecedenceSuffix();
    assert UpperWord("ACCOUNT");
    NoMatchInToken(r, t, "ACCOUNT", 0);
    forall i | 18 <= i < |t| ensures !CanStart(r, t, i) {
      if r.Email? {
        assert forall a :: i < a < |t| ==> t[a] != '@';
      }
    }
    NoStartNoMatch(r, t, 18, |t|);
    FindAllEmpty(Pattern(r), t, 0);
  }

  /** When the account rule matches once and the other rules find nothing in what it leaves, that is the whole redaction */
  lemma OnlyAccountPass(t: string, s: nat, e: nat, t1: string)
    requires s < e <= |t| && FindAll(Pattern(Account), t, 0) == [Span(s, e)]
    requires t1 == t[..s] + Token(Account) + t[e..]
    requires FindAll(Pattern(Ssn), t1, 0) == [] && FindAll(Pattern(Swift), t1, 0) == []
    requires FindAll(Pattern(Iban), t1, 0) == [] && FindAll(Pattern(Email), t1, 0) == []
    ensures Redact(t, []) == Redaction(t1, 1)
  {
    SubSingle(Pattern(Account), t, Token(Account), s, e);
    SubWithoutMatches(Pattern(Ssn), t1, Token(Ssn));
    SubWithoutMatches(Pattern(Swift), t1, Token(Swift));
    SubWithoutMatches(Pattern(Iban), t1, Token(Iban));
    SubWithoutMatches(Pattern(Email), t1, Token(Email));
    PatternPassInOrder(t);
  }

  /**
   * The entity pass on "Smith met John Smith today", with the recogniser's
   * three disjoint spans in document order: PERSON "Smith", PERSON "John
   * Smith" and DATE "today". The first entity replaces both occurrences of
   * "Smith", the second surname included, so "John Smith" no longer occurs
   * when its turn comes, yet it is still counted; DATE is not on the
   * allow-list.
   */
  lemma EntityExample()
    ensures var ents := [Entity("PERSON", "Smith"), Entity("PERSON", "John Smith"), Entity("DATE", "today")];
      Replaceable(ents)
      && Redact("Smith met John Smith today", ents) == Redaction("[REDACTED_PERSON]" + " met John " + "[REDACTED_PERSON]" + " today", 2)
  {
    var ents := [Entity("PERSON", "Smith"), Entity("PERSON", "John Smith"), Entity("DATE", "today")];
    MeetingHasNoPatterns();
    MeetingEntityPass();
    NoPatternMatches("Smith met John Smith today", ents);
  }

  /** The entity pass over "Smith met John Smith today" with those three entities */
  lemma MeetingEntityPass()
    ensures var ents := [Entity("PERSON", "Smith"), Entity("PERSON", "John Smith"), Entity("DATE", "today")];
      Replaceable(ents)
      && EntityText("Smith met John Smith today", ents) == "[REDACTED_PERSON]" + " met John " + "[REDACTED_PERSON]" + " today"
      && KeptCount(ents) == 2
  {
    var e1, e2, e3 := Entity("PERSON", "Smith"), Entity("PERSON", "John Smith"), Entity("DATE", "today");
    MeetingAfterFullName();
    DateNotAllowed();
    assert [e1, e2] + [e3] == [e1, e2, e3];
    EntityStep("Smith met John Smith today", [e1, e2], e3);
  }

  /** DATE is not on the allow-list */
  lemma DateNotAllowed()
    ensures "DATE" !in AllowedLabels
  {
  }

  /** After the two PERSON entities: both surnames replaced, and the vanished full name still counted */
  lemma MeetingAfterFullName()
    ensures var ents := [Entity("PERSON", "Smith"), Entity("PERSON", "John Smith")];
      Replaceable(ents)
      && EntityText("Smith met John Smith today", ents) == "[REDACTED_PERSON]" + " met John " + "[REDACTED_PERSON]" + " today"
      && KeptCount(ents) == 2
  {
    var e1, e2 := Entity("PERSON", "Smith"), Entity("PERSON", "John Smith");
    MeetingAfterSurname();
    FullNameGone();
    assert [e1] + [e2] == [e1, e2];
    AbsentEntityStillCounted("Smith met John Smith today", [e1], e2);
  }

  /** After the first entity: every "Smith" replaced, counted once */
  lemma MeetingAfterSurname()
    ensures var ents := [Entity("PERSON", "Smith")];
      Replaceable(ents)
      && EntityText("Smith met John Smith today", ents) == "[REDACTED_PERSON]" + " met John " + "[REDACTED_PERSON]" + " today"
      && KeptCount(ents) == 1
  {
    var e1 := Entity("PERSON", "Smith");
    assert Kept(e1);
    SurnameReplaced();
    assert [] + [e1] == [e1];
    EntityStep("Smith met John Smith today", [], e1);
  }

  /** "Smith met John Smith today" has no digits, no '@' and no two capitals in a row, so no rule matches it */
  lemma MeetingHasNoPatterns()
    ensures forall r :: FindAll(Pattern(r), "Smith met John Smith today", 0) == []
  {
    var t := "Smith met John Smith today";
    assert forall k :: 0 <= k < |t| ==> !IsDigit(t[k]) && t[k] != '@';
    assert forall k :: 0 <= k < |t| - 1 ==> !IsUpper(t[k]) || !IsUpper(t[k + 1]);
    forall r: Rule ensures FindAll(Pattern(r), t, 0) == [] {
      NoStartNoMatch(r, t, 0, |t|);
      FindAllEmpty(Pattern(r), t, 0);
    }
  }

  /** `str.replace` rewrites both occurrences of "Smith", at 0 and at 15 */
  lemma SurnameReplaced()
    ensures Replace("Smith met John Smith today", "Smith", RedactionToken("PERSON"))
         == "[REDACTED_PERSON]" + " met John " + "[REDACTED_PERSON]" + " today"
  {
    var t, tok := "Smith met John Smith today", RedactionToken("PERSON");
    SurnameOccurrences();
    SubPair(Literal("Smith"), t, tok, 0, 5, 15, 20);
    MeetingPieces();
    TokenSpellings();
    var a, b, d := "[REDACTED_PERSON]", " met John ", " today";
    assert [] + a + (b + a + d) == a + b + a + d;
  }

  /** The words the surname replacement keeps */
  lemma MeetingPieces()
    ensures var t := "Smith met John Smith today";
      t[..0] == [] && t[5..15] == " met John " && t[20..] == " today"
  {
    var t := "Smith met John Smith today";
    Spelled(t[5..15], " met John ");
    Spelled(t[20..], " today");
  }

  /** "Smith" occurs in "Smith met John Smith today" at 0 and at 15 only */
  lemma SurnameOccurrences()
    ensures FindAll(Literal("Smith"), "Smith met John Smith today", 0) == [Span(0, 5), Span(15, 20)]
  {
    var t, needle := "Smith met John Smith today", "Smith";
    assert t[0..5] == needle && t[15..20] == needle;
    forall p | 0 <= p < |t| && p != 0 && p != 15 ensures Scan.MatchAt(Literal(needle), t, p).None? {
      if OccursAt(t, needle, p) {
        OccursAtFirst(t, needle, p);
        MeetingCapitalS(p);
      }
    }
    FindAllPair(Literal(needle), t, 0, 5, 15, 20);
  }

  /** The sentence has an 'S' only at the starts of the two surnames */
  lemma MeetingCapitalS(p: nat)
    requires p < 26 && p != 0 && p != 15
    ensures "Smith met John Smith today"[p] != 'S'
  {
    var t := "Smith met John Smith today";
    var a, b, c, d := "Smith", " met John ", "Smith", " today";
    Spelled(a + b + c + d, t);
    assert forall k :: 1 <= k < |a| ==> a[k] != 'S';
    assert forall k :: 0 <= k < |b| ==> b[k] != 'S';
    assert forall k :: 0 <= k < |d| ==> d[k] != 'S';
    if p < 5 {
      assert t[p] == a[p];
    } else if p < 15 {
      assert t[p] == b[p - 5];
    } else if p < 20 {
      assert t[p] == c[p - 15];
    } else {
      assert t[p] == d[p - 20];
    }
  }

  /** "John Smith" no longer occurs once the surnames are replaced: the one 'J' is followed by "ohn [" */
  lemma FullNameGone()
    ensures forall p :: !OccursAt("[REDACTED_PERSON]" + " met John " + "[REDACTED_PERSON]" + " today", "John Smith", p)
  {
    var r := "[REDACTED_PERSON]" + " met John " + "[REDACTED_PERSON]" + " today";
    forall p: nat | OccursAt(r, "John Smith", p) ensures false {
      OccursAtFirst(r, "John Smith", p);
      ResultCapitalJ(p);
    }
  }

  /** The redacted sentence has its only 'J' at 22, and five places on stands a '[' */
  lemma ResultCapitalJ(p: nat)
    requires p < 50
    ensures var r := "[REDACTED_PERSON]" + " met John " + "[REDACTED_PERSON]" + " today";
      r[p] == 'J' ==> p == 22 && r[p + 5] == '['
  {
    var a, b, d := "[REDACTED_PERSON]", " met John ", " today";
    assert forall k :: 0 <= k < |a| ==> a[k] != 'J';
    assert forall k :: 0 <= k < |b| && k != 5 ==> b[k] != 'J';
    assert forall k :: 0 <= k < |d| ==> d[k] != 'J';
  }
}
