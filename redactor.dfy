/**
 * `redact_text`: the pattern pass (five rules, each counted with `findall`
 * and applied with `sub` on the text the earlier rules left), then the
 * entity pass (every kept entity's literal text replaced with `str.replace`,
 * counted once per entity).
 */
module PiiRedactor {
  import opened Patterns
  import opened Scan

  /** An entity reported by the recogniser for the pattern-redacted text: `ent.label_` and `ent.text` */
  datatype Entity = Entity(category: string, text: string)

  /** The entity labels whose text is redacted */
  const AllowedLabels: seq<string> := ["PERSON", "GPE", "ORG", "LOC", "MONEY"]

  /** The entity pass redacts only entities whose label is on the allow-list */
  predicate Kept(e: Entity) {
    e.category in AllowedLabels
  }

  /** Recogniser spans are never empty; only kept entities reach `str.replace` */
  predicate Replaceable(ents: seq<Entity>) {
    forall e <- ents :: Kept(e) ==> |e.text| > 0
  }

  /** What `redact_text` returns: the rewritten text and the number of redactions */
  datatype Redaction = Redaction(text: string, count: nat)

  /** The text after applying rules in order, each to the previous rule's output */
  function PatternText(t: string, rules: seq<Rule>): string
    decreases |rules|
  {
    if rules == [] then t
    else
      var r := rules[|rules| - 1];
      Sub(Pattern(r), PatternText(t, rules[..|rules| - 1]), Token(r), 0)
  }

  /** The matches counted while applying rules in order: `len(findall)` of each rule on the text it rewrites */
  function PatternCount(t: string, rules: seq<Rule>): nat
    decreases |rules|
  {
    if rules == [] then 0
    else
      var r := rules[|rules| - 1];
      PatternCount(t, rules[..|rules| - 1]) + |FindAll(Pattern(r), PatternText(t, rules[..|rules| - 1]), 0)|
  }

  /** The text after replacing, entity by entity, every occurrence of each kept entity's text */
  function EntityText(t: string, ents: seq<Entity>): string
    requires Replaceable(ents)
    decreases |ents|
  {
    if ents == [] then t
    else
      var e := ents[|ents| - 1];
      var before := EntityText(t, ents[..|ents| - 1]);
      if Kept(e) then Replace(before, e.text, RedactionToken(e.category)) else before
  }

  /** One redaction per kept entity */
  function KeptCount(ents: seq<Entity>): nat
    decreases |ents|
  {
    if ents == [] then 0
    else KeptCount(ents[..|ents| - 1]) + (if Kept(ents[|ents| - 1]) then 1 else 0)
  }

  /** The result of `redact_text` on t when the recogniser reports ents for the pattern-redacted text */
  function Redact(t: string, ents: seq<Entity>): Redaction
    requires Replaceable(ents)
  {
    Redaction(EntityText(PatternText(t, Rules), ents), PatternCount(t, Rules) + KeptCount(ents))
  }

  /** Appending a rule applies it to the text the earlier rules produced and adds the matches it finds there */
  lemma PatternStep(t: string, rules: seq<Rule>, r: Rule)
    ensures PatternText(t, rules + [r]) == Sub(Pattern(r), PatternText(t, rules), Token(r), 0)
    ensures PatternCount(t, rules + [r]) == PatternCount(t, rules) + |FindAll(Pattern(r), PatternText(t, rules), 0)|
  {
    assert (rules + [r])[..|rules|] == rules;
  }

  /**
   * One step of the entity pass: a kept entity adds exactly one to the count
   * and has every occurrence of its text replaced by its token; any other
   * entity changes neither text nor count.
   */
  lemma EntityStep(t: string, ents: seq<Entity>, e: Entity)
    requires Replaceable(ents + [e])
    ensures Replaceable(ents)
    ensures Kept(e) ==>
      EntityText(t, ents + [e]) == Replace(EntityText(t, ents), e.text, RedactionToken(e.category))
      && KeptCount(ents + [e]) == KeptCount(ents) + 1
    ensures !Kept(e) ==>
      EntityText(t, ents + [e]) == EntityText(t, ents) && KeptCount(ents + [e]) == KeptCount(ents)
  {
    assert (ents + [e])[..|ents|] == ents;
  }

  /**
   * `redact_text(text)`, with the recogniser's entities for the
   * pattern-redacted text passed in as ents.
   */
  method RedactText(text: string, ents: seq<Entity>) returns (redacted: string, count: nat)
    requires Replaceable(ents)
    ensures Redaction(redacted, count) == Redact(text, ents)
  {
    var patternCount;
    redacted, patternCount := RedactPatterns(text);
    redacted, count := RedactEntities(redacted, ents, patternCount);
  }

  /** The first half of `redact_text`: every rule in order, counting its matches */
  method RedactPatterns(text: string) returns (redacted: string, count: nat)
    ensures redacted == PatternText(text, Rules) && count == PatternCount(text, Rules)
  {
    redacted, count := text, 0;
    for k := 0 to |Rules|
      invariant redacted == PatternText(text, Rules[..k])
      invariant count == PatternCount(text, Rules[..k])
    {
      var rule := Rules[k];
      count := count + |FindAll(Pattern(rule), redacted, 0)|;
      redacted := Sub(Pattern(rule), redacted, Token(rule), 0);
      assert Rules[..k + 1] == Rules[..k] + [rule];
      PatternStep(text, Rules[..k], rule);
    }
    assert Rules[..|Rules|] == Rules;
  }

  /** The second half of `redact_text`: each kept entity's text replaced, one count per kept entity */
  method RedactEntities(text: string, ents: seq<Entity>, count0: nat) returns (redacted: string, count: nat)
    requires Replaceable(ents)
    ensures redacted == EntityText(text, ents) && count == count0 + KeptCount(ents)
  {
    redacted, count := text, count0;
    for k := 0 to |ents|
      invariant redacted == EntityText(text, ents[..k])
      invariant count == count0 + KeptCount(ents[..k])
    {
      var e := ents[k];
      if e.category in AllowedLabels {
        count := count + 1;
        redacted := Replace(redacted, e.text, RedactionToken(e.category));
      }
      assert ents[..k + 1][..k] == ents[..k];
    }
    assert ents[..|ents|] == ents;
  }
}

/** Properties of `redact_text` as a whole */
module RedactionFacts {
  import opened Patterns
  import opened PatternFacts
  import opened Scan
  import opened PiiRedactor

  /**
   * The pattern pass is Account, then SSN, SWIFT, IBAN and e-mail, each rule
   * rewriting the previous rule's output; the count is the sum of the
   * matches each rule finds in the very text it rewrites.
   */
  lemma PatternPassInOrder(t: string)
    ensures
      var t1 := Sub(Pattern(Account), t, Token(Account), 0);
      var t2 := Sub(Pattern(Ssn), t1, Token(Ssn), 0);
      var t3 := Sub(Pattern(Swift), t2, Token(Swift), 0);
      var t4 := Sub(Pattern(Iban), t3, Token(Iban), 0);
      PatternText(t, Rules) == Sub(Pattern(Email), t4, Token(Email), 0)
      && PatternCount(t, Rules)
         == |FindAll(Pattern(Account), t, 0)| + |FindAll(Pattern(Ssn), t1, 0)| + |FindAll(Pattern(Swift), t2, 0)|
            + |FindAll(Pattern(Iban), t3, 0)| + |FindAll(Pattern(Email), t4, 0)|
  {
    var r1, r2, r3, r4 := [Account], [Account, Ssn], [Account, Ssn, Swift], [Account, Ssn, Swift, Iban];
    assert [] + [Account] == r1 && r1 + [Ssn] == r2 && r2 + [Swift] == r3 && r3 + [Iban] == r4;
    assert r4 + [Email] == Rules;
    PatternStep(t, [], Account);
    PatternStep(t, r1, Ssn);
    PatternStep(t, r2, Swift);
    PatternStep(t, r3, Iban);
    PatternStep(t, r4, Email);
  }



  /** The positions of the kept entities */
  function KeptPositions(ents: seq<Entity>): set<nat> {
    set k: nat | k < |ents| && Kept(ents[k])
  }

  /** The entity pass counts each kept entity once, however many occurrences it replaced */
  lemma {:induction false} KeptCountIsPerEntity(ents: seq<Entity>)
    ensures KeptCount(ents) == |KeptPositions(ents)|
    decreases |ents|
  {
    if ents != [] {
      var init := ents[..|ents| - 1];
      KeptCountIsPerEntity(init);
      KeptPositionsGrow(ents);
    }
  }

  /** The last entity adds its own position, if kept, to those of the others */
  lemma KeptPositionsGrow(ents: seq<Entity>)
    requires ents != []
    ensures var last := |ents| - 1;
      KeptPositions(ents) == KeptPositions(ents[..last]) + (if Kept(ents[last]) then {last} else {})
      && last !in KeptPositions(ents[..last])
  {
    var last := |ents| - 1;
    forall k: nat | k < last ensures ents[..last][k] == ents[k] { }
  }


  /**
   * A kept entity whose text no longer occurs (an earlier replacement consumed
   * it) is still counted, and changes nothing.
   */
  lemma AbsentEntityStillCounted(t: string, ents: seq<Entity>, e: Entity)
    requires Replaceable(ents + [e]) && Kept(e)
    requires forall p :: !OccursAt(EntityText(t, ents), e.text, p)
    ensures Replaceable(ents)
    ensures EntityText(t, ents + [e]) == EntityText(t, ents)
    ensures KeptCount(ents + [e]) == KeptCount(ents) + 1
  {
    EntityStep(t, ents, e);
    ReplaceAbsent(EntityText(t, ents), e.text, RedactionToken(e.category));
  }

  /** Rules that find nothing leave the text as it is and count nothing */
  lemma {:induction false} NoMatchesPatternPass(t: string, rules: seq<Rule>)
    requires forall r :: FindAll(Pattern(r), t, 0) == []
    ensures PatternText(t, rules) == t && PatternCount(t, rules) == 0
    decreases |rules|
  {
    if rules != [] {
      var r := rules[|rules| - 1];
      NoMatchesPatternPass(t, rules[..|rules| - 1]);
      SubWithoutMatches(Pattern(r), t, Token(r));
    }
  }

  /** Entities that are not kept leave the text as it is and count nothing */
  lemma {:induction false} NoKeptEntities(t: string, ents: seq<Entity>)
    requires forall e <- ents :: !Kept(e)
    ensures Replaceable(ents)
    ensures EntityText(t, ents) == t && KeptCount(ents) == 0
    decreases |ents|
  {
    if ents != [] {
      NoKeptEntities(t, ents[..|ents| - 1]);
      assert !Kept(ents[|ents| - 1]);
    }
  }

  /** With no pattern match and no kept entity, `redact_text` returns its input and a count of 0 */
  lemma NothingToRedact(t: string, ents: seq<Entity>)
    requires forall r :: FindAll(Pattern(r), t, 0) == []
    requires forall e <- ents :: !Kept(e)
    ensures Replaceable(ents) && Redact(t, ents) == Redaction(t, 0)
  {
    NoMatchesPatternPass(t, Rules);
    NoKeptEntities(t, ents);
  }

  /** When no rule matches, the recogniser sees the input itself and the entity pass alone decides the result */
  lemma NoPatternMatches(t: string, ents: seq<Entity>)
    requires forall r :: FindAll(Pattern(r), t, 0) == []
    requires Replaceable(ents)
    ensures Redact(t, ents) == Redaction(EntityText(t, ents), KeptCount(ents))
  {
    NoMatchesPatternPass(t, Rules);
  }

  /** The text made of the tokens of the given categories, one after another */
  function Join(categories: seq<string>): string {
    if categories == [] then [] else RedactionToken(categories[0]) + Join(categories[1..])
  }

  /** Every position of a joined text lies inside one of its tokens */
  lemma {:induction false} JoinCovers(categories: seq<string>, i: nat) returns (p: nat, category: string)
    requires i < |Join(categories)|
    ensures category in categories && TokenAt(Join(categories), category, p)
    ensures p <= i < p + |RedactionToken(category)|
    decreases |categories|
  {
    var t := Join(categories);
    var tok := RedactionToken(categories[0]);
    if i < |tok| {
      p, category := 0, categories[0];
      assert t[..|tok|] == tok;
    } else {
      var rest := Join(categories[1..]);
      assert t == tok + rest;
      var p' : nat;
      p', category := JoinCovers(categories[1..], i - |tok|);
      p := p' + |tok|;
      var n := |RedactionToken(category)|;
      assert t[p..p + n] == rest[p'..p' + n];
    }
  }

  /**
   * A text made only of redaction tokens passes through the pattern pass
   * unchanged, with nothing counted: re-running the pass on its own tokens
   * adds 0.
   */
  lemma TokenTextIsFixedPoint(categories: seq<string>)
    requires forall c <- categories :: UpperWord(c)
    ensures PatternText(Join(categories), Rules) == Join(categories)
    ensures PatternCount(Join(categories), Rules) == 0
  {
    TokenTextHasNoMatches(categories);
    NoMatchesPatternPass(Join(categories), Rules);
  }

  /** Rule r matches nowhere in t[lo..hi] when it cannot start there */
  lemma NoStartNoMatch(r: Rule, t: string, lo: nat, hi: nat)
    requires lo <= hi <= |t|
    requires forall i :: lo <= i < hi ==> !CanStart(r, t, i)
    ensures forall i :: lo <= i < hi ==> Scan.MatchAt(Pattern(r), t, i).None?
  {
    forall i | lo <= i < hi ensures Scan.MatchAt(Pattern(r), t, i).None? {
      if Scan.MatchAt(Pattern(r), t, i).Some? {
        MatchNeedsStart(r, t, i);
      }
    }
  }

  /** No rule matches at a position inside a token */
  lemma NoMatchInToken(r: Rule, t: string, category: string, p: nat)
    requires UpperWord(category) && TokenAt(t, category, p)
    ensures forall i :: p <= i < p + |RedactionToken(category)| ==> Scan.MatchAt(Pattern(r), t, i).None?
  {
    forall i | p <= i < p + |RedactionToken(category)| ensures Scan.MatchAt(Pattern(r), t, i).None? {
      if Scan.MatchAt(Pattern(r), t, i).Some? {
        TokenNeverMatched(r, t, category, p, i);
      }
    }
  }

  /** No rule matches anywhere in a text made only of tokens */
  lemma TokenTextHasNoMatches(categories: seq<string>)
    requires forall c <- categories :: UpperWord(c)
    ensures forall r :: FindAll(Pattern(r), Join(categories), 0) == []
  {
    var t := Join(categories);
    forall r: Rule ensures FindAll(Pattern(r), t, 0) == [] {
      forall i | 0 <= i < |t| ensures Scan.MatchAt(Pattern(r), t, i).None? {
        var p, category := JoinCovers(categories, i);
        if Scan.MatchAt(Pattern(r), t, i).Some? {
          TokenNeverMatched(r, t, category, p, i);
        }
      }
      FindAllEmpty(Pattern(r), t, 0);
    }
  }

  /** Redacting a text made only of tokens, with no entities, returns it unchanged and counts nothing */
  lemma TokenTextRedactsToItself(categories: seq<string>)
    requires forall c <- categories :: UpperWord(c)
    ensures Redact(Join(categories), []) == Redaction(Join(categories), 0)
  {
    TokenTextHasNoMatches(categories);
    NothingToRedact(Join(categories), []);
  }
}
