# PII redaction engine: a Dafny model of `redact_text`

This project models `redact_text` from `app/pii_redactor.py`. The function removes
personally identifiable and financial data from free text. It works in two stages
over one text value and returns the rewritten text with a redaction count:

1. **Pattern pass.** Five regular-expression rules run in a fixed order:
   account number, SSN, SWIFT/BIC, IBAN and e-mail. Each rule runs on the text as
   the earlier rules left it. `findall` counts the rule's matches and `sub` replaces
   each match with the rule's token (`[REDACTED_ACCOUNT]`, …).
2. **Entity pass.** A named-entity recogniser reports entities for the
   pattern-redacted text. Each entity whose label is on the allow-list
   (PERSON, GPE, ORG, LOC, MONEY) adds exactly one to the count. Every occurrence of
   its literal text is then replaced by `[REDACTED_<label>]` using `str.replace`.

The model is laid out as follows:

- `chars.dfy`, module `Chars`: the character classes of the patterns, the `\b`
  assertion, and maximal runs. Module `Options` holds the `Option` type.
- `patterns.dfy`, module `Patterns`: the five rules. Each rule has two definitions:
  - `Accepts`: the language of the regular expression, anchored at a position;
  - `MatchAt`: what Python's backtracking engine reports there.
- `patterns.dfy`, module `PatternFacts`: proofs that the two definitions agree, and
  that no rule ever matches inside a redaction token.
- `scan.dfy`, module `Scan`: leftmost, non-overlapping scanning. It defines
  - `FindAll` for `findall`;
  - `Sub` for `sub`;
  - `Replace` for `str.replace`.

  `Sub` is specified as splicing the token into exactly the spans `FindAll` reports.
- `redactor.dfy`, module `PiiRedactor`:
  - the specification functions `PatternText`, `PatternCount`, `EntityText`,
    `KeptCount` and `Redact`;
  - the imperative `RedactText`, which is two loops proved against those functions.
- `redactor.dfy`, module `RedactionFacts`: properties of the whole pipeline, such as
  rule order, per-entity counting, and that text made of tokens is a fixed point.
- `examples.dfy`, module `RedactionExamples`: the documented behaviour on particular
  inputs, derived from the model.

Where the documentation and the code differ, the model follows the code:

- **Entity token spelling.** The code builds the entity token from the label as
  the recogniser emits it (`[REDACTED_PERSON]`). The documentation's examples write
  `[REDACTED_Person]`.
- **SWIFT versus IBAN.** The documentation illustrates rule precedence with "a token
  that matches both the SWIFT pattern and the IBAN pattern". No such token exists:
  - a SWIFT match has letters at its third and fourth characters;
  - an IBAN match has digits there;
  - both must span a whole word.

  `SwiftIbanNeverOverlap` proves this. Precedence is shown instead with the account
  rule taking the digits in front of an `@` (`AccountBeforeEmailExample`).
- **Return value.** The function is annotated `-> str` but returns a pair
  `(text, count)`. The model returns the pair.

## Model

| member | source | states |
|---|---|---|
| Patterns.Label | app/pii_redactor.py:8-12 | Defines the category each rule's token carries: ACCOUNT, SSN, SWIFT, IBAN, EMAIL |
| Patterns.RedactionToken | app/pii_redactor.py:8-12 | Defines the token `[REDACTED_<category>]`, the shape of the five rule replacements and of the f-string `f"[REDACTED_{ent.label_}]"` (line 28) |
| Patterns.Token | app/pii_redactor.py:8-12 | Defines each rule's replacement string, paired with its pattern in `PATTERNS`; the constant `Rules` lists the rules in the order of `PATTERNS` (lines 7-13) |
| Patterns.Accepts | app/pii_redactor.py:8-12 | Defines the language of each regular expression anchored at a position: `\b` as a word/non-word change, `\d{10,16}`, `\d{3}-\d{2}-\d{4}`, `[A-Z]{6}[A-Z0-9]{2}` with the optional group of three, `[A-Z]{2}\d{2}[A-Z0-9]{1,30}`, and local@domain.tail with the three e-mail classes |
| Patterns.MatchAt | app/pii_redactor.py:8-12 | The end of the match `re` reports when it tries a rule at a position, dispatching to the five rules; a reported match is non-empty and ends inside the text |
| Patterns.AccountAt | app/pii_redactor.py:8 | Defines the account match: a `\b`, then the whole digit run when it has 10–16 digits and is followed by `\b` |
| Patterns.SsnAt | app/pii_redactor.py:9 | Defines the SSN match: `\b`, exactly 3 digits, '-', exactly 2 digits, '-', 4 digits, `\b` |
| Patterns.SwiftAt | app/pii_redactor.py:10 | Defines the SWIFT match: `\b`, six capitals, two capitals or digits, then 11 characters when three more and a `\b` follow, else 8 when a `\b` follows |
| Patterns.IbanAt | app/pii_redactor.py:11 | Defines the IBAN match: `\b`, two capitals, two digits, then the whole `[A-Z0-9]` run when it has 1–30 characters and is followed by `\b` |
| Patterns.EmailAt | app/pii_redactor.py:12 | Defines the e-mail match: the greedy local-part run, '@', the greedy domain run, '.', and the greedy tail run, each non-empty |
| PiiRedactor.Kept | app/pii_redactor.py:26 | Defines the label test: an entity is redacted exactly when its label is one of PERSON, GPE, ORG, LOC, MONEY |
| PiiRedactor.PatternText | app/pii_redactor.py:18-21 | Defines the text after the rules in order, each rule's `sub` applied to the previous rule's output |
| PiiRedactor.PatternCount | app/pii_redactor.py:16-20 | Defines the count of the pattern pass: the sum of `len(findall)` of each rule on the text that rule rewrites |
| PiiRedactor.EntityText | app/pii_redactor.py:25-28 | Defines the text after the entity pass: each kept entity's `str.replace` applied in order, other entities skipped |
| PiiRedactor.KeptCount | app/pii_redactor.py:26-27 | Defines the count of the entity pass: one per kept entity |
| PiiRedactor.Redact | app/pii_redactor.py:15-30 | Defines `redact_text`'s result: the entity pass applied to the pattern pass's text, with the two counts added, returned as a pair |
| Chars.RunLength | app/pii_redactor.py:8-12 | A greedy repetition of a character class takes the longest run: every character in the run is in the class, and the next one is not (or the text ends) |
| Chars.RunLengthCovers | app/pii_redactor.py:8-12 | Any run of class characters from a position is no longer than the greedy run |
| Chars.RunLengthExact | app/pii_redactor.py:8-12 | A run of class characters that stops at a non-class character is exactly the greedy run |
| PatternFacts.MatchAtIsLongestAccepted | app/pii_redactor.py:8-12 | For each of the five patterns: what the matcher reports at a position is a match of the regular expression, no match of the expression there is longer, and the matcher reports none when the expression cannot match there |
| PatternFacts.AccountLongest | app/pii_redactor.py:8 | `\b\d{10,16}\b` matches at i exactly the whole digit run, when it has 10–16 digits and word boundaries on both sides |
| PatternFacts.SsnLongest | app/pii_redactor.py:9 | `\b\d{3}-\d{2}-\d{4}\b` matches exactly the 3-2-4 hyphenated grouping between word boundaries |
| PatternFacts.SwiftLongest | app/pii_redactor.py:10 | The SWIFT pattern matches a whole word of 11 characters (tried first) or of 8, made of six capitals followed by capitals or digits |
| PatternFacts.IbanLongest | app/pii_redactor.py:11 | The IBAN pattern matches two capitals, two digits and a whole `[A-Z0-9]` run of 1–30 characters ending at a word boundary |
| PatternFacts.IbanAcceptedIsFound | app/pii_redactor.py:11 | Every IBAN match the expression admits at a position is the one the matcher reports |
| PatternFacts.EmailLongest | app/pii_redactor.py:12 | The e-mail match reported at a position is a match of the expression, and the expression admits no longer one there |
| PatternFacts.EmailSplitIsGreedy | app/pii_redactor.py:12 | Whenever some split local@domain.tail matches from i, the e-mail rule reports a match from i that reaches at least as far |
| PatternFacts.EmailSplitIsMatch | app/pii_redactor.py:12 | A split local@domain.tail whose tail cannot be extended is exactly the match the e-mail rule reports |
| PatternFacts.EmailRunsStop | app/pii_redactor.py:12 | In any e-mail match the '@' and the '.' sit exactly where the greedy local-part and domain runs stop |
| PatternFacts.AcceptedChars | app/pii_redactor.py:8-12 | Every character of a match of any pattern is a word character, '-', '.', '+' or '@' |
| PatternFacts.TokenShape | app/pii_redactor.py:8-12 | A redaction token starts with '[', ends with ']', and has only word characters between, with no digits and no '@' |
| PatternFacts.TokenNeverMatched | app/pii_redactor.py:8-12 | No match of any of the five rules overlaps a redaction token, wherever the token stands in the text |
| PatternFacts.SwiftIbanNeverOverlap | app/pii_redactor.py:10-11 | A SWIFT match and an IBAN match never overlap, so rule order never has to choose between them |
| PatternFacts.MatchNeedsStart | app/pii_redactor.py:8-12 | A match of a rule at i needs the pattern's fixed prefix at i (opening `\b`, the leading digits, capitals or hyphens, and for e-mail a later '@' and '.') |
| Scan.FindAll | app/pii_redactor.py:19 | `findall` reports matches in order, without overlap, inside the text, each the match of the rule at its start |
| Scan.FindAllIsLeftmost | app/pii_redactor.py:19 | `findall` misses no match: wherever the rule matches, a reported match starts there or covers that position |
| Scan.FindAllFound | app/pii_redactor.py:19 | When the rule matches at the scan position, that match is reported first and the scan resumes at its end |
| Scan.FindAllEmpty | app/pii_redactor.py:19 | `findall` reports nothing exactly when the rule matches at no position (both directions) |
| Scan.FindAllSkip | app/pii_redactor.py:19 | Positions where the rule does not match are skipped by the scan |
| Scan.FindAllSingle | app/pii_redactor.py:19 | When the rule matches at one position only (and nowhere after that match), `findall` reports exactly that one span |
| Scan.Sub | app/pii_redactor.py:21 | `sub` rewrites exactly the spans `findall` reports to the token and copies every other character, so the count and the rewrite agree |
| Scan.SubWithoutMatches | app/pii_redactor.py:21 | `sub` leaves a text in which `findall` finds nothing unchanged |
| Scan.SubSingle | app/pii_redactor.py:21 | With a single reported span, `sub` yields the text before it, the token, and the text after it |
| Scan.FindAllPair | app/pii_redactor.py:19 | When the rule matches at exactly two positions, the second at or after the end of the first, `findall` reports exactly those two spans |
| Scan.SubPair | app/pii_redactor.py:21 | With two reported spans, `sub` yields the text before, between and after them with the token in place of each |
| Scan.Replace | app/pii_redactor.py:28 | `str.replace` rewrites the leftmost non-overlapping occurrences of the needle and copies the rest |
| Scan.ReplaceAbsent | app/pii_redactor.py:28 | `str.replace` leaves a text without any occurrence of the needle unchanged |
| Scan.ReplaceRewritesOccurrences | app/pii_redactor.py:28 | Every span `str.replace` rewrites is an occurrence of the needle, and every occurrence is rewritten or overlaps a rewritten one |
| PiiRedactor.RedactText | app/pii_redactor.py:15-30 | The method's text and count equal the pattern pass followed by the entity pass on the recogniser's entities |
| PiiRedactor.RedactPatterns | app/pii_redactor.py:16-21 | The first loop: after the five rules in order, the text is each rule's `sub` applied to the previous output, and the count is the sum of each rule's `findall` on the text it rewrites |
| PiiRedactor.RedactEntities | app/pii_redactor.py:25-28 | The second loop: the text is every kept entity's `str.replace` applied in order, and the count grows by one per kept entity |
| PiiRedactor.PatternStep | app/pii_redactor.py:18-21 | Appending a rule applies its `sub` to the earlier rules' output and adds its `findall` count on that same text |
| PiiRedactor.EntityStep | app/pii_redactor.py:25-28 | A kept entity replaces every occurrence of its text and adds exactly one to the count; any other entity changes neither text nor count |
| RedactionFacts.PatternPassInOrder | app/pii_redactor.py:7-21 | The pattern pass is account, SSN, SWIFT, IBAN, e-mail, each rewriting the previous output, and the count is the sum of the five `findall` counts on those intermediate texts |
| RedactionFacts.KeptCountIsPerEntity | app/pii_redactor.py:25-28 | The entity pass adds exactly the number of kept entities, however many occurrences they replaced |
| RedactionFacts.AbsentEntityStillCounted | app/pii_redactor.py:26-28 | A kept entity whose text no longer occurs changes nothing but is still counted once |
| RedactionFacts.NoMatchesPatternPass | app/pii_redactor.py:18-21 | Rules that find nothing leave the text unchanged and count 0 |
| RedactionFacts.NoKeptEntities | app/pii_redactor.py:25-28 | Entities with labels outside the allow-list leave the text unchanged and count 0 |
| RedactionFacts.NothingToRedact | app/pii_redactor.py:16-30 | With no pattern match and no kept entity, `redact_text` returns its input and a count of 0 |
| RedactionFacts.NoPatternMatches | app/pii_redactor.py:16-30 | When no rule matches, the result is the entity pass applied to the input itself |
| RedactionFacts.JoinCovers | app/pii_redactor.py:8-12 | Every position of a text made of tokens lies inside one of them |
| RedactionFacts.TokenTextIsFixedPoint | app/pii_redactor.py:8-21 | A text made only of redaction tokens passes through the pattern pass unchanged, with nothing counted |
| RedactionFacts.TokenTextHasNoMatches | app/pii_redactor.py:8-12 | No rule matches anywhere in a text made only of tokens |
| RedactionFacts.TokenTextRedactsToItself | app/pii_redactor.py:15-30 | A text made only of redaction tokens, with no entities, comes back from `redact_text` unchanged with count 0 |
| RedactionFacts.NoStartNoMatch | app/pii_redactor.py:8-12 | Where a rule's fixed prefix is absent, the rule matches nowhere |
| RedactionFacts.NoMatchInToken | app/pii_redactor.py:8-12 | No rule matches at any position inside a token |
| RedactionExamples.TokenSpellings | app/pii_redactor.py:8-12 | The five rule tokens and the PERSON token are spelled `[REDACTED_ACCOUNT]`, `[REDACTED_SSN]`, `[REDACTED_SWIFT]`, `[REDACTED_IBAN]`, `[REDACTED_EMAIL]` and `[REDACTED_PERSON]` |
| RedactionExamples.AllDigitsAccount | app/pii_redactor.py:8 | In a text of digits only, the account rule matches at position 0, and only there, exactly when the text has 10–16 digits |
| RedactionExamples.DigitsMatchOnlyAccount | app/pii_redactor.py:8-12 | No rule other than the account rule matches a text of digits only |
| RedactionExamples.DigitsAccountScan | app/pii_redactor.py:8 | On a text of digits only, the account rule finds the whole text when it has 10–16 digits and nothing otherwise |
| RedactionExamples.DigitRunRedaction | app/pii_redactor.py:8 | `redact_text` turns a run of 10–16 digits into one account token counted once, and returns any other digit run unchanged with count 0 |
| RedactionExamples.SingleTokenPass | app/pii_redactor.py:18-21 | A text that one rule matches whole, and no other rule matches at all, comes back as that rule's token with count 1 |
| RedactionExamples.SubWhole | app/pii_redactor.py:21 | `sub` with one match covering the whole text yields the token |
| RedactionExamples.TokenAloneHasNoMatches | app/pii_redactor.py:8-12 | No rule matches a lone rule token |
| RedactionExamples.ThroughPass | app/pii_redactor.py:18-21 | A rule with no match leaves its input unchanged, both before and after the matching rule has run |
| RedactionExamples.CardNumberExample | app/pii_redactor.py:8 | `"4111111111111111"` becomes `"[REDACTED_ACCOUNT]"` with count 1 |
| RedactionExamples.ShortAndLongDigitRunsExample | app/pii_redactor.py:8 | Runs of 9 and 17 digits come back unchanged with count 0 |
| RedactionExamples.NoAtNoEmail | app/pii_redactor.py:12 | A text without '@' has no e-mail match |
| RedactionExamples.NoUpperNoSwiftIban | app/pii_redactor.py:10-11 | A text without capitals has no SWIFT and no IBAN match |
| RedactionExamples.NoDigitNoAccountSsn | app/pii_redactor.py:8-9 | A text without digits has no account and no SSN match |
| RedactionExamples.SsnMatch | app/pii_redactor.py:9 | The SSN rule at the start of `"123-45-6789"` matches all eleven characters |
| RedactionExamples.SsnScan | app/pii_redactor.py:9 | The SSN rule finds `"123-45-6789"` as one span |
| RedactionExamples.SsnTextNoAccount | app/pii_redactor.py:8 | The account rule finds nothing in `"123-45-6789"` |
| RedactionExamples.SsnTextOtherRules | app/pii_redactor.py:8-12 | No rule other than SSN matches `"123-45-6789"` |
| RedactionExamples.SsnExample | app/pii_redactor.py:9 | `"123-45-6789"` becomes `"[REDACTED_SSN]"` with count 1 |
| RedactionExamples.NotAnSsnExample | app/pii_redactor.py:9 | The SSN rule finds nothing in `"123-456-789"` |
| RedactionExamples.OnlyEmailPass | app/pii_redactor.py:18-21 | When only the e-mail rule matches, and only once, `redact_text` replaces that span and counts 1 |
| RedactionExamples.AddressLayout | app/pii_redactor.py:12 | In pre + local@domain.tail + post, the parts lie where the e-mail pattern needs them, and the address's '@' is the only one |
| RedactionExamples.AddressMatch | app/pii_redactor.py:12 | The e-mail rule tried at the start of such an address matches the whole address |
| RedactionExamples.AddressAlone | app/pii_redactor.py:12 | The e-mail rule matches nowhere before or after such an address |
| RedactionExamples.AddressInText | app/pii_redactor.py:12 | `findall` of the e-mail rule reports exactly the address |
| RedactionExamples.LowercaseOneEmail | app/pii_redactor.py:16-21 | In text with no digits and no capitals, a single e-mail match is the only redaction |
| RedactionExamples.EmailExample | app/pii_redactor.py:12 | `"contact me at a.b@example.com today"` becomes `"contact me at [REDACTED_EMAIL] today"` with count 1 |
| RedactionExamples.DomainNotFollowedByDotExample | app/pii_redactor.py:12 | In `"a@b_c.com"` the greedy domain run `b` is followed by '_', not '.', so there is no e-mail match |
| RedactionExamples.AccountBeforeEmailExample | app/pii_redactor.py:7-21 | Rule precedence: `"1234567890@bank.com"` becomes `"[REDACTED_ACCOUNT]@bank.com"` with count 1; the account rule takes the digits, so the e-mail rule has no local part left |
| RedactionExamples.PrecedenceAccountScan | app/pii_redactor.py:8 | The account rule finds exactly the ten digits in `"1234567890@bank.com"` |
| RedactionExamples.PrecedenceAccountAt | app/pii_redactor.py:8 | The account rule at position 0 of `"1234567890@bank.com"` stops at the '@' |
| RedactionExamples.PrecedenceAccountElsewhere | app/pii_redactor.py:8 | The account rule cannot start anywhere else in `"1234567890@bank.com"` |
| RedactionExamples.PrecedenceAfterAccount | app/pii_redactor.py:21 | After the account rule's `sub`, the text is `"[REDACTED_ACCOUNT]@bank.com"` |
| RedactionExamples.PrecedenceNoOtherRule | app/pii_redactor.py:9-12 | No later rule matches `"[REDACTED_ACCOUNT]@bank.com"` |
| RedactionExamples.OnlyAccountPass | app/pii_redactor.py:18-21 | When the account rule matches once and no later rule matches its output, that output with count 1 is the pattern pass's result |
| RedactionExamples.EntityExample | app/pii_redactor.py:16-30 | `"Smith met John Smith today"` with the recogniser's disjoint entities PERSON "Smith", PERSON "John Smith" and DATE "today" becomes `"[REDACTED_PERSON] met John [REDACTED_PERSON] today"` with count 2: replacing "Smith" everywhere also removes the second entity's text, which is still counted, and the DATE entity is ignored |
| RedactionExamples.MeetingEntityPass | app/pii_redactor.py:25-28 | The entity pass on those three entities gives that text and counts 2 |
| RedactionExamples.MeetingAfterFullName | app/pii_redactor.py:26-28 | The second PERSON entity, whose text no longer occurs, changes nothing but raises the count to 2 |
| RedactionExamples.MeetingAfterSurname | app/pii_redactor.py:26-28 | The first PERSON entity replaces both occurrences of "Smith" and counts 1 |
| RedactionExamples.DateNotAllowed | app/pii_redactor.py:26 | DATE is not on the allow-list |
| RedactionExamples.MeetingHasNoPatterns | app/pii_redactor.py:8-12 | No rule matches `"Smith met John Smith today"` |
| RedactionExamples.SurnameOccurrences | app/pii_redactor.py:28 | `str.replace` finds "Smith" in that sentence exactly at 0–5 and 15–20 |
| RedactionExamples.SurnameReplaced | app/pii_redactor.py:28 | `"Smith met John Smith today".replace("Smith", "[REDACTED_PERSON]")` is `"[REDACTED_PERSON] met John [REDACTED_PERSON] today"` |
| RedactionExamples.FullNameGone | app/pii_redactor.py:28 | "John Smith" does not occur in the text after that replacement |

## Left out

- Loading and running the spaCy model (app/pii_redactor.py:4, 24) is left out. It is a foreign, probabilistic model. Its output, `doc.ents` for the pattern-redacted text, is the parameter `ents` of `PiiRedactor.RedactText`, as a sequence of (label, text) pairs. The recogniser reports disjoint spans in document order; the model does not need that, and its general lemmas hold for any sequence of entities.
- PiiRedactor.RedactText: requires every kept entity's text to be non-empty (`Replaceable`), as recogniser spans are. Python's `"".replace` would insert the token between every pair of characters; that case is not modelled.
- Python's `re` treats `\d` and `\w` as Unicode classes. The model restricts digits and word characters to ASCII: letters, digits and the underscore.
- The e-mail tail class `[a-zA-Z0-9-.]` is read as Python reads it: letters, digits, then the literal '-' and '.'.
- The module-level `nlp` object and the `spacy`/`re` imports are not modelled: compiling the patterns is their denotation in `Patterns`.
- ingest/loader.py, app/rag_chain.py and ingest/scrape_bank_docs.py are not part of this model. They are file, network and language-model I/O.
- The documentation's end-to-end example (`"John Smith's SSN is 123-45-6789, email john@bank.com"`) and its "Jane Doe occurring twice" example are not restated as concrete lemmas. Their content is covered by the general lemmas:
  - the pattern pass order: `PatternPassInOrder`;
  - the per-entity count: `EntityStep` and `KeptCountIsPerEntity`;
  - replacing every occurrence: `ReplaceRewritesOccurrences`.
