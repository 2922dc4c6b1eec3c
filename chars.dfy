/** A value that may be absent: what a regular-expression attempt at one position yields. */
module Options {
  datatype Option<T> = None | Some(value: T)
}

/**
 * The character classes that the five redaction patterns use, and the
 * zero-width assertion `\b` of Python's `re` module. Digits (`\d`) and word
 * characters (`\w`) are restricted to ASCII.
 */
module Chars {

  predicate IsDigit(c: char) { '0' <= c <= '9' }
  predicate IsUpper(c: char) { 'A' <= c <= 'Z' }
  predicate IsLower(c: char) { 'a' <= c <= 'z' }

  /** `\w`: letters, digits and the underscore */
  predicate IsWord(c: char) { IsDigit(c) || IsUpper(c) || IsLower(c) || c == '_' }

  /** The bracketed classes and escapes that occur in the patterns */
  datatype Class =
    | Digit        // \d
    | Upper        // [A-Z]
    | UpperDigit   // [A-Z0-9]
    | LocalPart    // [a-zA-Z0-9_.+-]
    | DomainPart   // [a-zA-Z0-9-]
    | TailPart     // [a-zA-Z0-9-.]  (a range, then a literal '-' and '.')

  predicate In(c: char, cls: Class) {
    match cls
    case Digit => IsDigit(c)
    case Upper => IsUpper(c)
    case UpperDigit => IsUpper(c) || IsDigit(c)
    case LocalPart => IsUpper(c) || IsLower(c) || IsDigit(c) || c == '_' || c == '.' || c == '+' || c == '-'
    case DomainPart => IsUpper(c) || IsLower(c) || IsDigit(c) || c == '-'
    case TailPart => IsUpper(c) || IsLower(c) || IsDigit(c) || c == '-' || c == '.'
  }

  /** Every character of t[i..j] belongs to cls */
  predicate AllIn(t: string, i: int, j: int, cls: Class)
    requires 0 <= i <= j <= |t|
  {
    forall k :: i <= k < j ==> In(t[k], cls)
  }

  /** t[i] exists and is a word character */
  predicate WordAt(t: string, i: int) { 0 <= i < |t| && IsWord(t[i]) }

  /** `\b` at position i: exactly one of t[i-1] and t[i] is a word character (the text's edges count as non-word) */
  predicate Boundary(t: string, i: int) { WordAt(t, i - 1) != WordAt(t, i) }

  /** The length of the longest run of cls characters starting at position i */
  function RunLength(t: string, i: nat, cls: Class): (n: nat)
    requires i <= |t|
    ensures i + n <= |t|
    ensures AllIn(t, i, i + n, cls)
    ensures i + n == |t| || !In(t[i + n], cls)
    decreases |t| - i
  {
    if i == |t| || !In(t[i], cls) then 0 else 1 + RunLength(t, i + 1, cls)
  }

  /** A run of cls characters from i to j is no longer than the maximal run from i */
  lemma {:induction false} RunLengthCovers(t: string, i: nat, j: nat, cls: Class)
    requires i <= j <= |t| && AllIn(t, i, j, cls)
    ensures RunLength(t, i, cls) >= j - i
    decreases j - i
  {
    if i < j {
      RunLengthCovers(t, i + 1, j, cls);
    }
  }

  /** A run of cls characters that stops at a character outside cls is the maximal run */
  lemma RunLengthExact(t: string, i: nat, j: nat, cls: Class)
    requires i <= j <= |t| && AllIn(t, i, j, cls)
    requires j == |t| || !In(t[j], cls)
    ensures RunLength(t, i, cls) == j - i
  {
    RunLengthCovers(t, i, j, cls);
  }
}
