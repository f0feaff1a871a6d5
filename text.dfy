// Character classes and scanning primitives shared by the label patterns of
// src/utils/parsePaystub.ts. The classes follow JavaScript's regular
// expressions without the `u` flag.
module Text {

  /** JavaScript's `\s`: the WhiteSpace and LineTerminator code points. */
  predicate IsSpace(c: char) {
    c == ' ' || c == '\t' || c == '\n' || c == '\r' || c == '\U{000B}' || c == '\U{000C}'
    || c == '\U{00A0}' || c == '\U{1680}' || ('\U{2000}' <= c <= '\U{200A}')
    || c == '\U{2028}' || c == '\U{2029}' || c == '\U{202F}' || c == '\U{205F}'
    || c == '\U{3000}' || c == '\U{FEFF}'
  }

  /** JavaScript's `\d`. */
  predicate IsDigit(c: char) { '0' <= c <= '9' }

  /** The class `[A-Za-z]`. */
  predicate IsLetter(c: char) { 'A' <= c <= 'Z' || 'a' <= c <= 'z' }

  /** The class `[\d,]`. */
  predicate IsDigitOrComma(c: char) { IsDigit(c) || c == ',' }

  /** The class `[^\n]`. */
  predicate NotNewline(c: char) { c != '\n' }

  /** Case folding under the `i` flag without `u`: a character is folded to
      upper case, except that nothing outside ASCII folds onto ASCII, so only
      the ASCII letters are affected for the labels matched here. */
  function Upper(c: char): char {
    if 'a' <= c <= 'z' then (c as int - 32) as char else c
  }

  /** Characters with the same folding are equal or are two cases of one
      ASCII letter, so none of the classes above can tell them apart. */
  lemma SameFolding(c: char, d: char)
    requires Upper(c) == Upper(d)
    ensures c == d || (IsLetter(c) && IsLetter(d))
    ensures IsSpace(c) == IsSpace(d) && IsDigit(c) == IsDigit(d)
    ensures IsDigitOrComma(c) == IsDigitOrComma(d) && NotNewline(c) == NotNewline(d)
    ensures (c == '-') == (d == '-') && (c == '.') == (d == '.') && (c == ',') == (d == ',')
  {
  }

  /** The character classes that the expressions repeat with `+` or `*`. */
  datatype CharClass = Spaces | Letters | Digits | DigitsOrCommas | LineChars

  predicate InClass(c: char, cls: CharClass) {
    match cls
    case Spaces => IsSpace(c)
    case Letters => IsLetter(c)
    case Digits => IsDigit(c)
    case DigitsOrCommas => IsDigitOrComma(c)
    case LineChars => NotNewline(c)
  }

  /** Every character in `[i, j)` is of class `cls`. */
  predicate Run(s: string, i: nat, j: nat, cls: CharClass) {
    i <= j <= |s| && forall k {:trigger InClass(s[k], cls)} | i <= k < j :: InClass(s[k], cls)
  }

  /** The end of the longest run of characters of class `cls` that starts at
      `i`: how far a greedy `+` or `*` over the class first advances. */
  function RunEnd(s: string, i: nat, cls: CharClass): (j: nat)
    requires i <= |s|
    ensures i <= j <= |s|
    decreases |s| - i
  {
    if i < |s| && InClass(s[i], cls) then RunEnd(s, i + 1, cls) else i
  }

  /** `RunEnd` ends a run of the class at a character outside it or at the
      end of the text. */
  lemma {:induction false} RunEndSpec(s: string, i: nat, cls: CharClass)
    requires i <= |s|
    ensures Run(s, i, RunEnd(s, i, cls), cls)
    ensures RunEnd(s, i, cls) == |s| || !InClass(s[RunEnd(s, i, cls)], cls)
    decreases |s| - i
  {
    if i < |s| && InClass(s[i], cls) {
      RunEndSpec(s, i + 1, cls);
    }
  }

  /** A run that stops at a character outside the class is the longest one. */
  lemma {:induction false} RunEndIs(s: string, i: nat, j: nat, cls: CharClass)
    requires Run(s, i, j, cls)
    requires j == |s| || !InClass(s[j], cls)
    ensures RunEnd(s, i, cls) == j
    decreases j - i
  {
    if i < j {
      RunEndIs(s, i + 1, j, cls);
    }
  }

  /** Two texts that differ only in the case of ASCII letters. */
  ghost predicate CaseVariant(s: string, t: string) {
    |s| == |t| && forall i {:trigger Upper(s[i])} {:trigger Upper(t[i])} | 0 <= i < |s| :: Upper(s[i]) == Upper(t[i])
  }

  /** `title` (written in upper case) occurs at `p`, ignoring case. */
  predicate LabelAt(s: string, p: nat, title: string) {
    p + |title| <= |s| && forall i | 0 <= i < |title| :: Upper(s[p + i]) == title[i]
  }

  /** Where a run ends depends only on which characters are in the class. */
  lemma {:induction false} RunEndAgrees(s: string, t: string, i: nat, cls: CharClass)
    requires i <= |s| == |t|
    requires forall k {:trigger InClass(s[k], cls)} | i <= k < |s| :: InClass(s[k], cls) == InClass(t[k], cls)
    ensures RunEnd(s, i, cls) == RunEnd(t, i, cls)
    decreases |s| - i
  {
    if i < |s| && InClass(s[i], cls) {
      RunEndAgrees(s, t, i + 1, cls);
    }
  }

  /** Case-insensitive title matching: a title is found at the same places in
      every case variant of a text. */
  lemma LabelAtCaseVariant(s: string, t: string, p: nat, title: string)
    requires CaseVariant(s, t)
    ensures LabelAt(s, p, title) == LabelAt(t, p, title)
  {
  }
}
