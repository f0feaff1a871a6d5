// The regular expressions of src/utils/parsePaystub.ts:55, 59 and 64-68 and
// what `text.match(regex)` returns for them (no `g` flag: the first match).
//
// Each expression is a case-insensitive title followed by one of three tails.
// For every tail there are two descriptions: a ghost predicate listing the
// ways the expression can match (its split points), and a function that
// scans the text as the backtracking matcher does. The lemmas prove that the
// function returns exactly the match JavaScript picks: the leftmost title,
// and for the greedy `[^\n]*` the longest stretch of the line.
module Patterns {
  import opened Outcomes
  import opened Text
  import opened Amounts
  import opened Search

  /** What follows the title in each expression. */
  datatype Tail =
    | AmountNext         // `\s+-?([\d,]+\.\d{2})`
    | AmountLaterOnLine  // `[^\n]*\s+-?([\d,]+\.\d{2})`
    | DateNext           // `\s+([A-Za-z]+\s+\d{1,2},\s+\d{4})`

  /** A regular expression: a title, written in upper case and matched
      ignoring case, then a tail. */
  datatype Pattern = Pattern(title: string, tail: Tail)

  /** A successful `match`: where it starts and the text of group 1. */
  datatype Found = Found(pos: nat, capture: string)

  // ---------------------------------------------------------------------
  // `\s+-?([\d,]+\.\d{2})` starting at `e`

  /** One way of matching the amount tail at `e`: spaces in `[e, k)`, an
      optional minus sign in `[k, m)`, digits and commas in `[m, j)`, then a
      point and two digits. The captured group is `s[m..j + 3]`. */
  ghost predicate AmountSplit(s: string, e: nat, k: nat, m: nat, j: nat) {
    e < k <= m <= k + 1 && m < j && j + 3 <= |s|
    && Run(s, e, k, Spaces)
    && (m == k + 1 ==> s[k] == '-')
    && Run(s, m, j, DigitsOrCommas)
    && s[j] == '.' && IsDigit(s[j + 1]) && IsDigit(s[j + 2])
  }

  /** The amount tail as the matcher runs it: every greedy run is taken whole,
      since the token after it cannot begin with a character of the run. */
  function AmountAt(s: string, e: nat): (r: Option<string>)
    requires e <= |s|
    ensures r.Some? ==> e < |s| && InClass(s[e], Spaces)
  {
    var k := RunEnd(s, e, Spaces);
    var m := if k < |s| && s[k] == '-' then k + 1 else k;
    var j := RunEnd(s, m, DigitsOrCommas);
    if e < k && m < j && j + 3 <= |s| && s[j] == '.' && IsDigit(s[j + 1]) && IsDigit(s[j + 2]) then
      Some(s[m..j + 3])
    else
      None
  }

  /** Whenever the amount tail can match at `e`, `AmountAt` finds it, and
      with the same capture: the tail has at most one match. */
  lemma AmountAtComplete(s: string, e: nat, k: nat, m: nat, j: nat)
    requires AmountSplit(s, e, k, m, j)
    ensures AmountAt(s, e) == Some(s[m..j + 3])
  {
    if m == k + 1 {
      assert s[k] == '-';
    } else {
      assert InClass(s[k], DigitsOrCommas);
    }
    assert !InClass(s[k], Spaces);
    RunEndIs(s, e, k, Spaces);
    assert !InClass(s[j], DigitsOrCommas);
    RunEndIs(s, m, j, DigitsOrCommas);
  }

  // ---------------------------------------------------------------------
  // `\s+([A-Za-z]+\s+\d{1,2},\s+\d{4})` starting at `e`

  /** One way of matching the date tail at `e`: spaces in `[e, a)`, the month
      in `[a, b)`, spaces in `[b, c)`, one or two day digits in `[c, d)`, a
      comma at `d`, spaces in `(d, f)` and four year digits from `f`. The
      captured group is `s[a..f + 4]`. */
  ghost predicate DateSplit(s: string, e: nat, a: nat, b: nat, c: nat, d: nat, f: nat) {
    e < a < b < c < d <= c + 2 && d + 1 < f && f + 4 <= |s|
    && Run(s, e, a, Spaces) && Run(s, a, b, Letters) && Run(s, b, c, Spaces)
    && Run(s, c, d, Digits) && s[d] == ',' && Run(s, d + 1, f, Spaces)
    && IsDigit(s[f]) && IsDigit(s[f + 1]) && IsDigit(s[f + 2]) && IsDigit(s[f + 3])
  }

  /** The date tail as the matcher runs it. */
  function DateAt(s: string, e: nat): (r: Option<string>)
    requires e <= |s|
    ensures r.Some? ==> 9 <= |r.value| && IsDigit(r.value[|r.value| - 1])
  {
    var a := RunEnd(s, e, Spaces);
    var b := RunEnd(s, a, Letters);
    var c := RunEnd(s, b, Spaces);
    var d := RunEnd(s, c, Digits);
    if e < a < b < c < d <= c + 2 && d < |s| && s[d] == ',' then
      var f := RunEnd(s, d + 1, Spaces);
      if d + 1 < f && f + 4 <= |s| && IsDigit(s[f]) && IsDigit(s[f + 1]) && IsDigit(s[f + 2]) && IsDigit(s[f + 3]) then
        Some(s[a..f + 4])
      else
        None
    else
      None
  }

  /** Whenever the date tail can match at `e`, `DateAt` finds it, with the
      same capture. */
  lemma DateAtComplete(s: string, e: nat, a: nat, b: nat, c: nat, d: nat, f: nat)
    requires DateSplit(s, e, a, b, c, d, f)
    ensures DateAt(s, e) == Some(s[a..f + 4])
  {
    DateRuns(s, e, a, b, c, d, f);
  }

  /** Each greedy run of a date split stops where the split says. */
  lemma DateRuns(s: string, e: nat, a: nat, b: nat, c: nat, d: nat, f: nat)
    requires DateSplit(s, e, a, b, c, d, f)
    ensures RunEnd(s, e, Spaces) == a && RunEnd(s, a, Letters) == b && RunEnd(s, b, Spaces) == c
    ensures RunEnd(s, c, Digits) == d && RunEnd(s, d + 1, Spaces) == f
  {
    assert InClass(s[a], Letters) && !InClass(s[a], Spaces);
    RunEndIs(s, e, a, Spaces);
    assert InClass(s[b], Spaces) && !InClass(s[b], Letters);
    RunEndIs(s, a, b, Letters);
    assert InClass(s[c], Digits) && !InClass(s[c], Spaces);
    RunEndIs(s, b, c, Spaces);
    assert !InClass(s[d], Digits);
    RunEndIs(s, c, d, Digits);
    assert !InClass(s[f], Spaces);
    RunEndIs(s, d + 1, f, Spaces);
  }

  // ---------------------------------------------------------------------
  // `[^\n]*\s+-?([\d,]+\.\d{2})` starting at `e`

  /** One way of matching the same-line amount tail at `e`: `[^\n]*` covers
      `[e, q)` and the amount tail matches at `q`. */
  ghost predicate LineAmountSplit(s: string, e: nat, q: nat, k: nat, m: nat, j: nat) {
    Run(s, e, q, LineChars) && AmountSplit(s, q, k, m, j)
  }

  /** The outcome of the amount tail tried at every position of `s`. */
  function AmountAttempts(s: string): (r: seq<Option<string>>)
    ensures |r| == |s| + 1
  {
    seq(|s| + 1, q requires 0 <= q <= |s| => AmountAt(s, q))
  }

  /** The same-line amount tail as the matcher runs it: the greedy `[^\n]*`
      first takes the whole rest of the line and gives back one character at
      a time until the amount tail matches. */
  function LineAmountAt(s: string, e: nat): (r: Option<string>)
    requires e <= |s|
    ensures AmountAt(s, e).Some? ==> r.Some?
  {
    var xs := AmountAttempts(s);
    var hi := RunEnd(s, e, LineChars);
    match LastSome(xs, e, hi)
    case Some(q) =>
      LastSomeSpec(xs, e, hi);
      assert xs[q] == AmountAt(s, q);
      AmountAt(s, q)
    case None =>
      LastSomeSpec(xs, e, hi);
      assert xs[e] == AmountAt(s, e);
      None
  }

  /** The split points of a match that `AmountAt` found. */
  lemma AmountAtSplit(s: string, e: nat) returns (k: nat, m: nat, j: nat)
    requires e <= |s| && AmountAt(s, e).Some?
    ensures AmountSplit(s, e, k, m, j) && AmountAt(s, e).value == s[m..j + 3]
  {
    k := RunEnd(s, e, Spaces);
    m := if k < |s| && s[k] == '-' then k + 1 else k;
    j := RunEnd(s, m, DigitsOrCommas);
    RunEndSpec(s, e, Spaces);
    RunEndSpec(s, m, DigitsOrCommas);
  }

  /** The group an amount split captures is the text of an amount. */
  lemma SplitAmountText(s: string, e: nat, k: nat, m: nat, j: nat)
    requires AmountSplit(s, e, k, m, j)
    ensures IsAmountText(s[m..j + 3])
  {
    var c := s[m..j + 3];
    forall i | 0 <= i < |c| - 3 ensures IsDigitOrComma(c[i]) {
      assert c[i] == s[m + i] && InClass(s[m + i], DigitsOrCommas);
    }
  }

  /** The split points of a match that `DateAt` found. */
  lemma DateAtSplit(s: string, e: nat) returns (a: nat, b: nat, c: nat, d: nat, f: nat)
    requires e <= |s| && DateAt(s, e).Some?
    ensures DateSplit(s, e, a, b, c, d, f) && DateAt(s, e).value == s[a..f + 4]
  {
    a := RunEnd(s, e, Spaces);
    b := RunEnd(s, a, Letters);
    c := RunEnd(s, b, Spaces);
    d := RunEnd(s, c, Digits);
    f := RunEnd(s, d + 1, Spaces);
    RunEndSpec(s, e, Spaces);
    RunEndSpec(s, a, Letters);
    RunEndSpec(s, b, Spaces);
    RunEndSpec(s, c, Digits);
    RunEndSpec(s, d + 1, Spaces);
  }

  /** A split can only put `q` up to the end of the line that `e` is on. */
  lemma LineSplitWithinLine(s: string, e: nat, q: nat, k: nat, m: nat, j: nat)
    requires LineAmountSplit(s, e, q, k, m, j)
    ensures q <= RunEnd(s, e, LineChars)
  {
    RunEndSpec(s, e, LineChars);
  }

  // ---------------------------------------------------------------------
  // Tails and titles

  /** The tail that follows a title, run from `e`. */
  function TailAt(s: string, e: nat, t: Tail): (r: Option<string>)
    requires e <= |s|
  {
    match t
    case AmountNext => AmountAt(s, e)
    case AmountLaterOnLine => LineAmountAt(s, e)
    case DateNext => DateAt(s, e)
  }

  /** The tail `t` can match at `e` capturing `c`, by some choice of the
      backtracking matcher. */
  ghost predicate TailMatch(s: string, e: nat, t: Tail, c: string) {
    match t
    case AmountNext =>
      exists k: nat, m: nat, j: nat :: AmountSplit(s, e, k, m, j) && c == s[m..j + 3]
    case AmountLaterOnLine =>
      exists q: nat, k: nat, m: nat, j: nat :: LineAmountSplit(s, e, q, k, m, j) && c == s[m..j + 3]
    case DateNext =>
      exists a: nat, b: nat, cc: nat, d: nat, f: nat :: DateSplit(s, e, a, b, cc, d, f) && c == s[a..f + 4]
  }

  /** The match of tail `t` at `e` that backtracking tries first: for the
      same-line tail, the one whose `[^\n]*` is longest. The other tails
      match in at most one way. */
  ghost predicate PreferredTail(s: string, e: nat, t: Tail, c: string) {
    match t
    case AmountLaterOnLine =>
      exists q: nat, k: nat, m: nat, j: nat ::
        LineAmountSplit(s, e, q, k, m, j) && c == s[m..j + 3] && LongestLine(s, e, q)
    case _ => TailMatch(s, e, t, c)
  }

  /** No match of the same-line tail at `e` lets `[^\n]*` run past `q`. */
  ghost predicate LongestLine(s: string, e: nat, q: nat) {
    forall q': nat, k': nat, m': nat, j': nat :: LineAmountSplit(s, e, q', k', m', j') ==> q' <= q
  }

  /** The same-line tail finds a match whenever one exists. */
  lemma LineAmountComplete(s: string, e: nat, c: string)
    requires e <= |s|
    requires TailMatch(s, e, AmountLaterOnLine, c)
    ensures LineAmountAt(s, e).Some?
  {
    var q: nat, k: nat, m: nat, j: nat :| LineAmountSplit(s, e, q, k, m, j) && c == s[m..j + 3];
    LineSplitWithinLine(s, e, q, k, m, j);
    AmountAtComplete(s, q, k, m, j);
    var xs := AmountAttempts(s);
    assert xs[q] == AmountAt(s, q);
    LastSomeSpec(xs, e, RunEnd(s, e, LineChars));
  }

  /** The position where the same-line tail lets `[^\n]*` stop: a split
      reaches it, and no split reaches further. */
  lemma LineAmountLongest(s: string, e: nat) returns (q: nat, k: nat, m: nat, j: nat)
    requires e <= |s|
    requires LineAmountAt(s, e).Some?
    ensures LineAmountSplit(s, e, q, k, m, j) && LineAmountAt(s, e) == Some(s[m..j + 3])
    ensures LongestLine(s, e, q)
  {
    var hi := RunEnd(s, e, LineChars);
    var xs := AmountAttempts(s);
    RunEndSpec(s, e, LineChars);
    LastSomeSpec(xs, e, hi);
    q := LastSome(xs, e, hi).value;
    assert xs[q] == AmountAt(s, q);
    k, m, j := AmountAtSplit(s, q);
    forall q': nat, k': nat, m': nat, j': nat | LineAmountSplit(s, e, q', k', m', j') ensures q' <= q {
      LineSplitWithinLine(s, e, q', k', m', j');
      AmountAtComplete(s, q', k', m', j');
      assert xs[q'] == AmountAt(s, q');
    }
  }

  /** What the same-line tail returns is the match with the longest `[^\n]*`. */
  lemma LineAmountPreferred(s: string, e: nat)
    requires e <= |s|
    requires LineAmountAt(s, e).Some?
    ensures PreferredTail(s, e, AmountLaterOnLine, LineAmountAt(s, e).value)
  {
    var q, k, m, j := LineAmountLongest(s, e);
  }

  /** `[^\n]*` stops at the line break that ends the title's line, but `\s+`
      may then cross that break: whenever the amount tail matches from the
      break, its amount is the one captured, whatever amounts the title's own
      line holds. */
  lemma LineAmountAtBreak(s: string, e: nat, n: nat)
    requires e <= n < |s| && Run(s, e, n, LineChars) && s[n] == '\n'
    requires AmountAt(s, n).Some?
    ensures LineAmountAt(s, e) == AmountAt(s, n)
  {
    assert !InClass(s[n], LineChars);
    RunEndIs(s, e, n, LineChars);
    var xs := AmountAttempts(s);
    assert xs[n] == AmountAt(s, n);
  }

  /** After "HSA EMPLOYER 10.00" a next line "30.00" is the amount captured,
      not the "10.00" on the title's line. */
  lemma LineAmountNextLine()
    ensures LineAmountAt("HSA EMPLOYER 10.00\n30.00", 12) == Some("30.00")
  {
    var s := "HSA EMPLOYER 10.00\n30.00";
    assert Run(s, 12, 18, LineChars) by {
      forall k | 12 <= k < 18 ensures InClass(s[k], LineChars) {
        assert s[k] != '\n';
      }
    }
    assert InClass(s[18], Spaces) && InClass(s[19], DigitsOrCommas) && InClass(s[20], DigitsOrCommas);
    assert AmountSplit(s, 18, 19, 19, 21);
    AmountAtComplete(s, 18, 19, 19, 21);
    assert s[19..24] == "30.00";
    LineAmountAtBreak(s, 12, 18);
  }

  /** The match with the longest `[^\n]*` is unique, and it is the one the
      same-line tail returns. */
  lemma PreferredLineAmountUnique(s: string, e: nat, c: string)
    requires e <= |s|
    requires PreferredTail(s, e, AmountLaterOnLine, c)
    ensures LineAmountAt(s, e) == Some(c)
  {
    var q: nat, k: nat, m: nat, j: nat :| LineAmountSplit(s, e, q, k, m, j) && c == s[m..j + 3] && LongestLine(s, e, q);
    PreferredIsMatch(s, e, AmountLaterOnLine, c);
    LineAmountComplete(s, e, c);
    var qL, kL, mL, jL := LineAmountLongest(s, e);
    assert qL == q;
    AmountAtComplete(s, q, k, m, j);
    AmountAtComplete(s, qL, kL, mL, jL);
  }

  /** What `TailAt` returns is the preferred match. */
  lemma TailAtSound(s: string, e: nat, t: Tail)
    requires e <= |s| && TailAt(s, e, t).Some?
    ensures PreferredTail(s, e, t, TailAt(s, e, t).value)
  {
    match t
    case AmountNext =>
      var k, m, j := AmountAtSplit(s, e);
    case DateNext =>
      var a, b, c, d, f := DateAtSplit(s, e);
    case AmountLaterOnLine =>
      LineAmountPreferred(s, e);
  }

  /** The preferred match is the only one `TailAt` can return. */
  lemma TailAtUnique(s: string, e: nat, t: Tail, c: string)
    requires e <= |s| && PreferredTail(s, e, t, c)
    ensures TailAt(s, e, t) == Some(c)
  {
    match t
    case AmountNext =>
      var k: nat, m: nat, j: nat :| AmountSplit(s, e, k, m, j) && c == s[m..j + 3];
      AmountAtComplete(s, e, k, m, j);
    case DateNext =>
      var a: nat, b: nat, cc: nat, d: nat, f: nat :| DateSplit(s, e, a, b, cc, d, f) && c == s[a..f + 4];
      DateAtComplete(s, e, a, b, cc, d, f);
    case AmountLaterOnLine =>
      PreferredLineAmountUnique(s, e, c);
  }

  /** `TailAt` fails only where the tail cannot match at all. */
  lemma TailAtComplete(s: string, e: nat, t: Tail, c: string)
    requires e <= |s| && TailMatch(s, e, t, c)
    ensures TailAt(s, e, t).Some?
  {
    match t
    case AmountLaterOnLine =>
      LineAmountComplete(s, e, c);
    case _ =>
      TailAtUnique(s, e, t, c);
  }

  /** A preferred match is a match. */
  lemma PreferredIsMatch(s: string, e: nat, t: Tail, c: string)
    requires PreferredTail(s, e, t, c)
    ensures TailMatch(s, e, t, c)
  {
  }

  // ---------------------------------------------------------------------
  // Whole expressions

  /** The expression tried at position `p` alone. */
  function MatchAt(s: string, p: nat, pat: Pattern): (r: Option<string>)
    requires p <= |s|
    ensures r.Some? ==> LabelAt(s, p, pat.title)
  {
    if LabelAt(s, p, pat.title) then TailAt(s, p + |pat.title|, pat.tail) else None
  }

  /** The expression can match from `p` capturing `c`, by some choice of the
      backtracking matcher. */
  ghost predicate RegexMatchAt(s: string, pat: Pattern, p: nat, c: string) {
    LabelAt(s, p, pat.title) && TailMatch(s, p + |pat.title|, pat.tail, c)
  }

  /** The match that `s.match(regex)` returns: the expression matches from no
      position before `p`, and from `p` this is the match backtracking tries
      first. */
  ghost predicate ChosenMatch(s: string, pat: Pattern, p: nat, c: string)
    ensures ChosenMatch(s, pat, p, c) ==> RegexMatchAt(s, pat, p, c)
  {
    LabelAt(s, p, pat.title) && PreferredTail(s, p + |pat.title|, pat.tail, c)
    && forall p': nat, c': string | p' < p :: !RegexMatchAt(s, pat, p', c')
  }

  /** The outcome of the expression tried from every start position, as the
      matcher advances its start position. */
  function Attempts(s: string, pat: Pattern): (r: seq<Option<string>>)
    ensures |r| == |s| + 1
  {
    seq(|s| + 1, p requires 0 <= p <= |s| => MatchAt(s, p, pat))
  }

  /** `s.match(regex)`: `None` for null, otherwise the position of the match
      and the text of its group 1. */
  function FirstMatch(s: string, pat: Pattern): (r: Option<Found>)
    ensures r.Some? ==> r.value.pos <= |s| && LabelAt(s, r.value.pos, pat.title)
  {
    var xs := Attempts(s, pat);
    match FirstSome(xs, 0)
    case None => None
    case Some(p) =>
      FirstSomeSpec(xs, 0);
      Some(Found(p, xs[p].value))
  }

  /** What `FirstMatch` returns is what `MatchAt` gives at that position. */
  lemma FirstMatchFound(s: string, pat: Pattern)
    requires FirstMatch(s, pat).Some?
    ensures var f := FirstMatch(s, pat).value;
      f.pos <= |s| && MatchAt(s, f.pos, pat) == Some(f.capture)
  {
    var xs := Attempts(s, pat);
    var q := FirstSome(xs, 0).value;
    FirstSomeSpec(xs, 0);
    assert xs[q] == MatchAt(s, q, pat);
  }

  /** `MatchAt` fails at every position before the one `FirstMatch` returns. */
  lemma FirstMatchEarlier(s: string, pat: Pattern, p: nat)
    requires FirstMatch(s, pat).Some? && p < FirstMatch(s, pat).value.pos
    ensures MatchAt(s, p, pat).None?
  {
    var xs := Attempts(s, pat);
    FirstSomeSpec(xs, 0);
    assert xs[p] == MatchAt(s, p, pat);
  }

  /** `FirstMatch` returns `None` only when `MatchAt` fails everywhere. */
  lemma FirstMatchNothing(s: string, pat: Pattern, p: nat)
    requires FirstMatch(s, pat).None? && p <= |s|
    ensures MatchAt(s, p, pat).None?
  {
    var xs := Attempts(s, pat);
    FirstSomeSpec(xs, 0);
    assert xs[p] == MatchAt(s, p, pat);
  }

  /** Where the expression can match, `MatchAt` succeeds. */
  lemma MatchAtComplete(s: string, pat: Pattern, p: nat, c: string)
    requires RegexMatchAt(s, pat, p, c)
    ensures p <= |s| && MatchAt(s, p, pat).Some?
  {
    var e := p + |pat.title|;
    assert LabelAt(s, p, pat.title) && MatchAt(s, p, pat) == TailAt(s, e, pat.tail);
    TailAtComplete(s, e, pat.tail, c);
  }

  /** What `MatchAt` returns is a match, the one backtracking tries first. */
  lemma MatchAtSound(s: string, pat: Pattern, p: nat, c: string)
    requires p <= |s| && MatchAt(s, p, pat) == Some(c)
    ensures LabelAt(s, p, pat.title) && PreferredTail(s, p + |pat.title|, pat.tail, c)
    ensures RegexMatchAt(s, pat, p, c)
  {
    var e := p + |pat.title|;
    assert LabelAt(s, p, pat.title) && TailAt(s, e, pat.tail) == Some(c);
    TailAtSound(s, e, pat.tail);
    PreferredIsMatch(s, e, pat.tail, c);
  }

  /** `FirstMatch` returns the match JavaScript returns. */
  lemma FirstMatchChosen(s: string, pat: Pattern)
    requires FirstMatch(s, pat).Some?
    ensures ChosenMatch(s, pat, FirstMatch(s, pat).value.pos, FirstMatch(s, pat).value.capture)
  {
    var f := FirstMatch(s, pat).value;
    FirstMatchFound(s, pat);
    MatchAtSound(s, pat, f.pos, f.capture);
    forall p': nat, c': string | p' < f.pos ensures !RegexMatchAt(s, pat, p', c') {
      NoMatchBeforeFirst(s, pat, p', c');
    }
  }

  /** Before the position `FirstMatch` returns, the expression matches
      nowhere. */
  lemma NoMatchBeforeFirst(s: string, pat: Pattern, p: nat, c: string)
    requires FirstMatch(s, pat).Some? && p < FirstMatch(s, pat).value.pos
    ensures !RegexMatchAt(s, pat, p, c)
  {
    if RegexMatchAt(s, pat, p, c) {
      MatchAtComplete(s, pat, p, c);
      FirstMatchEarlier(s, pat, p);
    }
  }

  /** The match JavaScript returns is the one `FirstMatch` returns: the two
      descriptions agree. */
  lemma ChosenIsFirstMatch(s: string, pat: Pattern, p: nat, c: string)
    requires ChosenMatch(s, pat, p, c)
    ensures FirstMatch(s, pat) == Some(Found(p, c))
  {
    ChosenMatchAt(s, pat, p, c);
    match FirstMatch(s, pat)
    case None =>
      FirstMatchNothing(s, pat, p);
      assert false;
    case Some(f) =>
      FirstMatchFound(s, pat);
      if f.pos < p {
        MatchAtSound(s, pat, f.pos, f.capture);
        assert false;
      } else if p < f.pos {
        FirstMatchEarlier(s, pat, p);
        assert false;
      }
  }

  /** At the position of the match JavaScript returns, `MatchAt` gives its
      capture. */
  lemma ChosenMatchAt(s: string, pat: Pattern, p: nat, c: string)
    requires LabelAt(s, p, pat.title) && PreferredTail(s, p + |pat.title|, pat.tail, c)
    ensures p <= |s| && MatchAt(s, p, pat) == Some(c)
  {
    var e := p + |pat.title|;
    assert MatchAt(s, p, pat) == TailAt(s, e, pat.tail);
    TailAtUnique(s, e, pat.tail, c);
  }

  /** `s.match(regex)` is null exactly when the expression matches nowhere. */
  lemma FirstMatchNone(s: string, pat: Pattern)
    ensures FirstMatch(s, pat).None? <==> forall p: nat, c: string :: !RegexMatchAt(s, pat, p, c)
  {
    if FirstMatch(s, pat).None? {
      forall p: nat, c: string ensures !RegexMatchAt(s, pat, p, c) {
        if RegexMatchAt(s, pat, p, c) {
          MatchAtComplete(s, pat, p, c);
          FirstMatchNothing(s, pat, p);
        }
      }
    } else {
      FirstMatchFound(s, pat);
      MatchAtSound(s, pat, FirstMatch(s, pat).value.pos, FirstMatch(s, pat).value.capture);
    }
  }

  /** The group captured by an amount expression is the text of an amount. */
  lemma FirstMatchAmountText(s: string, pat: Pattern)
    requires pat.tail != DateNext && FirstMatch(s, pat).Some?
    ensures IsAmountText(FirstMatch(s, pat).value.capture)
  {
    var f := FirstMatch(s, pat).value;
    FirstMatchFound(s, pat);
    var e := f.pos + |pat.title|;
    assert LabelAt(s, f.pos, pat.title) && TailAt(s, e, pat.tail) == Some(f.capture);
    TailAtSound(s, e, pat.tail);
    PreferredIsMatch(s, e, pat.tail, f.capture);
    if pat.tail == AmountNext {
      var k: nat, m: nat, j: nat :| AmountSplit(s, e, k, m, j) && f.capture == s[m..j + 3];
      SplitAmountText(s, e, k, m, j);
    } else {
      var q: nat, k: nat, m: nat, j: nat :| LineAmountSplit(s, e, q, k, m, j) && f.capture == s[m..j + 3];
      SplitAmountText(s, q, k, m, j);
    }
  }

  // ---------------------------------------------------------------------
  // Case-insensitivity and well-formed amounts

  /** Texts that hold the same characters except, possibly, for letters. */
  ghost predicate SameButLetters(s: string, t: string) {
    |s| == |t| && forall i | 0 <= i < |s| :: s[i] == t[i] || (IsLetter(s[i]) && IsLetter(t[i]))
  }

  lemma CaseVariantSameButLetters(s: string, t: string)
    requires CaseVariant(s, t)
    ensures SameButLetters(s, t)
  {
    forall i | 0 <= i < |s| ensures s[i] == t[i] || (IsLetter(s[i]) && IsLetter(t[i])) {
      SameFolding(s[i], t[i]);
    }
  }

  /** Texts that differ only in letters agree on every class but letters. */
  lemma ClassAgrees(s: string, t: string, cls: CharClass)
    requires SameButLetters(s, t) && cls != Letters
    ensures forall k {:trigger InClass(s[k], cls)} | 0 <= k < |s| :: InClass(s[k], cls) == InClass(t[k], cls)
  {
    forall k | 0 <= k < |s| ensures InClass(s[k], cls) == InClass(t[k], cls) {
      assert s[k] == t[k] || (IsLetter(s[k]) && IsLetter(t[k]));
    }
  }

  /** The amount tail looks only at spaces, signs, digits, commas and points,
      so it matches in the same way in texts that differ only in letters. */
  lemma AmountAtSameButLetters(s: string, t: string, e: nat)
    requires SameButLetters(s, t) && e <= |s|
    ensures AmountAt(s, e) == AmountAt(t, e)
  {
    var k, m, j := AmountRunsAgree(s, t, e);
    if e < k && m < j && j + 3 <= |s| {
      CaptureSameButLetters(s, t, m, j);
    }
  }

  /** The spaces, the sign and the digits of the amount tail end at the same
      places in texts that differ only in letters. */
  lemma AmountRunsAgree(s: string, t: string, e: nat) returns (k: nat, m: nat, j: nat)
    requires SameButLetters(s, t) && e <= |s|
    ensures k == RunEnd(s, e, Spaces) == RunEnd(t, e, Spaces)
    ensures m == (if k < |s| && s[k] == '-' then k + 1 else k) == (if k < |t| && t[k] == '-' then k + 1 else k)
    ensures j == RunEnd(s, m, DigitsOrCommas) == RunEnd(t, m, DigitsOrCommas)
  {
    ClassAgrees(s, t, Spaces);
    ClassAgrees(s, t, DigitsOrCommas);
    RunEndAgrees(s, t, e, Spaces);
    k := RunEnd(s, e, Spaces);
    assert k < |s| ==> s[k] == t[k] || (IsLetter(s[k]) && IsLetter(t[k]));
    m := if k < |s| && s[k] == '-' then k + 1 else k;
    RunEndAgrees(s, t, m, DigitsOrCommas);
    j := RunEnd(s, m, DigitsOrCommas);
  }

  /** A run of digits and commas followed by a point and two digits reads
      the same in texts that differ only in letters. */
  lemma CaptureSameButLetters(s: string, t: string, m: nat, j: nat)
    requires SameButLetters(s, t) && m <= j && j + 3 <= |s|
    requires RunEnd(s, m, DigitsOrCommas) == j
    ensures (s[j] == '.' && IsDigit(s[j + 1]) && IsDigit(s[j + 2])) == (t[j] == '.' && IsDigit(t[j + 1]) && IsDigit(t[j + 2]))
    ensures s[j] == '.' && IsDigit(s[j + 1]) && IsDigit(s[j + 2]) ==> s[m..j + 3] == t[m..j + 3]
  {
    assert s[j] == t[j] || (IsLetter(s[j]) && IsLetter(t[j]));
    assert s[j + 1] == t[j + 1] || (IsLetter(s[j + 1]) && IsLetter(t[j + 1]));
    assert s[j + 2] == t[j + 2] || (IsLetter(s[j + 2]) && IsLetter(t[j + 2]));
    if s[j] == '.' && IsDigit(s[j + 1]) && IsDigit(s[j + 2]) {
      RunEndSpec(s, m, DigitsOrCommas);
      forall i | m <= i < j + 3 ensures s[i] == t[i] {
        if i < j {
          assert InClass(s[i], DigitsOrCommas);
        }
      }
      assert s[m..j + 3] == t[m..j + 3];
    }
  }

  /** The amount tail is tried with the same outcome at every position of
      texts that differ only in letters. */
  lemma AmountAttemptsSameButLetters(s: string, t: string)
    requires SameButLetters(s, t)
    ensures AmountAttempts(s) == AmountAttempts(t)
  {
    forall q | 0 <= q <= |s| ensures AmountAttempts(s)[q] == AmountAttempts(t)[q] {
      AmountAtSameButLetters(s, t, q);
    }
  }

  /** Both amount tails match in the same way in every case variant. */
  lemma TailAtCaseVariant(s: string, t: string, e: nat, tail: Tail)
    requires CaseVariant(s, t) && e <= |s| && tail != DateNext
    ensures TailAt(s, e, tail) == TailAt(t, e, tail)
  {
    CaseVariantSameButLetters(s, t);
    if tail == AmountNext {
      AmountAtSameButLetters(s, t, e);
    } else {
      RunEndAgrees(s, t, e, LineChars);
      AmountAttemptsSameButLetters(s, t);
      var hi := RunEnd(s, e, LineChars);
      var r := LastSome(AmountAttempts(s), e, hi);
      assert r == LastSome(AmountAttempts(t), e, hi);
      if r.Some? {
        AmountAtSameButLetters(s, t, r.value);
      }
    }
  }

  lemma MatchAtCaseVariant(s: string, t: string, pat: Pattern, p: nat)
    requires CaseVariant(s, t) && p <= |s| && pat.tail != DateNext
    ensures MatchAt(s, p, pat) == MatchAt(t, p, pat)
  {
    LabelAtCaseVariant(s, t, p, pat.title);
    if LabelAt(s, p, pat.title) {
      TailAtCaseVariant(s, t, p + |pat.title|, pat.tail);
    }
    MatchAtAgree(s, t, pat, p);
  }

  /** The expression tried at `p` depends only on whether the title is there
      and on what the tail then matches. */
  lemma MatchAtAgree(s: string, t: string, pat: Pattern, p: nat)
    requires p <= |s| == |t|
    requires LabelAt(s, p, pat.title) == LabelAt(t, p, pat.title)
    requires LabelAt(s, p, pat.title) ==> TailAt(s, p + |pat.title|, pat.tail) == TailAt(t, p + |pat.title|, pat.tail)
    ensures MatchAt(s, p, pat) == MatchAt(t, p, pat)
  {
  }

  /** Case-insensitive matching: an amount expression finds the same match,
      with the same captured text, in every case variant of a text. */
  lemma FirstMatchCaseVariant(s: string, t: string, pat: Pattern)
    requires CaseVariant(s, t) && pat.tail != DateNext
    ensures FirstMatch(s, pat) == FirstMatch(t, pat)
  {
    forall p | 0 <= p <= |s| ensures Attempts(s, pat)[p] == Attempts(t, pat)[p] {
      MatchAtCaseVariant(s, t, pat, p);
    }
    assert Attempts(s, pat) == Attempts(t, pat);
  }

  /** A space followed by an amount printed as digits, a point and two digits
      is captured exactly, whatever follows it. */
  lemma AmountAtFormatted(s: string, e: nat, n: nat)
    requires e + 1 + |FormatCents(n)| <= |s| && s[e] == ' '
    requires s[e + 1..e + 1 + |FormatCents(n)|] == FormatCents(n)
    ensures AmountAt(s, e) == Some(FormatCents(n))
  {
    var c := FormatCents(n);
    var j := e + 1 + |c| - 3;
    assert s[e + 1] == c[0];
    forall i | e + 1 <= i < j ensures InClass(s[i], DigitsOrCommas) {
      assert s[i] == c[i - e - 1];
    }
    assert s[j] == c[|c| - 3] && s[j + 1] == c[|c| - 2] && s[j + 2] == c[|c| - 1];
    assert AmountSplit(s, e, e + 1, e + 1, j);
    AmountAtComplete(s, e, e + 1, e + 1, j);
  }
}
