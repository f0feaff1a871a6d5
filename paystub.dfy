// `extractContributions` of src/utils/parsePaystub.ts:51-90: the pay date is
// resolved from the text, then every pattern of a fixed catalogue is matched
// once and each match becomes one contribution record.
//
// The JavaScript `Date` conversion and the clock are parameters: `toIsoDate`
// maps a captured "Month D, YYYY" text to the ISO string `toISOString` would
// give, or to `None` where the date is invalid and `toISOString` throws;
// `now` is the ISO string of the processing moment.
module Paystub {
  import opened Outcomes
  import opened Text
  import opened Amounts
  import opened Search
  import opened Patterns

  /** The contribution types of src/utils/parsePaystub.ts:8-14. */
  datatype ContributionType =
    | Roth401k      // 'Roth 401k'
    | Match401k     // '401k Match'
    | AfterTax401k  // 'After-tax 401k'
    | HsaEmployee   // 'HSA Employee'
    | HsaEmployer   // 'HSA Employer'
    | Crypto        // 'Crypto'

  /** One record of src/utils/parsePaystub.ts:16-22; amounts in cents. */
  datatype Contribution = Contribution(payDate: string, kind: ContributionType, employee: nat, employer: nat)

  /** One entry of the pattern catalogue: the expression, the type it
      reports and whether the amount goes to the employee side. */
  datatype Rule = Rule(pattern: Pattern, kind: ContributionType, isEmp: bool)

  /** A rule whose expression captures an amount, as every catalogue rule's
      does; only such a rule can be read with `parseFloat`. */
  type AmountRule = r: Rule | r.pattern.tail != DateNext
    witness Rule(Pattern("", AmountNext), Roth401k, true)

  type DateConverter = string -> Option<string>

  /** `/Check Date\s+([A-Za-z]+\s+\d{1,2},\s+\d{4})/i` */
  const CheckDate := Pattern("CHECK DATE", DateNext)

  /** `/Period End Date\s+([A-Za-z]+\s+\d{1,2},\s+\d{4})/i` */
  const PeriodEndDate := Pattern("PERIOD END DATE", DateNext)

  /** The catalogue of src/utils/parsePaystub.ts:63-69, in its order. */
  const Catalogue: seq<AmountRule> := [
    Rule(Pattern("ROTH (AFTER-TAX)", AmountNext), Roth401k, true),
    Rule(Pattern("401K EMPLOYER MATCH", AmountNext), Match401k, false),
    Rule(Pattern("AFTER-TAX 401K", AmountNext), AfterTax401k, true),
    Rule(Pattern("HSA EMPLOYEE CONT", AmountNext), HsaEmployee, true),
    Rule(Pattern("HSA EMPLOYER", AmountLaterOnLine), HsaEmployer, false)
  ]

  /** Where a type stands in the catalogue; `Crypto` is not in it. */
  function CatalogueIndex(kind: ContributionType): (k: nat)
    ensures k <= |Catalogue|
    ensures k < |Catalogue| <==> kind != Crypto
    ensures k < |Catalogue| ==> Catalogue[k].kind == kind
  {
    match kind
    case Roth401k => 0
    case Match401k => 1
    case AfterTax401k => 2
    case HsaEmployee => 3
    case HsaEmployer => 4
    case Crypto => 5
  }

  /** The types whose amount is the employee's own contribution. */
  predicate IsEmployeeSide(kind: ContributionType) {
    kind == Roth401k || kind == AfterTax401k || kind == HsaEmployee
  }

  /** Every rule of the catalogue puts its amount on the side its type
      belongs to, and its type leads back to it. */
  lemma CatalogueRules(k: nat)
    requires k < |Catalogue|
    ensures Catalogue[k].isEmp == IsEmployeeSide(Catalogue[k].kind)
    ensures CatalogueIndex(Catalogue[k].kind) == k
  {
  }

  // ---------------------------------------------------------------------
  // Pay date

  /** `.slice(0, 10)` of an ISO string: its date part. */
  function DatePart(iso: string): (d: string)
    ensures |d| == if |iso| < 10 then |iso| else 10
    ensures d <= iso
  {
    if |iso| <= 10 then iso else iso[..10]
  }

  /** `new Date(captured).toISOString().slice(0, 10)`; an invalid date makes
      `toISOString` throw, reported as the captured text. */
  function Convert(captured: string, toIsoDate: DateConverter): (r: Result<string, string>)
    ensures r.Err? <==> toIsoDate(captured).None?
    ensures r.Err? ==> r.error == captured
    ensures r.Ok? ==> r.value <= toIsoDate(captured).value
    ensures r.Ok? ==> |r.value| == if |toIsoDate(captured).value| < 10 then |toIsoDate(captured).value| else 10
  {
    match toIsoDate(captured)
    case None => Err(captured)
    case Some(iso) => Ok(DatePart(iso))
  }

  /** The pay date of src/utils/parsePaystub.ts:54-61. */
  function PayDate(text: string, now: string, toIsoDate: DateConverter): (r: Result<string, string>)
    ensures r.Ok? ==> |r.value| <= 10
    ensures r.Err? ==> toIsoDate(r.error).None?
  {
    match FirstMatch(text, CheckDate)
    case Some(f) => Convert(f.capture, toIsoDate)
    case None =>
      match FirstMatch(text, PeriodEndDate)
      case Some(f) => Convert(f.capture, toIsoDate)
      case None => Ok(DatePart(now))
  }

  /** The first date label present decides the pay date. */
  lemma CheckDateFirst(text: string, now: string, toIsoDate: DateConverter, p: nat, c: string)
    requires ChosenMatch(text, CheckDate, p, c)
    ensures PayDate(text, now, toIsoDate) == Convert(c, toIsoDate)
  {
    ChosenIsFirstMatch(text, CheckDate, p, c);
  }

  /** "Period End Date" counts only when "Check Date" is nowhere. */
  lemma PeriodEndDateSecond(text: string, now: string, toIsoDate: DateConverter, p: nat, c: string)
    requires forall p': nat, c': string :: !RegexMatchAt(text, CheckDate, p', c')
    requires ChosenMatch(text, PeriodEndDate, p, c)
    ensures PayDate(text, now, toIsoDate) == Convert(c, toIsoDate)
  {
    FirstMatchNone(text, CheckDate);
    ChosenIsFirstMatch(text, PeriodEndDate, p, c);
  }

  /** Without either date label the processing date is the pay date. */
  lemma ProcessingDateLast(text: string, now: string, toIsoDate: DateConverter)
    requires forall p: nat, c: string :: !RegexMatchAt(text, CheckDate, p, c)
    requires forall p: nat, c: string :: !RegexMatchAt(text, PeriodEndDate, p, c)
    ensures PayDate(text, now, toIsoDate) == Ok(DatePart(now))
  {
    FirstMatchNone(text, CheckDate);
    FirstMatchNone(text, PeriodEndDate);
  }

  // ---------------------------------------------------------------------
  // Contributions

  /** The record pushed for a match of `rule` worth `val` cents. */
  function Credit(payDate: string, rule: Rule, val: nat): (c: Contribution)
    ensures c.payDate == payDate && c.kind == rule.kind
    ensures rule.isEmp ==> c.employee == val && c.employer == 0
    ensures !rule.isEmp ==> c.employer == val && c.employee == 0
  {
    Contribution(payDate, rule.kind, if rule.isEmp then val else 0, if rule.isEmp then 0 else val)
  }

  /** `parseFloat(m[1].replace(/,/g, ''))` for the match of `pat`, in cents,
      or `None` where `text.match` gives null. */
  function ReadAmount(text: string, pat: Pattern): (r: Option<nat>)
    requires pat.tail != DateNext
    ensures r.None? <==> FirstMatch(text, pat).None?
  {
    match FirstMatch(text, pat)
    case None => None
    case Some(f) =>
      FirstMatchAmountText(text, pat);
      Some(AmountOf(f.capture))
  }

  /** What each rule's expression reads from the text. */
  function Readings(text: string, rules: seq<AmountRule>): (r: seq<Option<nat>>)
    ensures |r| == |rules|
  {
    seq(|rules|, i requires 0 <= i < |rules| => ReadAmount(text, rules[i].pattern))
  }

  /** The records the loop pushes for `rules`, given what each read: one
      record per rule that read an amount, in the order of the rules. */
  function Records(payDate: string, rules: seq<Rule>, amounts: seq<Option<nat>>): (r: seq<Contribution>)
    requires |amounts| == |rules|
    ensures |r| <= |rules|
  {
    if rules == [] then []
    else
      var n := |rules| - 1;
      var init := Records(payDate, rules[..n], amounts[..n]);
      match amounts[n]
      case None => init
      case Some(val) => init + [Credit(payDate, rules[n], val)]
  }

  /** The loop pushes nothing exactly when no rule read an amount, the case
      in which the placeholder is pushed. */
  lemma {:induction false} RecordsEmpty(payDate: string, rules: seq<Rule>, amounts: seq<Option<nat>>)
    requires |amounts| == |rules|
    ensures Records(payDate, rules, amounts) == [] <==> forall i | 0 <= i < |amounts| :: amounts[i].None?
  {
    if rules != [] {
      var n := |rules| - 1;
      RecordsEmpty(payDate, rules[..n], amounts[..n]);
      assert forall i | 0 <= i < n :: amounts[..n][i] == amounts[i];
    }
  }

  /** The records pushed while the loop runs over `rules`. */
  function Emitted(text: string, payDate: string, rules: seq<AmountRule>): (r: seq<Contribution>)
    ensures |r| <= |rules|
  {
    Records(payDate, rules, Readings(text, rules))
  }

  /** The record pushed when nothing matched. */
  function Placeholder(payDate: string): (c: Contribution)
    ensures WellFormed(c, payDate) && c.kind == Roth401k && c.employee + c.employer == 0
  {
    Contribution(payDate, Roth401k, 0, 0)
  }

  /** The result of `extractContributions`, or the captured date text when
      converting it throws. */
  function Extract(text: string, now: string, toIsoDate: DateConverter): (r: Result<seq<Contribution>, string>)
    ensures r.Ok? ==> |r.value| >= 1
    ensures r.Err? ==> toIsoDate(r.error).None?
  {
    match PayDate(text, now, toIsoDate)
    case Err(captured) => Err(captured)
    case Ok(payDate) =>
      var es := Emitted(text, payDate, Catalogue);
      Ok(if es == [] then [Placeholder(payDate)] else es)
  }

  /** `extractContributions` as written: the pay date is resolved, each
      catalogue pattern is tried in turn, and the placeholder is pushed when
      nothing matched. */
  method ExtractContributions(text: string, now: string, toIsoDate: DateConverter)
    returns (r: Result<seq<Contribution>, string>)
    ensures r == Extract(text, now, toIsoDate)
  {
    var date := ResolvePayDate(text, now, toIsoDate);
    if date.Err? {
      return Err(date.error);
    }
    var payDate := date.value;
    var contributions := PushMatches(text, payDate);
    if |contributions| == 0 {
      contributions := contributions + [Placeholder(payDate)];
      assert contributions == [Placeholder(payDate)];
    }
    return Ok(contributions);
  }

  /** Lines 54-61: `payDate` starts as the processing date and is reassigned
      through the chain of date labels; converting a captured date that is
      not valid throws. */
  method ResolvePayDate(text: string, now: string, toIsoDate: DateConverter)
    returns (r: Result<string, string>)
    ensures r == PayDate(text, now, toIsoDate)
  {
    var payDate := DatePart(now);
    var checkMatch := FirstMatch(text, CheckDate);
    if checkMatch.Some? {
      var iso := toIsoDate(checkMatch.value.capture);
      if iso.None? {
        return Err(checkMatch.value.capture);
      }
      payDate := DatePart(iso.value);
    } else {
      var periodMatch := FirstMatch(text, PeriodEndDate);
      if periodMatch.Some? {
        var iso := toIsoDate(periodMatch.value.capture);
        if iso.None? {
          return Err(periodMatch.value.capture);
        }
        payDate := DatePart(iso.value);
      }
    }
    return Ok(payDate);
  }

  /** Lines 71-82: each catalogue pattern is tried once, in order, and a
      record is pushed for each one that matches. */
  method PushMatches(text: string, payDate: string) returns (contributions: seq<Contribution>)
    ensures contributions == Emitted(text, payDate, Catalogue)
  {
    contributions := [];
    ghost var amounts := Readings(text, Catalogue);
    var i := 0;
    while i < |Catalogue|
      invariant 0 <= i <= |Catalogue|
      invariant contributions == Records(payDate, Catalogue[..i], amounts[..i])
    {
      var rule := Catalogue[i];
      var m := ReadAmount(text, rule.pattern);
      if m.Some? {
        var val := m.value;
        contributions := contributions + [Credit(payDate, rule, val)];
      }
      assert amounts[i] == m;
      RecordsStep(payDate, Catalogue, amounts, i);
      i := i + 1;
    }
    assert Catalogue[..i] == Catalogue && amounts[..i] == amounts;
  }

  /** One more round of the loop appends the record of rule `i`, if any. */
  lemma RecordsStep(payDate: string, rules: seq<Rule>, amounts: seq<Option<nat>>, i: nat)
    requires |amounts| == |rules| && i < |rules|
    ensures Records(payDate, rules[..i + 1], amounts[..i + 1]) ==
      Records(payDate, rules[..i], amounts[..i])
      + (if amounts[i].Some? then [Credit(payDate, rules[i], amounts[i].value)] else [])
  {
    assert rules[..i + 1][..i] == rules[..i];
    assert amounts[..i + 1][..i] == amounts[..i];
  }

  // ---------------------------------------------------------------------
  // Properties of the result

  /** A record carries the pay date, has a catalogue type, and its amount
      sits on the side of its type with the other side zero. */
  predicate WellFormed(e: Contribution, payDate: string) {
    e.payDate == payDate && e.kind != Crypto
    && (IsEmployeeSide(e.kind) ==> e.employer == 0)
    && (!IsEmployeeSide(e.kind) ==> e.employee == 0)
  }

  /** Records in strict catalogue order, hence no type twice. */
  predicate Ordered(es: seq<Contribution>) {
    forall i, j | 0 <= i < j < |es| :: CatalogueIndex(es[i].kind) < CatalogueIndex(es[j].kind)
  }

  /** The loop after `n` rounds: at most one record per rule seen so far, in
      catalogue order, each the record of its own rule's reading. */
  lemma {:induction false} RecordsPrefix(payDate: string, amounts: seq<Option<nat>>, n: nat)
    requires |amounts| == |Catalogue| && n <= |Catalogue|
    ensures var rs := Records(payDate, Catalogue[..n], amounts[..n]);
      |rs| <= n && Ordered(rs)
      && (forall e | e in rs :: WellFormed(e, payDate) && CatalogueIndex(e.kind) < n
           && amounts[CatalogueIndex(e.kind)].Some?
           && e == Credit(payDate, Catalogue[CatalogueIndex(e.kind)], amounts[CatalogueIndex(e.kind)].value))
      && (forall k | 0 <= k < n && amounts[k].Some? :: Credit(payDate, Catalogue[k], amounts[k].value) in rs)
  {
    if n > 0 {
      RecordsPrefix(payDate, amounts, n - 1);
      RecordsStep(payDate, Catalogue, amounts, n - 1);
      CatalogueRules(n - 1);
      var prev := Records(payDate, Catalogue[..n - 1], amounts[..n - 1]);
      var rs := Records(payDate, Catalogue[..n], amounts[..n]);
      if amounts[n - 1].Some? {
        assert rs == prev + [Credit(payDate, Catalogue[n - 1], amounts[n - 1].value)];
      } else {
        assert rs == prev;
      }
    }
  }

  /** The records of the whole catalogue. */
  lemma RecordsAll(text: string, payDate: string)
    ensures var rs := Emitted(text, payDate, Catalogue);
      var amounts := Readings(text, Catalogue);
      |rs| <= |Catalogue| && Ordered(rs)
      && (forall e | e in rs :: WellFormed(e, payDate)
           && amounts[CatalogueIndex(e.kind)].Some?
           && e == Credit(payDate, Catalogue[CatalogueIndex(e.kind)], amounts[CatalogueIndex(e.kind)].value))
      && (forall k | 0 <= k < |Catalogue| && amounts[k].Some? :: Credit(payDate, Catalogue[k], amounts[k].value) in rs)
  {
    var amounts := Readings(text, Catalogue);
    RecordsPrefix(payDate, amounts, |Catalogue|);
    assert Catalogue[..|Catalogue|] == Catalogue && amounts[..|amounts|] == amounts;
  }

  /** The shape of every result: between one and five records, in catalogue
      order with no type repeated and never `Crypto`, all carrying the same
      pay date, each with one side zero. */
  lemma ExtractShape(text: string, now: string, toIsoDate: DateConverter)
    ensures Extract(text, now, toIsoDate).Ok? <==> PayDate(text, now, toIsoDate).Ok?
    ensures Extract(text, now, toIsoDate).Err? ==> Extract(text, now, toIsoDate).error == PayDate(text, now, toIsoDate).error
    ensures Extract(text, now, toIsoDate).Ok? ==>
      var es := Extract(text, now, toIsoDate).value;
      1 <= |es| <= |Catalogue| && Ordered(es)
      && forall e | e in es :: WellFormed(e, PayDate(text, now, toIsoDate).value)
  {
    if PayDate(text, now, toIsoDate).Ok? {
      RecordsAll(text, PayDate(text, now, toIsoDate).value);
    }
  }

  /** A result never names a type twice. */
  lemma ExtractDistinctTypes(text: string, now: string, toIsoDate: DateConverter)
    ensures Extract(text, now, toIsoDate).Ok? ==>
      var es := Extract(text, now, toIsoDate).value;
      forall i, j | 0 <= i < j < |es| :: es[i].kind != es[j].kind
  {
    ExtractShape(text, now, toIsoDate);
  }

  /** A pattern that matches contributes the record of the match JavaScript
      picks: the captured digits without commas, in cents, on its side. The
      optional minus sign lies outside the capture, so it is never read. */
  lemma CatalogueMatch(text: string, payDate: string, k: nat, p: nat, c: string)
    requires k < |Catalogue| && ChosenMatch(text, Catalogue[k].pattern, p, c)
    ensures IsAmountText(c) && '-' !in c
    ensures Credit(payDate, Catalogue[k], AmountOf(c)) in Emitted(text, payDate, Catalogue)
  {
    ReadingOfChosen(text, k, p, c);
    RecordsAll(text, payDate);
    AmountTextUnsigned(c);
  }

  /** A pattern that matches nowhere contributes no record. */
  lemma CatalogueNoMatch(text: string, payDate: string, k: nat)
    requires k < |Catalogue|
    requires forall p: nat, c: string :: !RegexMatchAt(text, Catalogue[k].pattern, p, c)
    ensures forall e | e in Emitted(text, payDate, Catalogue) :: e.kind != Catalogue[k].kind
  {
    ReadingOfNone(text, k);
    NoRecordOfUnread(text, payDate, k);
  }

  /** A rule that read nothing has no record. */
  lemma NoRecordOfUnread(text: string, payDate: string, k: nat)
    requires k < |Catalogue| && Readings(text, Catalogue)[k].None?
    ensures forall e | e in Emitted(text, payDate, Catalogue) :: e.kind != Catalogue[k].kind
  {
    RecordsAll(text, payDate);
    CatalogueRules(k);
  }

  /** Nothing matched: the result is the single placeholder record. */
  lemma PlaceholderWhenNothingMatches(text: string, now: string, toIsoDate: DateConverter)
    requires PayDate(text, now, toIsoDate).Ok?
    requires forall k: nat, p: nat, c: string | k < |Catalogue| :: !RegexMatchAt(text, Catalogue[k].pattern, p, c)
    ensures Extract(text, now, toIsoDate) == Ok([Placeholder(PayDate(text, now, toIsoDate).value)])
  {
    var payDate := PayDate(text, now, toIsoDate).value;
    RecordsAll(text, payDate);
    var es := Emitted(text, payDate, Catalogue);
    if es != [] {
      var e := es[0];
      CatalogueNoMatch(text, payDate, CatalogueIndex(e.kind));
    }
  }

  /** Something matched: the result is exactly the pushed records, with no
      placeholder added. */
  lemma NoPlaceholderWhenSomethingMatches(text: string, now: string, toIsoDate: DateConverter, k: nat, p: nat, c: string)
    requires PayDate(text, now, toIsoDate).Ok?
    requires k < |Catalogue| && ChosenMatch(text, Catalogue[k].pattern, p, c)
    ensures Extract(text, now, toIsoDate) == Ok(Emitted(text, PayDate(text, now, toIsoDate).value, Catalogue))
  {
    CatalogueMatch(text, PayDate(text, now, toIsoDate).value, k, p, c);
  }

  /** A text where only the Roth and the employer-match labels are followed by
      amounts yields exactly those two records, Roth first, each amount on
      its own side. */
  lemma RothAndMatchOnly(text: string, payDate: string, p: nat, c: string, q: nat, d: string)
    requires ChosenMatch(text, Catalogue[0].pattern, p, c)
    requires ChosenMatch(text, Catalogue[1].pattern, q, d)
    requires forall k: nat, p': nat, c': string | 2 <= k < |Catalogue| :: !RegexMatchAt(text, Catalogue[k].pattern, p', c')
    ensures IsAmountText(c) && IsAmountText(d)
    ensures Emitted(text, payDate, Catalogue) ==
      [Contribution(payDate, Roth401k, AmountOf(c), 0), Contribution(payDate, Match401k, 0, AmountOf(d))]
  {
    ReadingOfChosen(text, 0, p, c);
    ReadingOfChosen(text, 1, q, d);
    ReadingOfNone(text, 2);
    ReadingOfNone(text, 3);
    ReadingOfNone(text, 4);
    RecordsFirstTwo(payDate, Readings(text, Catalogue));
  }

  /** The loop's records when only the first two rules read an amount. */
  lemma RecordsFirstTwo(payDate: string, amounts: seq<Option<nat>>)
    requires |amounts| == |Catalogue| && amounts[0].Some? && amounts[1].Some?
    requires amounts[2].None? && amounts[3].None? && amounts[4].None?
    ensures Records(payDate, Catalogue, amounts) ==
      [Contribution(payDate, Roth401k, amounts[0].value, 0), Contribution(payDate, Match401k, 0, amounts[1].value)]
  {
    RecordsStep(payDate, Catalogue, amounts, 0);
    RecordsStep(payDate, Catalogue, amounts, 1);
    RecordsStep(payDate, Catalogue, amounts, 2);
    RecordsStep(payDate, Catalogue, amounts, 3);
    RecordsStep(payDate, Catalogue, amounts, 4);
    assert Catalogue[..5] == Catalogue && amounts[..5] == amounts;
  }

  /** What a catalogue pattern reads when JavaScript picks the match `c`. */
  lemma ReadingOfChosen(text: string, k: nat, p: nat, c: string)
    requires k < |Catalogue| && ChosenMatch(text, Catalogue[k].pattern, p, c)
    ensures IsAmountText(c)
    ensures Readings(text, Catalogue)[k] == Some(AmountOf(c))
  {
    var pat := Catalogue[k].pattern;
    assert Readings(text, Catalogue)[k] == ReadAmount(text, pat);
    ChosenIsFirstMatch(text, pat, p, c);
    FirstMatchAmountText(text, pat);
  }

  /** A catalogue pattern that matches nowhere reads nothing. */
  lemma ReadingOfNone(text: string, k: nat)
    requires k < |Catalogue|
    requires forall p: nat, c: string :: !RegexMatchAt(text, Catalogue[k].pattern, p, c)
    ensures Readings(text, Catalogue)[k] == None
  {
    FirstMatchNone(text, Catalogue[k].pattern);
  }

  /** Case-insensitive labels: every case variant of a text yields the same
      records. */
  lemma EmittedCaseVariant(s: string, t: string, payDate: string)
    requires CaseVariant(s, t)
    ensures Emitted(s, payDate, Catalogue) == Emitted(t, payDate, Catalogue)
  {
    forall k | 0 <= k < |Catalogue|
      ensures Readings(s, Catalogue)[k] == Readings(t, Catalogue)[k]
    {
      FirstMatchCaseVariant(s, t, Catalogue[k].pattern);
    }
    assert Readings(s, Catalogue) == Readings(t, Catalogue);
  }

  /** A Roth contribution printed at the start of the text as digits, a
      point and two digits is read back as the same number of cents, and is
      the first record. */
  lemma RothReadBack(n: nat, rest: string, now: string, toIsoDate: DateConverter)
    ensures var text := "ROTH (AFTER-TAX) " + FormatCents(n) + rest;
      Extract(text, now, toIsoDate).Ok? ==>
      Extract(text, now, toIsoDate).value[0] == Contribution(PayDate(text, now, toIsoDate).value, Roth401k, n, 0)
  {
    var text := "ROTH (AFTER-TAX) " + FormatCents(n) + rest;
    ExtractShape(text, now, toIsoDate);
    if Extract(text, now, toIsoDate).Ok? {
      var payDate := PayDate(text, now, toIsoDate).value;
      RothFirstMatch(n, rest);
      AmountOfFormat(n);
      RecordsAll(text, payDate);
      assert Readings(text, Catalogue)[0] == Some(n);
      var es := Extract(text, now, toIsoDate).value;
      var e := Credit(payDate, Catalogue[0], n);
      assert e in es;
    }
  }

  lemma RothFirstMatch(n: nat, rest: string)
    ensures var text := "ROTH (AFTER-TAX) " + FormatCents(n) + rest;
      FirstMatch(text, Catalogue[0].pattern) == Some(Found(0, FormatCents(n)))
  {
    var text := "ROTH (AFTER-TAX) " + FormatCents(n) + rest;
    var title := Catalogue[0].pattern.title;
    assert text[..|title|] == title;
    assert LabelAt(text, 0, title);
    assert text[|title| + 1..|title| + 1 + |FormatCents(n)|] == FormatCents(n);
    AmountAtFormatted(text, |title|, n);
    var xs := Attempts(text, Catalogue[0].pattern);
    assert xs[0] == MatchAt(text, 0, Catalogue[0].pattern) == Some(FormatCents(n));
    assert FirstSome(xs, 0) == Some(0);
  }
}
