/**
 * The matcher (src/matcher/index.ts): a precedence chain that gives every parsed
 * announcement one grade and the reason codes behind it, followed by a pass that
 * enforces the parser's judgement cap.
 */
module Matcher {
  import opened Wrappers
  import opened Text

  /** The four grades: 확정 가능, 유력, 검토필요 and 부적합. */
  datatype Grade = ConfirmedEligible | Likely | ReviewNeeded | Disqualified

  /** The parser's ceiling on any later grade: 확정 가능 or 검토필요. */
  datatype JudgementCap = CapConfirmable | CapReviewNeeded

  /** The application types the parser classifies announcements into. */
  datatype ApplicationType =
    | PublicRental | PublicSale | JeonseRental | PurchaseRental | RedevelopmentSpecial | Unknown

  /** `log.metadata` of a parsed item: the ordered audit trail the matcher inspects. */
  datatype LogMetadata = LogMetadata(ambiguousFragments: seq<string>, failureReasons: seq<string>)

  datatype ParserLog = ParserLog(metadata: LogMetadata)

  /** A parsed announcement, restricted to the fields the matcher reads. */
  datatype ParsedItem = ParsedItem(
    applicationType: ApplicationType,
    regionRequirement: Option<string>,
    householdRequirement: Option<string>,
    incomeRequirement: Option<string>,
    assetRequirement: Option<string>,
    eligibilityRulesRaw: Option<string>,
    judgementGradeCap: JudgementCap,
    log: ParserLog)

  /** The `{grade, reasons}` pair the chain computes. */
  datatype Decision = Decision(grade: Grade, reasons: seq<string>)

  /** A parsed item with the matcher's grade and reasons added beside it. */
  datatype MatchedItem = MatchedItem(item: ParsedItem, grade: Grade, reasons: seq<string>)

  const LegalViolationReason: string := "LEGAL_REQUIREMENT_VIOLATION: explicit-household-context"
  const UnknownOrAmbiguityReason: string := "REVIEW_REQUIRED: UNKNOWN_APPLICATION_TYPE_OR_AMBIGUITY"
  const MissingDataReason: string := "REVIEW_CAP_APPLIED: MISSING_REGION_OR_INCOME_OR_ASSET"
  const ConservativePassReason: string := "INITIAL_RULE_MATCH: conservative-pass"
  const ParserCapReason: string := "REVIEW_CAP_APPLIED: parser_judgement_grade_cap"
  const AmbiguousRuleTextPrefix: string := "AMBIGUOUS_RULE_TEXT"

  // ---------------------------------------------------------------------------
  // The three explicit-violation patterns, as bounded-window scanners.
  //
  //   1. 신청자 [^,.\n]{0,30} OWN
  //   2. OWN [^,.\n]{0,20} (확인|판정|위배|위반)
  //   3. 무주택 \s* 요건 [^,.\n]{0,10} (미충족|위반|위배)
  //
  // where OWN is (유주택 | 주택\s*소유 | 무주택\s*아님 | 1주택 | 2주택).
  // Each `\s*` is followed by a literal that does not start with white space, so
  // it can only consume the maximal run of white space; the alternatives of OWN
  // start with five different characters, so at most one matches at a position.
  // ---------------------------------------------------------------------------

  /** The characters the gaps `[^,.\n]` may not cross. */
  predicate IsClauseBreak(c: char) {
    c == ',' || c == '.' || c == '\n'
  }

  /** Where the ownership term OWN ends when it starts at `i`, if it does. */
  function OwnershipTermEnd(s: string, i: nat): (e: Option<nat>)
    ensures e.Some? ==> i < e.value <= |s|
  {
    if LiteralAt(s, i, "유주택") then Some(i + 3)
    else if LiteralAt(s, i, "1주택") then Some(i + 3)
    else if LiteralAt(s, i, "2주택") then Some(i + 3)
    else if LiteralAt(s, i, "주택") then
      var j := SkipSpace(s, i + 2);
      if LiteralAt(s, j, "소유") then Some(j + 2) else None
    else if LiteralAt(s, i, "무주택") then
      var j := SkipSpace(s, i + 3);
      if LiteralAt(s, j, "아님") then Some(j + 2) else None
    else None
  }

  /** The terms that may end a window. */
  datatype WindowTerm = Ownership | Verdict | Unmet

  /** `t` matches at `i`: OWN, (확인|판정|위배|위반) or (미충족|위반|위배). */
  predicate TermAt(s: string, i: nat, t: WindowTerm) {
    match t
    case Ownership => OwnershipTermEnd(s, i).Some?
    case Verdict =>
      LiteralAt(s, i, "확인") || LiteralAt(s, i, "판정") || LiteralAt(s, i, "위배") || LiteralAt(s, i, "위반")
    case Unmet => LiteralAt(s, i, "미충족") || LiteralAt(s, i, "위반") || LiteralAt(s, i, "위배")
  }

  /** `[^,.\n]{0,budget}` followed by `t`, from position `p`. */
  predicate TermWithin(s: string, p: nat, budget: nat, t: WindowTerm)
    decreases budget
  {
    TermAt(s, p, t)
    || (budget > 0 && p < |s| && !IsClauseBreak(s[p]) && TermWithin(s, p + 1, budget - 1, t))
  }

  /** `t` matches at `p + g` and the `g` characters before it contain no clause break. */
  predicate GapThenTerm(s: string, p: nat, g: nat, t: WindowTerm) {
    p + g <= |s| && TermAt(s, p + g, t) && forall k :: p <= k < p + g ==> !IsClauseBreak(s[k])
  }

  /** The window scanner accepts exactly when some gap of at most `budget` non-break characters precedes `t`. */
  lemma {:induction false} TermWithinMeaning(s: string, p: nat, budget: nat, t: WindowTerm)
    ensures TermWithin(s, p, budget, t) <==> exists g :: 0 <= g <= budget && GapThenTerm(s, p, g, t)
    decreases budget
  {
    if TermAt(s, p, t) {
      assert GapThenTerm(s, p, 0, t);
    } else if budget > 0 && p < |s| && !IsClauseBreak(s[p]) {
      TermWithinMeaning(s, p + 1, budget - 1, t);
      if TermWithin(s, p, budget, t) {
        var g :| 0 <= g <= budget - 1 && GapThenTerm(s, p + 1, g, t);
        assert GapThenTerm(s, p, g + 1, t);
      } else {
        forall g | 0 <= g <= budget ensures !GapThenTerm(s, p, g, t) {
          if g > 0 && GapThenTerm(s, p, g, t) {
            assert GapThenTerm(s, p + 1, g - 1, t);
          }
        }
      }
    } else {
      forall g | 0 <= g <= budget ensures !GapThenTerm(s, p, g, t) {
        if g > 0 && p + g <= |s| {
          assert IsClauseBreak(s[p]);
        }
      }
    }
  }

  /** Pattern 1 matches starting at `i`. */
  predicate ApplicantOwnershipAt(s: string, i: nat) {
    LiteralAt(s, i, "신청자") && TermWithin(s, i + 3, 30, Ownership)
  }

  /** Pattern 2 matches starting at `i`. */
  predicate OwnershipVerdictAt(s: string, i: nat) {
    var e := OwnershipTermEnd(s, i);
    e.Some? && TermWithin(s, e.value, 20, Verdict)
  }

  /** Pattern 3 matches starting at `i`. */
  predicate UnmetRequirementAt(s: string, i: nat) {
    LiteralAt(s, i, "무주택")
    && var j := SkipSpace(s, i + 3);
    LiteralAt(s, j, "요건") && TermWithin(s, j + 2, 10, Unmet)
  }

  /** `EXPLICIT_VIOLATION_PATTERNS.some((pattern) => pattern.test(s))`. */
  predicate MatchesExplicitViolation(s: string) {
    exists i :: 0 <= i < |s| && (ApplicantOwnershipAt(s, i) || OwnershipVerdictAt(s, i) || UnmetRequirementAt(s, i))
  }

  // ---------------------------------------------------------------------------
  // The three conditions of the chain.
  // ---------------------------------------------------------------------------

  /** Region, income or asset requirement is null; the household requirement is not consulted. */
  predicate HasMissingRequirementData(item: ParsedItem) {
    item.regionRequirement.None? || item.incomeRequirement.None? || item.assetRequirement.None?
  }

  /** Some parser failure reason starts with `AMBIGUOUS_RULE_TEXT`. */
  predicate HasAmbiguousRuleTextReason(reasons: seq<string>) {
    exists i :: 0 <= i < |reasons| && StartsWith(reasons[i], AmbiguousRuleTextPrefix)
  }

  /** Unknown application type, or any recorded ambiguity. */
  predicate HasUnknownOrAmbiguousContext(item: ParsedItem) {
    || item.applicationType == Unknown
    || |item.log.metadata.ambiguousFragments| > 0
    || HasAmbiguousRuleTextReason(item.log.metadata.failureReasons)
  }

  /** The non-null values of household requirement and eligibility rules text, joined by one space. */
  function LegalContext(item: ParsedItem): (ctx: string)
    ensures item.householdRequirement.None? && item.eligibilityRulesRaw.None? ==> ctx == []
    ensures item.householdRequirement.Some? && item.eligibilityRulesRaw.Some? ==>
      ctx == item.householdRequirement.value + " " + item.eligibilityRulesRaw.value
    ensures item.householdRequirement.Some? && item.eligibilityRulesRaw.None? ==> ctx == item.householdRequirement.value
    ensures item.householdRequirement.None? && item.eligibilityRulesRaw.Some? ==> ctx == item.eligibilityRulesRaw.value
  {
    match (item.householdRequirement, item.eligibilityRulesRaw)
    case (Some(h), Some(r)) => h + " " + r
    case (Some(h), None) => h
    case (None, Some(r)) => r
    case (None, None) => ""
  }

  /** An explicit-violation pattern matches the legal context (an empty context never does). */
  predicate HasLegalDisqualifyingSignal(item: ParsedItem): (b: bool)
    ensures b ==> item.householdRequirement.Some? || item.eligibilityRulesRaw.Some?
  {
    var ctx := LegalContext(item);
    |ctx| != 0 && MatchesExplicitViolation(ctx)
  }

  // ---------------------------------------------------------------------------
  // The chain and the cap pass.
  // ---------------------------------------------------------------------------

  /** The initial grade: legal signal, then unknown or ambiguous context, then missing data, then a conservative pass. */
  function EvaluateInitialGrade(item: ParsedItem): (d: Decision)
    ensures |d.reasons| == 1
    ensures d.grade != ConfirmedEligible
    ensures d.grade == Disqualified <==> HasLegalDisqualifyingSignal(item)
    ensures d.grade == Likely <==>
      !HasLegalDisqualifyingSignal(item) && !HasUnknownOrAmbiguousContext(item) && !HasMissingRequirementData(item)
  {
    if HasLegalDisqualifyingSignal(item) then
      Decision(Disqualified, [LegalViolationReason])
    else if HasUnknownOrAmbiguousContext(item) then
      Decision(ReviewNeeded, [UnknownOrAmbiguityReason])
    else if HasMissingRequirementData(item) then
      Decision(ReviewNeeded, [MissingDataReason])
    else
      Decision(Likely, [ConservativePassReason])
  }

  /** The parser's cap only ever downgrades 유력 or 확정 가능 to 검토필요, appending one reason. */
  function EnforceParserJudgementCap(item: ParsedItem, decision: Decision): (r: Decision)
    ensures item.judgementGradeCap == CapReviewNeeded ==> r.grade != Likely && r.grade != ConfirmedEligible
    ensures decision.reasons <= r.reasons && |r.reasons| <= |decision.reasons| + 1
    ensures r.grade == decision.grade || r.grade == ReviewNeeded
    ensures decision.grade == Disqualified || decision.grade == ReviewNeeded ==> r == decision
    ensures item.judgementGradeCap == CapConfirmable ==> r == decision
  {
    if item.judgementGradeCap != CapReviewNeeded then
      decision
    else if decision.grade == Likely || decision.grade == ConfirmedEligible then
      Decision(ReviewNeeded, decision.reasons + [ParserCapReason])
    else
      decision
  }

  /** One item through the chain and the cap pass. */
  function MatchItem(item: ParsedItem): (m: MatchedItem)
    ensures m.item == item
    ensures m.grade != ConfirmedEligible
    ensures item.judgementGradeCap == CapReviewNeeded ==> m.grade != Likely
    ensures 1 <= |m.reasons| <= 2
  {
    var d := EnforceParserJudgementCap(item, EvaluateInitialGrade(item));
    MatchedItem(item, d.grade, d.reasons)
  }

  /** `match`: one matched item per parsed item, in order. */
  function Match(items: seq<ParsedItem>): (r: seq<MatchedItem>)
    ensures |r| == |items|
    ensures forall i :: 0 <= i < |items| ==> r[i] == MatchItem(items[i])
    ensures forall i :: 0 <= i < |items| ==>
      && r[i].item == items[i]
      && r[i].grade != ConfirmedEligible
      && (items[i].judgementGradeCap == CapReviewNeeded ==> r[i].grade != Likely)
      && 1 <= |r[i].reasons| <= 2
  {
    seq(|items|, i requires 0 <= i < |items| => MatchItem(items[i]))
  }

  // ---------------------------------------------------------------------------
  // The branches of the chain, end to end.
  // ---------------------------------------------------------------------------

  /** A legal signal decides 부적합 whatever else holds, and the cap pass keeps it. */
  lemma LegalSignalDisqualifies(item: ParsedItem)
    requires HasLegalDisqualifyingSignal(item)
    ensures MatchItem(item).grade == Disqualified
    ensures MatchItem(item).reasons == [LegalViolationReason]
  {
  }

  /** With neither household requirement nor rules text there is no legal signal. */
  lemma NoLegalContextNoSignal(item: ParsedItem)
    requires item.householdRequirement.None? && item.eligibilityRulesRaw.None?
    ensures !HasLegalDisqualifyingSignal(item)
  {
  }

  /** Unknown type, an ambiguous fragment or an ambiguous-rule failure reason gives 검토필요 with one reason. */
  lemma UnknownOrAmbiguousNeedsReview(item: ParsedItem)
    requires !HasLegalDisqualifyingSignal(item)
    requires || item.applicationType == Unknown
             || |item.log.metadata.ambiguousFragments| > 0
             || HasAmbiguousRuleTextReason(item.log.metadata.failureReasons)
    ensures MatchItem(item).grade == ReviewNeeded
    ensures MatchItem(item).reasons == [UnknownOrAmbiguityReason]
  {
  }

  /** A null region, income or asset requirement gives 검토필요 with the missing-data reason. */
  lemma MissingDataNeedsReview(item: ParsedItem)
    requires !HasLegalDisqualifyingSignal(item) && !HasUnknownOrAmbiguousContext(item)
    requires item.regionRequirement.None? || item.incomeRequirement.None? || item.assetRequirement.None?
    ensures MatchItem(item).grade == ReviewNeeded
    ensures MatchItem(item).reasons == [MissingDataReason]
  {
  }

  /**
   * Otherwise the conservative pass applies (a null household requirement does not
   * prevent it), possibly capped by the parser.
   */
  lemma ConservativePass(item: ParsedItem)
    requires !HasLegalDisqualifyingSignal(item) && !HasUnknownOrAmbiguousContext(item)
    requires item.regionRequirement.Some? && item.incomeRequirement.Some? && item.assetRequirement.Some?
    ensures EvaluateInitialGrade(item) == Decision(Likely, [ConservativePassReason])
    ensures item.judgementGradeCap == CapConfirmable ==>
      MatchItem(item).grade == Likely && MatchItem(item).reasons == [ConservativePassReason]
    ensures item.judgementGradeCap == CapReviewNeeded ==>
      MatchItem(item).grade == ReviewNeeded && MatchItem(item).reasons == [ConservativePassReason, ParserCapReason]
  {
  }

  /** The cap pass, both ways: it changes the decision exactly when cap is 검토필요 and the grade is 유력 or 확정 가능. */
  lemma CapPassExactly(item: ParsedItem, d: Decision)
    ensures var r := EnforceParserJudgementCap(item, d);
      if item.judgementGradeCap == CapReviewNeeded && (d.grade == Likely || d.grade == ConfirmedEligible)
      then r == Decision(ReviewNeeded, d.reasons + [ParserCapReason])
      else r == d
  {
  }

  /** The only five outcomes the matcher can produce. */
  lemma MatchOutcomes(item: ParsedItem)
    ensures var m := MatchItem(item);
      || (m.grade == Disqualified && m.reasons == [LegalViolationReason])
      || (m.grade == ReviewNeeded && m.reasons == [UnknownOrAmbiguityReason])
      || (m.grade == ReviewNeeded && m.reasons == [MissingDataReason])
      || (m.grade == Likely && m.reasons == [ConservativePassReason])
      || (m.grade == ReviewNeeded && m.reasons == [ConservativePassReason, ParserCapReason])
  {
  }

  /** An ownership term contains 주택. */
  lemma OwnershipTermMentionsHousing(s: string, i: nat)
    requires OwnershipTermEnd(s, i).Some?
    ensures exists k :: i <= k < OwnershipTermEnd(s, i).value && LiteralAt(s, k, "주택")
  {
    if LiteralAt(s, i, "주택") {
    } else {
      var lit := if LiteralAt(s, i, "유주택") then "유주택"
        else if LiteralAt(s, i, "1주택") then "1주택"
        else if LiteralAt(s, i, "2주택") then "2주택"
        else "무주택";
      assert LiteralAt(s, i, lit);
      assert lit[1] == '주' && lit[2] == '택';
      assert s[i + 1] == lit[1] && s[i + 2] == lit[2];
      assert LiteralAt(s, i + 1, "주택");
    }
  }

  /** The applicant-context clause of the matcher tests is an explicit violation (pattern 1 at its start). */
  lemma ApplicantViolationIsDetected()
    ensures MatchesExplicitViolation("신청자 유주택 확인으로 무주택 요건 위반 판정")
  {
    var s := "신청자 유주택 확인으로 무주택 요건 위반 판정";
    assert s[0] == '신' && s[1] == '청' && s[2] == '자' && s[3] == ' ';
    assert s[4] == '유' && s[5] == '주' && s[6] == '택';
    assert LiteralAt(s, 0, "신청자");
    assert LiteralAt(s, 4, "유주택");
    assert TermAt(s, 4, Ownership);
    assert TermWithin(s, 4, 29, Ownership);
    assert !IsClauseBreak(s[3]);
    assert TermWithin(s, 3, 30, Ownership);
    assert ApplicantOwnershipAt(s, 0);
  }

  /** Every explicit-violation pattern needs 주택 in the text: boilerplate without it never disqualifies. */
  lemma ViolationMentionsHousing(s: string)
    requires MatchesExplicitViolation(s)
    ensures exists k :: 0 <= k < |s| && LiteralAt(s, k, "주택")
  {
    var i :| 0 <= i < |s| && (ApplicantOwnershipAt(s, i) || OwnershipVerdictAt(s, i) || UnmetRequirementAt(s, i));
    if ApplicantOwnershipAt(s, i) {
      ApplicantPatternMentionsHousing(s, i);
    } else if OwnershipVerdictAt(s, i) {
      OwnershipTermMentionsHousing(s, i);
    } else {
      UnmetPatternMentionsHousing(s, i);
    }
  }

  /** Pattern 1 contains an ownership term, hence 주택. */
  lemma ApplicantPatternMentionsHousing(s: string, i: nat)
    requires ApplicantOwnershipAt(s, i)
    ensures exists k :: i <= k < |s| && LiteralAt(s, k, "주택")
  {
    TermWithinMeaning(s, i + 3, 30, Ownership);
    var g :| 0 <= g <= 30 && GapThenTerm(s, i + 3, g, Ownership);
    OwnershipTermMentionsHousing(s, i + 3 + g);
  }

  /** Pattern 3 starts with 무주택, which contains 주택. */
  lemma UnmetPatternMentionsHousing(s: string, i: nat)
    requires LiteralAt(s, i, "무주택")
    ensures i + 1 < |s| && LiteralAt(s, i + 1, "주택")
  {
    LiteralAtMeaning(s, i, "무주택");
    assert s[i + 1] == '주' && s[i + 2] == '택';
  }

  /** A merely descriptive exclusion clause is not an explicit violation. */
  lemma DescriptiveExclusionIsNotDetected()
    ensures !MatchesExplicitViolation("유주택 세대 제외")
  {
    var s := "유주택 세대 제외";
    assert s[0] == '유' && s[1] == '주' && s[2] == '택' && s[3] == ' ' && s[4] == '세';
    assert s[5] == '대' && s[6] == ' ' && s[7] == '제' && s[8] == '외' && |s| == 9;
    forall i | 0 <= i < |s|
      ensures !ApplicantOwnershipAt(s, i) && !OwnershipVerdictAt(s, i) && !UnmetRequirementAt(s, i)
    {
      if i == 0 {
        assert OwnershipTermEnd(s, 0) == Some(3);
        assert !TermWithin(s, 3, 20, Verdict);
      } else if i == 1 {
        assert SkipSpace(s, 3) == 4 && !LiteralAt(s, 4, "소유");
      } else {
        assert !LiteralAt(s, i, "신청자") && !LiteralAt(s, i, "무주택");
        assert OwnershipTermEnd(s, i) == None;
      }
    }
  }
}
