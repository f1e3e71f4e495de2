/**
 * The `scope-governance` rule that pull-request titles are linted with: the
 * scope of a conventional-commit title must be an issue reference `#<digits>`
 * or one of the repository's domain scopes.
 */
module PrTitle {
  import opened Text

  /** The parsed scope handed to the rule: a string, or anything else (no scope at all). */
  datatype Scope = ScopeText(text: string) | NoScope

  /** A commitlint rule outcome: whether the title passes and the message shown. */
  datatype RuleOutcome = RuleOutcome(valid: bool, message: string)

  const EmptyScopeMessage: string := "PR 제목 스코프는 비워둘 수 없습니다."
  const AcceptedScopeMessage: string := "PR 제목 스코프는 #이슈번호 또는 허용된 도메인 스코프여야 합니다."
  const RejectedScopeMessage: string :=
    "PR 제목 스코프는 #이슈번호 또는 허용된 도메인 스코프(docs/workflow/policy/ops/parser/collector/notifier/storage/ci/deps)여야 합니다."

  const AllowedScopes: set<string> :=
    {"docs", "workflow", "policy", "ops", "parser", "collector", "notifier", "storage", "ci", "deps"}

  /** `/^#\d+$/`: a `#` followed by one or more ASCII digits and nothing else. */
  predicate IsIssueScope(scope: string) {
    |scope| >= 2 && scope[0] == '#' && forall i :: 1 <= i < |scope| ==> IsDigit(scope[i])
  }

  /** The `scope-governance` rule. The scope is tested as given: only the emptiness test trims it. */
  function ScopeGovernance(scope: Scope): (r: RuleOutcome)
    ensures r.valid <==> scope.ScopeText? && !IsBlank(scope.text) && (IsIssueScope(scope.text) || scope.text in AllowedScopes)
    ensures (scope.NoScope? || IsBlank(scope.text)) ==> r == RuleOutcome(false, EmptyScopeMessage)
    ensures r.valid ==> r.message == AcceptedScopeMessage
    ensures scope.ScopeText? && !IsBlank(scope.text) && !r.valid ==> r.message == RejectedScopeMessage
  {
    match scope
    case NoScope => RuleOutcome(false, EmptyScopeMessage)
    case ScopeText(s) =>
      if Trim(s) == [] then RuleOutcome(false, EmptyScopeMessage)
      else if IsIssueScope(s) || s in AllowedScopes then RuleOutcome(true, AcceptedScopeMessage)
      else RuleOutcome(false, RejectedScopeMessage)
  }

  /** No issue reference and no domain scope is blank, so the blank test rejects nothing the rule would accept. */
  lemma AcceptedScopesAreNotBlank(s: string)
    requires IsIssueScope(s) || s in AllowedScopes
    ensures !IsBlank(s)
  {
    if IsIssueScope(s) {
      assert !IsWhitespace(s[0]);
    } else {
      assert s[0] in {'d', 'w', 'p', 'o', 'c', 'n', 's'};
      assert !IsWhitespace(s[0]);
    }
  }

  /** `#12` is an issue reference and passes. */
  lemma IssueReferencePasses()
    ensures ScopeGovernance(ScopeText("#12")).valid
  {
    var s := "#12";
    assert !IsWhitespace(s[0]);
    assert IsIssueScope(s);
  }

  /** A bare `#`, a trailing letter and a padded reference are rejected. */
  lemma MalformedIssueReferencesFail()
    ensures !ScopeGovernance(ScopeText("#")).valid
    ensures !ScopeGovernance(ScopeText("#12a")).valid
    ensures !ScopeGovernance(ScopeText(" #12")).valid
  {
    assert !IsIssueScope("#12a") by {
      assert !IsDigit("#12a"[3]);
    }
    assert " #12" !in AllowedScopes;
    assert "#12a" !in AllowedScopes;
    assert "#" !in AllowedScopes;
  }

  /** `parser` passes exactly as listed. */
  lemma DomainScopePasses()
    ensures ScopeGovernance(ScopeText("parser")).valid
  {
    var s := "parser";
    assert !IsWhitespace(s[0]);
    assert s in AllowedScopes;
  }

  /** Surrounding white space, another case or an unlisted name is rejected. */
  lemma OtherScopesFail()
    ensures !ScopeGovernance(ScopeText(" parser")).valid
    ensures !ScopeGovernance(ScopeText("Parser")).valid
    ensures !ScopeGovernance(ScopeText("release")).valid
  {
    assert " parser" !in AllowedScopes;
    assert "Parser" !in AllowedScopes;
    assert "release" !in AllowedScopes;
  }
}
