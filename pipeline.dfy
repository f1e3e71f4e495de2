/**
 * The pure parts of the entry point (src/main.ts): validating a decoded user
 * profile, choosing where the profile comes from on the command line, the
 * profile id a run is recorded under, and the two runtime counts of a run.
 */
module Pipeline {
  import opened Wrappers
  import opened Text
  import Matcher

  datatype UserProfile = UserProfile(region: string, incomeBand: string, assetBand: string, householdType: string)

  /** The four profile fields, in the order they are validated. */
  datatype ProfileField = Region | IncomeBand | AssetBand | HouseholdType

  /** A field of the decoded JSON object: a string, or anything else (absent, null, a number, ...). */
  datatype JsonField = Text(text: string) | NotText

  /** The decoded profile JSON object, one entry per field. */
  datatype RawProfile = RawProfile(region: JsonField, incomeBand: JsonField, assetBand: JsonField, householdType: JsonField)

  /** `invalid UserProfile: <field> must be non-empty string`. */
  datatype ProfileError = InvalidProfileField(field: ProfileField)

  /** A field the validation accepts: a string that is not blank. */
  predicate IsValidField(value: JsonField) {
    value.Text? && !IsBlank(value.text)
  }

  /** `parseNonEmptyProfileField`: the trimmed string, or the error naming the field. */
  function ParseNonEmptyProfileField(value: JsonField, fieldName: ProfileField): (r: Result<string, ProfileError>)
    ensures r.Success? <==> IsValidField(value)
    ensures r.Success? ==> r.value == Trim(value.text) && r.value != [] && IsTrimmed(r.value)
    ensures r.Failure? ==> r.error == InvalidProfileField(fieldName)
  {
    match value
    case NotText => Failure(InvalidProfileField(fieldName))
    case Text(s) =>
      var normalized := Trim(s);
      if |normalized| == 0 then Failure(InvalidProfileField(fieldName)) else Success(normalized)
  }

  /** `parseUserProfile` over the decoded object: the four fields validated in order; the first invalid one is reported. */
  function ParseUserProfile(raw: RawProfile): (r: Result<UserProfile, ProfileError>)
    ensures r.Success? <==>
      IsValidField(raw.region) && IsValidField(raw.incomeBand) && IsValidField(raw.assetBand) && IsValidField(raw.householdType)
    ensures r.Success? ==>
      r.value == UserProfile(Trim(raw.region.text), Trim(raw.incomeBand.text), Trim(raw.assetBand.text), Trim(raw.householdType.text))
    ensures !IsValidField(raw.region) ==> r == Failure(InvalidProfileField(Region))
    ensures IsValidField(raw.region) && !IsValidField(raw.incomeBand) ==> r == Failure(InvalidProfileField(IncomeBand))
    ensures IsValidField(raw.region) && IsValidField(raw.incomeBand) && !IsValidField(raw.assetBand) ==>
      r == Failure(InvalidProfileField(AssetBand))
    ensures IsValidField(raw.region) && IsValidField(raw.incomeBand) && IsValidField(raw.assetBand) && !IsValidField(raw.householdType) ==>
      r == Failure(InvalidProfileField(HouseholdType))
  {
    match ParseNonEmptyProfileField(raw.region, Region)
    case Failure(e) => Failure(e)
    case Success(region) =>
      match ParseNonEmptyProfileField(raw.incomeBand, IncomeBand)
      case Failure(e) => Failure(e)
      case Success(incomeBand) =>
        match ParseNonEmptyProfileField(raw.assetBand, AssetBand)
        case Failure(e) => Failure(e)
        case Success(assetBand) =>
          match ParseNonEmptyProfileField(raw.householdType, HouseholdType)
          case Failure(e) => Failure(e)
          case Success(householdType) => Success(UserProfile(region, incomeBand, assetBand, householdType))
  }

  /** A profile of four blank strings is rejected for its region. */
  lemma AllBlankProfileReportsRegion()
    ensures ParseUserProfile(RawProfile(Text(""), Text(""), Text(""), Text(""))) == Failure(InvalidProfileField(Region))
  {
  }

  // ---------------------------------------------------------------------------
  // Choosing the profile source from argv.
  // ---------------------------------------------------------------------------

  /** `argv.indexOf(x)`: the first index holding `x`, or -1. */
  function IndexOf(argv: seq<string>, x: string): (r: int)
    ensures -1 <= r < |argv|
    ensures r == -1 <==> x !in argv
    ensures r >= 0 ==> argv[r] == x && forall j :: 0 <= j < r ==> argv[j] != x
  {
    if |argv| == 0 then -1
    else if argv[0] == x then 0
    else
      var r := IndexOf(argv[1..], x);
      assert forall j :: 0 <= j < |argv| - 1 ==> argv[1..][j] == argv[j + 1];
      if r == -1 then -1 else r + 1
  }

  /** Where the profile comes from: JSON given inline, a file to read, or no profile. */
  datatype ProfileSource = ProfileJson(json: string) | ProfileFile(path: string) | NoProfile

  /** The flag `flag` is given and followed by an argument (`argv[i + 1] !== undefined`). */
  predicate FlagWithValue(argv: seq<string>, flag: string) {
    0 <= IndexOf(argv, flag) && IndexOf(argv, flag) + 1 < |argv|
  }

  /** The argument after the first occurrence of `flag`. */
  function FlagValue(argv: seq<string>, flag: string): string
    requires FlagWithValue(argv, flag)
  {
    argv[IndexOf(argv, flag) + 1]
  }

  /** The source choice of `resolveUserProfileFromArgs`: `--profile-json` first, then `--profile-file`. */
  function ResolveProfileSource(argv: seq<string>): (r: ProfileSource)
    ensures r.ProfileJson? <==> "--profile-json" in argv && IndexOf(argv, "--profile-json") < |argv| - 1
    ensures r.ProfileJson? ==>
      exists i :: 0 <= i < |argv| - 1 && argv[i] == "--profile-json" && "--profile-json" !in argv[..i] && r.json == argv[i + 1]
    ensures r.ProfileFile? <==> !r.ProfileJson? && "--profile-file" in argv && IndexOf(argv, "--profile-file") < |argv| - 1
    ensures r.ProfileFile? ==>
      exists i :: 0 <= i < |argv| - 1 && argv[i] == "--profile-file" && "--profile-file" !in argv[..i] && r.path == argv[i + 1]
  {
    if FlagWithValue(argv, "--profile-json") then
      FirstFlagValue(argv, "--profile-json");
      ProfileJson(FlagValue(argv, "--profile-json"))
    else if FlagWithValue(argv, "--profile-file") then
      FirstFlagValue(argv, "--profile-file");
      ProfileFile(FlagValue(argv, "--profile-file"))
    else NoProfile
  }

  /** No argument before the first occurrence of a flag is that flag. */
  lemma FirstFlagValue(argv: seq<string>, flag: string)
    requires flag in argv
    ensures flag !in argv[..IndexOf(argv, flag)]
  {
    var i := IndexOf(argv, flag);
    assert forall k :: 0 <= k < i ==> argv[..i][k] == argv[k];
  }

  /** Inline JSON wins over a profile file, wherever the two flags stand. */
  lemma ProfileJsonTakesPrecedence(argv: seq<string>, json: string, path: string, i: nat, j: nat)
    requires i + 1 < |argv| && argv[i] == "--profile-json" && argv[i + 1] == json
    requires "--profile-json" !in argv[..i]
    requires j + 1 < |argv| && argv[j] == "--profile-file" && argv[j + 1] == path
    ensures ResolveProfileSource(argv) == ProfileJson(json)
  {
    assert forall k :: 0 <= k < i ==> argv[..i][k] == argv[k];
  }

  /**
   * A flag given as the last argument has no value and is ignored (`argv[i + 1] === undefined`):
   * the choice falls through as if it were absent, unless the argument before it is the other
   * flag, which then takes it as its value.
   */
  lemma TrailingFlagIsIgnored(args: seq<string>, flag: string, other: string)
    requires {flag, other} == {"--profile-json", "--profile-file"}
    requires flag !in args && (args == [] || args[|args| - 1] != other)
    ensures ResolveProfileSource(args + [flag]) == ResolveProfileSource(args)
  {
    SameFlagValues(args, flag, other);
  }

  /** Appending a flag absent from `args` gives it no value and leaves the other flag's value as it was. */
  lemma SameFlagValues(args: seq<string>, flag: string, other: string)
    requires flag != other
    requires flag !in args && (args == [] || args[|args| - 1] != other)
    ensures !FlagWithValue(args + [flag], flag) && !FlagWithValue(args, flag)
    ensures FlagWithValue(args + [flag], other) == FlagWithValue(args, other)
    ensures FlagWithValue(args, other) ==> FlagValue(args + [flag], other) == FlagValue(args, other)
  {
    IndexOfExtended(args, flag, other);
    var i := IndexOf(args, other);
    if 0 <= i && i + 1 < |args| {
      assert (args + [flag])[i + 1] == args[i + 1];
    }
  }

  /** Appending one argument moves no first occurrence of another value. */
  lemma IndexOfExtended(args: seq<string>, flag: string, other: string)
    requires flag != other
    ensures IndexOf(args + [flag], other) == IndexOf(args, other)
    ensures flag !in args ==> IndexOf(args + [flag], flag) == |args|
  {
    var argv := args + [flag];
    assert forall k :: 0 <= k < |args| ==> argv[k] == args[k];
  }

  /** A trailing `--profile-json` becomes the value of a `--profile-file` just before it. */
  lemma TrailingFlagAsValue()
    ensures ResolveProfileSource(["--profile-file", "--profile-json"]) == ProfileFile("--profile-json")
  {
    var argv := ["--profile-file", "--profile-json"];
    assert IndexOf(argv, "--profile-json") == 1;
    assert IndexOf(argv, "--profile-file") == 0;
  }

  /** Neither flag: no profile. */
  lemma NoFlagNoProfile(argv: seq<string>)
    requires "--profile-json" !in argv && "--profile-file" !in argv
    ensures ResolveProfileSource(argv) == NoProfile
  {
  }

  // ---------------------------------------------------------------------------
  // The profile id.
  // ---------------------------------------------------------------------------

  const AnonymousProfileId: string := "anonymous-profile"

  /** `region|incomeBand|assetBand|householdType`, or `anonymous-profile` without a profile. */
  function ProfileId(profile: Option<UserProfile>): (id: string)
    ensures profile.None? ==> id == AnonymousProfileId
    ensures profile.Some? <==> '|' in id
  {
    match profile
    case None =>
      assert '|' !in AnonymousProfileId;
      AnonymousProfileId
    case Some(p) =>
      var id := p.region + "|" + (p.incomeBand + "|" + (p.assetBand + "|" + p.householdType));
      assert id[|p.region|] == '|';
      id
  }

  /** No profile id of a real profile is the anonymous id: it holds a `|`, which the anonymous id does not. */
  lemma ProfileIdIsNeverAnonymous(p: UserProfile)
    ensures ProfileId(Some(p)) != AnonymousProfileId
  {
    var id := ProfileId(Some(p));
    var k := |p.region|;
    assert id[k] == '|';
    assert '|' in id;
    assert '|' !in AnonymousProfileId;
  }

  /** In `a + "|" + b` with a bar-free `a`, the first bar stands at `|a|`. */
  lemma FirstBarAt(a: string, b: string)
    requires '|' !in a
    ensures (a + "|" + b)[|a|] == '|'
    ensures forall k :: 0 <= k < |a| ==> (a + "|" + b)[k] != '|'
  {
    forall k | 0 <= k < |a| ensures (a + "|" + b)[k] != '|' {
      assert (a + "|" + b)[k] == a[k];
    }
  }

  /** Joining two bar-free parts at a bar can be undone. */
  lemma {:induction false} SplitAtBar(a: string, b: string, c: string, d: string)
    requires '|' !in a && '|' !in c
    requires a + "|" + b == c + "|" + d
    ensures a == c && b == d
  {
    var s := a + "|" + b;
    FirstBarAt(a, b);
    FirstBarAt(c, d);
    assert |a| == |c|;
    assert a == s[..|a|] == c;
    assert b == s[|a| + 1..] == d;
  }

  /** The profile id tells profiles apart as long as no field holds a `|`. */
  lemma ProfileIdIsInjective(p: UserProfile, q: UserProfile)
    requires '|' !in p.region && '|' !in p.incomeBand && '|' !in p.assetBand
    requires '|' !in q.region && '|' !in q.incomeBand && '|' !in q.assetBand
    requires ProfileId(Some(p)) == ProfileId(Some(q))
    ensures p == q
  {
    var pRest := p.assetBand + "|" + p.householdType;
    var qRest := q.assetBand + "|" + q.householdType;
    var pTail := p.incomeBand + "|" + pRest;
    var qTail := q.incomeBand + "|" + qRest;
    SplitAtBar(p.region, pTail, q.region, qTail);
    SplitAtBar(p.incomeBand, pRest, q.incomeBand, qRest);
    SplitAtBar(p.assetBand, p.householdType, q.assetBand, q.householdType);
  }

  // ---------------------------------------------------------------------------
  // Runtime counts of a run.
  // ---------------------------------------------------------------------------

  /** `hasRequiredFieldsComplete`: all four requirement fields are present. */
  predicate HasRequiredFieldsComplete(item: Matcher.ParsedItem): (b: bool)
    ensures b <==> !Matcher.HasMissingRequirementData(item) && item.householdRequirement.Some?
  {
    && item.regionRequirement.Some?
    && item.householdRequirement.Some?
    && item.incomeRequirement.Some?
    && item.assetRequirement.Some?
  }

  /** An item with every requirement field never takes the matcher's missing-data branch. */
  lemma CompleteItemsHaveNoMissingData(item: Matcher.ParsedItem)
    requires HasRequiredFieldsComplete(item)
    ensures !Matcher.HasMissingRequirementData(item)
    ensures Matcher.MatchItem(item).reasons[0] != Matcher.MissingDataReason
  {
    Matcher.MatchOutcomes(item);
  }

  /** The number of matched items whose four requirement fields are present. */
  function RequiredFieldsCompleteCount(items: seq<Matcher.MatchedItem>): (n: nat)
    ensures n <= |items|
    ensures n == |items| <==> forall i :: 0 <= i < |items| ==> HasRequiredFieldsComplete(items[i].item)
    ensures n == 0 <==> forall i :: 0 <= i < |items| ==> !HasRequiredFieldsComplete(items[i].item)
  {
    if items == [] then 0
    else
      var last := |items| - 1;
      var rest := RequiredFieldsCompleteCount(items[..last]);
      assert forall i :: 0 <= i < last ==> items[..last][i] == items[i];
      rest + if HasRequiredFieldsComplete(items[last].item) then 1 else 0
  }

  /** The number of matched items graded review-needed. */
  function ReviewNeededCount(items: seq<Matcher.MatchedItem>): (n: nat)
    ensures n <= |items|
    ensures n == |items| <==> forall i :: 0 <= i < |items| ==> items[i].grade == Matcher.ReviewNeeded
    ensures n == 0 <==> forall i :: 0 <= i < |items| ==> items[i].grade != Matcher.ReviewNeeded
  {
    if items == [] then 0
    else
      var last := |items| - 1;
      var rest := ReviewNeededCount(items[..last]);
      assert forall i :: 0 <= i < last ==> items[..last][i] == items[i];
      rest + if items[last].grade == Matcher.ReviewNeeded then 1 else 0
  }

  /** When every parsed item is capped at review-needed and carries no legal signal, every matched item counts as review-needed. */
  lemma CappedRunIsAllReview(items: seq<Matcher.ParsedItem>)
    requires forall i :: 0 <= i < |items| ==>
      items[i].judgementGradeCap == Matcher.CapReviewNeeded && !Matcher.HasLegalDisqualifyingSignal(items[i])
    ensures ReviewNeededCount(Matcher.Match(items)) == |items|
  {
    var matched := Matcher.Match(items);
    forall i | 0 <= i < |matched| ensures matched[i].grade == Matcher.ReviewNeeded {
      Matcher.MatchOutcomes(items[i]);
    }
  }
}
