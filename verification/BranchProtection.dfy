/** scripts/check_branch_protection_policy.py: the offline check of the policy document, the
    comparison with live protection, and the gate that orders them. */
module BranchProtection {
  import opened Values
  import opened Ordering

  // ---------------------------------------------------------------- documents

  datatype Setting =
    | EnforceAdmins | RequiredLinearHistory | AllowForcePushes | AllowDeletions | RequiredConversationResolution
    | RestrictionsPresent | CodeownersPresent | LockBranch | RequiredSignatures | BlockCreations | AllowForkSyncing

  datatype ReviewSetting = ApprovingCount | DismissStale | CodeOwnerReviews | LastPushApproval

  datatype Category = Users | Teams | Apps | OtherCategory(name: string)

  datatype AuthorityKey = ReviewLead | MergeableMeaning | Escalation

  datatype ExceptionKey = FieldKey | ValueKey | ReasonKey | ControlsKey | RetiresKey | OtherExceptionKey(name: string)

  datatype TopKey = RepositoryKey | BranchKey | ExpectedKey | ExceptionsKey

  /** A documented exception: the keys it has, and whether its field is the approving count. */
  datatype ExceptionDoc = ExceptionDoc(keys: set<ExceptionKey>, aboutApprovals: bool)

  datatype Checks = Checks(strict: Option<Json>, contexts: Option<Json>)

  datatype Reviews = Reviews(
    present: Option<Json>, settings: map<ReviewSetting, Json>, bypass: Option<map<Category, Json>>)

  datatype Expected = Expected(settings: map<Setting, Json>, checks: Option<Checks>, reviews: Option<Reviews>)

  /** The policy document, with objects where the code expects objects; any key may be missing. */
  datatype Policy = Policy(
    repository: Option<Json>, protectedBranch: Option<Json>, authority: map<AuthorityKey, Json>,
    expected: Option<Expected>, exceptions: Option<seq<ExceptionDoc>>)

  const SETTINGS := [
    EnforceAdmins, RequiredLinearHistory, AllowForcePushes, AllowDeletions, RequiredConversationResolution,
    RestrictionsPresent, CodeownersPresent, LockBranch, RequiredSignatures, BlockCreations, AllowForkSyncing
  ]

  /** The settings required before and after the two blocks. */
  const EARLY_SETTINGS :=
    [EnforceAdmins, RequiredLinearHistory, AllowForcePushes, AllowDeletions, RequiredConversationResolution]

  const LATE_SETTINGS :=
    [RestrictionsPresent, CodeownersPresent, LockBranch, RequiredSignatures, BlockCreations, AllowForkSyncing]

  const AUTHORITY_KEYS := [ReviewLead, MergeableMeaning, Escalation]

  const REVIEW_SETTINGS := [ApprovingCount, DismissStale, CodeOwnerReviews, LastPushApproval]

  const BOOLEAN_REVIEW_SETTINGS := [DismissStale, CodeOwnerReviews, LastPushApproval]

  const BYPASS_CATEGORIES := [Users, Teams, Apps]

  const REQUIRED_EXCEPTION_KEYS := {FieldKey, ValueKey, ReasonKey, ControlsKey, RetiresKey}

  datatype Issue =
    | RepositoryBlank | KeyMissing(key: TopKey) | AuthorityUndocumented(authority: AuthorityKey)
    | SettingMissing(setting: Setting) | ChecksMissing | ReviewsMissing
    | StrictMissing | ContextsMissing | ContextsNotStrings | ContextsEmpty | StrictNotBoolean
    | SettingNotBoolean(setting: Setting)
    | PresenceMissing | PresenceNotBoolean | ReviewMissing(review: ReviewSetting) | BypassMissing
    | ReviewNotBoolean(review: ReviewSetting) | CountNotInteger
    | CategoryMissing(category: Category) | CategoryNotList(category: Category)
    | ExceptionIncomplete(missing: set<ExceptionKey>) | ZeroApprovalsUndocumented

  // ---------------------------------------------------------------- the offline check

  /** `for key in keys: if bad(key): issues.append(issue(key))` */
  function Flag<K>(keys: seq<K>, bad: K -> bool, issue: K -> Issue): seq<Issue> {
    if keys == [] then []
    else
      var last := keys[|keys| - 1];
      var init := Flag(keys[..|keys| - 1], bad, issue);
      if bad(last) then init + [issue(last)] else init
  }

  method FlagKeys<K>(issues: seq<Issue>, keys: seq<K>, bad: K -> bool, issue: K -> Issue) returns (more: seq<Issue>)
    ensures more == issues + Flag(keys, bad, issue)
  {
    more := issues;
    for i := 0 to |keys|
      invariant more == issues + Flag(keys[..i], bad, issue)
    {
      assert keys[..i + 1][..i] == keys[..i];
      if bad(keys[i]) {
        more := more + [issue(keys[i])];
      }
    }
    assert keys[..|keys|] == keys;
  }

  lemma {:induction false} FlagEmpty<K>(keys: seq<K>, bad: K -> bool, issue: K -> Issue)
    ensures Flag(keys, bad, issue) == [] <==> forall i | 0 <= i < |keys| :: !bad(keys[i])
  {
    if keys != [] {
      FlagEmpty(keys[..|keys| - 1], bad, issue);
    }
  }

  function When(condition: bool, issue: Issue): seq<Issue> {
    if condition then [issue] else []
  }

  /** str(value) is blank: only a blank string is, as str(None) is "None" and str({}) is "{}". */
  predicate BlankText(value: Json) {
    value.Str? && Strip(value.text) == ""
  }

  predicate Blank(value: Option<Json>) {
    value.None? || BlankText(value.value)
  }

  predicate IsStrings(j: Json) {
    j.List? && forall i | 0 <= i < |j.items| :: j.items[i].Str?
  }

  function ReviewValue(reviews: Reviews, review: ReviewSetting): Json {
    if review in reviews.settings then reviews.settings[review] else Null
  }

  function ExpectedOf(policy: Policy): Expected {
    if policy.expected.Some? then policy.expected.value else Expected(map[], None, None)
  }

  function ReviewsOf(expected: Expected): Reviews {
    if expected.reviews.Some? then expected.reviews.value else Reviews(None, map[], None)
  }

  function ExceptionsOf(policy: Policy): seq<ExceptionDoc> {
    if policy.exceptions.Some? then policy.exceptions.value else []
  }

  function Undocumented(policy: Policy): AuthorityKey -> bool {
    k => k !in policy.authority || BlankText(policy.authority[k])
  }

  function AuthorityIssue(k: AuthorityKey): Issue { AuthorityUndocumented(k) }

  function TopIssues(policy: Policy): seq<Issue> {
    When(Blank(policy.repository), RepositoryBlank)
    + When(policy.repository.None?, KeyMissing(RepositoryKey))
    + When(policy.protectedBranch.None?, KeyMissing(BranchKey))
    + When(policy.expected.None?, KeyMissing(ExpectedKey))
    + When(policy.exceptions.None?, KeyMissing(ExceptionsKey))
    + Flag(AUTHORITY_KEYS, Undocumented(policy), AuthorityIssue)
  }

  function Undeclared(expected: Expected): Setting -> bool {
    s => s !in expected.settings
  }

  function UndeclaredIssue(s: Setting): Issue { SettingMissing(s) }

  function NotBoolean(expected: Expected): Setting -> bool {
    s => s in expected.settings && !expected.settings[s].Bool?
  }

  function NotBooleanIssue(s: Setting): Issue { SettingNotBoolean(s) }

  function ChecksIssues(checks: Checks): seq<Issue> {
    When(checks.strict.None?, StrictMissing)
    + When(checks.contexts.None?, ContextsMissing)
    + (if checks.contexts.None? then []
       else if !IsStrings(checks.contexts.value) then [ContextsNotStrings]
       else When(checks.contexts.value.items == [], ContextsEmpty))
    + When(checks.strict.Some? && !checks.strict.value.Bool?, StrictNotBoolean)
  }

  function ChecksOf(expected: Expected): Checks {
    if expected.checks.Some? then expected.checks.value else Checks(None, None)
  }

  function IssuesOver(expected: Expected, early: seq<Setting>, late: seq<Setting>, all: seq<Setting>): seq<Issue> {
    Flag(early, Undeclared(expected), UndeclaredIssue)
    + When(expected.checks.None?, ChecksMissing)
    + When(expected.reviews.None?, ReviewsMissing)
    + Flag(late, Undeclared(expected), UndeclaredIssue)
    + ChecksIssues(ChecksOf(expected))
    + Flag(all, NotBoolean(expected), NotBooleanIssue)
  }

  function ExpectedIssues(expected: Expected): seq<Issue> {
    IssuesOver(expected, EARLY_SETTINGS, LATE_SETTINGS, SETTINGS)
  }

  function ReviewUndeclared(reviews: Reviews): ReviewSetting -> bool {
    r => r !in reviews.settings
  }

  function ReviewUndeclaredIssue(r: ReviewSetting): Issue { ReviewMissing(r) }

  function ReviewNotBool(reviews: Reviews): ReviewSetting -> bool {
    r => r in reviews.settings && !reviews.settings[r].Bool?
  }

  function ReviewNotBoolIssue(r: ReviewSetting): Issue { ReviewNotBoolean(r) }

  function BypassOf(reviews: Reviews): map<Category, Json> {
    if reviews.bypass.Some? then reviews.bypass.value else map[]
  }

  function CategoryBad(bypass: map<Category, Json>): Category -> bool {
    c => c !in bypass || !bypass[c].List?
  }

  function CategoryIssue(bypass: map<Category, Json>): Category -> Issue {
    c => if c !in bypass then CategoryMissing(c) else CategoryNotList(c)
  }

  /** The checks made when the review block is declared present. */
  function PresentReviewIssues(
      reviews: Reviews, present: Json, settings: seq<ReviewSetting>, booleans: seq<ReviewSetting>,
      categories: seq<Category>)
    : seq<Issue>
  {
    var count := ReviewValue(reviews, ApprovingCount);
    Flag(settings, ReviewUndeclared(reviews), ReviewUndeclaredIssue)
    + When(reviews.bypass.None?, BypassMissing)
    + When(!present.Bool?, PresenceNotBoolean)
    + Flag(booleans, ReviewNotBool(reviews), ReviewNotBoolIssue)
    + When(!count.Null? && !count.Int?, CountNotInteger)
    + Flag(categories, CategoryBad(BypassOf(reviews)), CategoryIssue(BypassOf(reviews)))
  }

  function ReviewIssues(reviews: Reviews): seq<Issue> {
    if reviews.present.None? then [PresenceMissing]
    else if !Truthy(reviews.present.value) then []
    else
      PresentReviewIssues(
        reviews, reviews.present.value, REVIEW_SETTINGS, BOOLEAN_REVIEW_SETTINGS, BYPASS_CATEGORIES)
  }

  function Incomplete(): ExceptionDoc -> bool {
    (e: ExceptionDoc) => !(REQUIRED_EXCEPTION_KEYS <= e.keys)
  }

  function IncompleteIssue(e: ExceptionDoc): Issue {
    ExceptionIncomplete(REQUIRED_EXCEPTION_KEYS - e.keys)
  }

  predicate ZeroUndocumented(policy: Policy) {
    && PyEq(ReviewValue(ReviewsOf(ExpectedOf(policy)), ApprovingCount), Int(0))
    && !exists i | 0 <= i < |ExceptionsOf(policy)| :: ExceptionsOf(policy)[i].aboutApprovals
  }

  function ExceptionIssues(policy: Policy): seq<Issue> {
    Flag(ExceptionsOf(policy), Incomplete(), IncompleteIssue)
    + When(ZeroUndocumented(policy), ZeroApprovalsUndocumented)
  }

  function PolicyIssues(policy: Policy): seq<Issue> {
    TopIssues(policy) + ExpectedIssues(ExpectedOf(policy)) + ReviewIssues(ReviewsOf(ExpectedOf(policy)))
    + ExceptionIssues(policy)
  }

  method SettingsSection(expected: Expected, early: seq<Setting>, late: seq<Setting>, all: seq<Setting>)
    returns (issues: seq<Issue>)
    ensures issues == IssuesOver(expected, early, late, all)
  {
    issues := FlagKeys([], early, Undeclared(expected), UndeclaredIssue);
    assert issues == Flag(early, Undeclared(expected), UndeclaredIssue);
    issues := issues + When(expected.checks.None?, ChecksMissing) + When(expected.reviews.None?, ReviewsMissing);
    issues := FlagKeys(issues, late, Undeclared(expected), UndeclaredIssue);
    issues := issues + ChecksIssues(ChecksOf(expected));
    issues := FlagKeys(issues, all, NotBoolean(expected), NotBooleanIssue);
  }

  /** The settings and the status checks; nothing is reported exactly when all of them are there
      and typed. */
  method ExpectedSection(expected: Expected) returns (issues: seq<Issue>)
    ensures issues == ExpectedIssues(expected)
    ensures issues == [] <==> CompleteSettings(expected)
  {
    issues := SettingsSection(expected, EARLY_SETTINGS, LATE_SETTINGS, SETTINGS);
    NoExpectedIssues(expected);
  }

  method PresentReviewSection(
      reviews: Reviews, present: Json, settings: seq<ReviewSetting>, booleans: seq<ReviewSetting>,
      categories: seq<Category>)
    returns (issues: seq<Issue>)
    ensures issues == PresentReviewIssues(reviews, present, settings, booleans, categories)
  {
    var count := ReviewValue(reviews, ApprovingCount);
    issues := FlagKeys([], settings, ReviewUndeclared(reviews), ReviewUndeclaredIssue);
    assert issues == Flag(settings, ReviewUndeclared(reviews), ReviewUndeclaredIssue);
    issues := issues + When(reviews.bypass.None?, BypassMissing) + When(!present.Bool?, PresenceNotBoolean);
    issues := FlagKeys(issues, booleans, ReviewNotBool(reviews), ReviewNotBoolIssue);
    issues := issues + When(!count.Null? && !count.Int?, CountNotInteger);
    issues := FlagKeys(issues, categories, CategoryBad(BypassOf(reviews)), CategoryIssue(BypassOf(reviews)));
  }

  /** The review block; nothing is reported exactly when it is declared, and complete if it is
      declared present. */
  method ReviewSection(reviews: Reviews) returns (issues: seq<Issue>)
    ensures issues == ReviewIssues(reviews)
    ensures issues == [] <==> CompleteReviews(reviews)
  {
    NoReviewIssues(reviews);
    if reviews.present.None? {
      return [PresenceMissing];
    }
    if !Truthy(reviews.present.value) {
      return [];
    }
    issues := PresentReviewSection(
      reviews, reviews.present.value, REVIEW_SETTINGS, BOOLEAN_REVIEW_SETTINGS, BYPASS_CATEGORIES);
  }

  /** The top-level keys and the review authority; nothing is reported exactly when all of them
      are there and none that must say something is blank. */
  method TopSection(policy: Policy) returns (issues: seq<Issue>)
    ensures issues == TopIssues(policy)
    ensures issues == [] <==> CompleteTop(policy)
  {
    issues := When(Blank(policy.repository), RepositoryBlank)
              + When(policy.repository.None?, KeyMissing(RepositoryKey))
              + When(policy.protectedBranch.None?, KeyMissing(BranchKey))
              + When(policy.expected.None?, KeyMissing(ExpectedKey))
              + When(policy.exceptions.None?, KeyMissing(ExceptionsKey));
    issues := FlagKeys(issues, AUTHORITY_KEYS, Undocumented(policy), AuthorityIssue);
    NoAuthorityIssues(policy);
  }

  /** The documented exceptions; nothing is reported exactly when each is complete and zero
      approvals, if required, are documented. */
  method ExceptionSection(policy: Policy) returns (issues: seq<Issue>)
    ensures issues == ExceptionIssues(policy)
    ensures issues == [] <==> CompleteExceptions(policy)
  {
    issues := FlagKeys([], ExceptionsOf(policy), Incomplete(), IncompleteIssue);
    issues := issues + When(ZeroUndocumented(policy), ZeroApprovalsUndocumented);
    NoExceptionIssues(ExceptionsOf(policy));
  }

  method ValidatePolicyDocument(policy: Policy) returns (issues: seq<Issue>)
    ensures issues == PolicyIssues(policy)
    ensures issues == [] <==> Complete(policy)
  {
    var top := TopSection(policy);
    var expected := ExpectedSection(ExpectedOf(policy));
    var reviews := ReviewSection(ReviewsOf(ExpectedOf(policy)));
    var exceptions := ExceptionSection(policy);
    issues := top + expected + reviews + exceptions;
    NoIssuesExactly(policy);
  }

  // ---------------------------------------------------------------- complete documents

  predicate CompleteReviews(reviews: Reviews) {
    && reviews.present.Some?
    && (Truthy(reviews.present.value) ==>
          && reviews.present.value == Bool(true)
          && (forall r: ReviewSetting :: r in reviews.settings && (r.ApprovingCount? || reviews.settings[r].Bool?))
          && (reviews.settings[ApprovingCount].Int? || reviews.settings[ApprovingCount].Null?)
          && reviews.bypass.Some?
          && forall c | c in {Users, Teams, Apps} :: c in reviews.bypass.value && reviews.bypass.value[c].List?)
  }

  predicate CompleteSettings(expected: Expected) {
    && (forall s: Setting :: s in expected.settings && expected.settings[s].Bool?)
    && expected.checks.Some? && expected.reviews.Some?
    && expected.checks.value.strict.Some? && expected.checks.value.strict.value.Bool?
    && expected.checks.value.contexts.Some? && IsStrings(expected.checks.value.contexts.value)
    && expected.checks.value.contexts.value.items != []
  }

  predicate CompleteExpected(expected: Expected) {
    CompleteSettings(expected) && CompleteReviews(expected.reviews.value)
  }

  predicate CompleteTop(policy: Policy) {
    && !Blank(policy.repository) && policy.protectedBranch.Some? && policy.expected.Some? && policy.exceptions.Some?
    && (forall k: AuthorityKey :: k in policy.authority && !BlankText(policy.authority[k]))
  }

  predicate CompleteExceptions(policy: Policy) {
    var exceptions := ExceptionsOf(policy);
    && (forall i | 0 <= i < |exceptions| :: REQUIRED_EXCEPTION_KEYS <= exceptions[i].keys)
    && !ZeroUndocumented(policy)
  }

  /** A document complete enough to gate against. */
  predicate Complete(policy: Policy) {
    CompleteTop(policy) && CompleteExpected(policy.expected.value) && CompleteExceptions(policy)
  }

  /** Every key of an enumeration is among the keys a loop goes through. */
  ghost predicate Among<K>(keys: seq<K>, k: K) {
    exists i :: 0 <= i < |keys| && keys[i] == k
  }

  lemma FlagEmptyAmong<K(!new)>(keys: seq<K>, bad: K -> bool, issue: K -> Issue)
    ensures Flag(keys, bad, issue) == [] <==> forall k | Among(keys, k) :: !bad(k)
  {
    FlagEmpty(keys, bad, issue);
    assert forall i | 0 <= i < |keys| :: Among(keys, keys[i]);
  }

  lemma AllSettings(s: Setting)
    ensures Among(SETTINGS, s) && (Among(EARLY_SETTINGS, s) || Among(LATE_SETTINGS, s))
  {
    match s
    case EnforceAdmins => assert SETTINGS[0] == s && EARLY_SETTINGS[0] == s;
    case RequiredLinearHistory => assert SETTINGS[1] == s && EARLY_SETTINGS[1] == s;
    case AllowForcePushes => assert SETTINGS[2] == s && EARLY_SETTINGS[2] == s;
    case AllowDeletions => assert SETTINGS[3] == s && EARLY_SETTINGS[3] == s;
    case RequiredConversationResolution => assert SETTINGS[4] == s && EARLY_SETTINGS[4] == s;
    case RestrictionsPresent => assert SETTINGS[5] == s && LATE_SETTINGS[0] == s;
    case CodeownersPresent => assert SETTINGS[6] == s && LATE_SETTINGS[1] == s;
    case LockBranch => assert SETTINGS[7] == s && LATE_SETTINGS[2] == s;
    case RequiredSignatures => assert SETTINGS[8] == s && LATE_SETTINGS[3] == s;
    case BlockCreations => assert SETTINGS[9] == s && LATE_SETTINGS[4] == s;
    case AllowForkSyncing => assert SETTINGS[10] == s && LATE_SETTINGS[5] == s;
  }

  lemma NoSettingIssues(expected: Expected)
    ensures && Flag(EARLY_SETTINGS, Undeclared(expected), UndeclaredIssue) == []
            && Flag(LATE_SETTINGS, Undeclared(expected), UndeclaredIssue) == []
            && Flag(SETTINGS, NotBoolean(expected), NotBooleanIssue) == []
       <==> forall s: Setting :: s in expected.settings && expected.settings[s].Bool?
  {
    FlagEmptyAmong(EARLY_SETTINGS, Undeclared(expected), UndeclaredIssue);
    FlagEmptyAmong(LATE_SETTINGS, Undeclared(expected), UndeclaredIssue);
    FlagEmptyAmong(SETTINGS, NotBoolean(expected), NotBooleanIssue);
    var undeclared, notBoolean := Undeclared(expected), NotBoolean(expected);
    forall s: Setting
      ensures !notBoolean(s) && !undeclared(s) <==> s in expected.settings && expected.settings[s].Bool?
      ensures Among(SETTINGS, s) && (Among(EARLY_SETTINGS, s) || Among(LATE_SETTINGS, s))
    {
      AllSettings(s);
    }
  }

  lemma NoAuthorityIssues(policy: Policy)
    ensures Flag(AUTHORITY_KEYS, Undocumented(policy), AuthorityIssue) == []
       <==> forall k: AuthorityKey :: k in policy.authority && !BlankText(policy.authority[k])
  {
    FlagEmptyAmong(AUTHORITY_KEYS, Undocumented(policy), AuthorityIssue);
    var undocumented := Undocumented(policy);
    forall k: AuthorityKey
      ensures Among(AUTHORITY_KEYS, k)
      ensures !undocumented(k) <==> k in policy.authority && !BlankText(policy.authority[k])
    {
      match k
      case ReviewLead => assert AUTHORITY_KEYS[0] == k;
      case MergeableMeaning => assert AUTHORITY_KEYS[1] == k;
      case Escalation => assert AUTHORITY_KEYS[2] == k;
    }
  }

  lemma NoReviewSettingIssues(reviews: Reviews)
    ensures && Flag(REVIEW_SETTINGS, ReviewUndeclared(reviews), ReviewUndeclaredIssue) == []
            && Flag(BOOLEAN_REVIEW_SETTINGS, ReviewNotBool(reviews), ReviewNotBoolIssue) == []
       <==> forall r: ReviewSetting :: r in reviews.settings && (r.ApprovingCount? || reviews.settings[r].Bool?)
  {
    FlagEmptyAmong(REVIEW_SETTINGS, ReviewUndeclared(reviews), ReviewUndeclaredIssue);
    FlagEmptyAmong(BOOLEAN_REVIEW_SETTINGS, ReviewNotBool(reviews), ReviewNotBoolIssue);
    var undeclared, notBool := ReviewUndeclared(reviews), ReviewNotBool(reviews);
    forall r: ReviewSetting
      ensures Among(REVIEW_SETTINGS, r) && (Among(BOOLEAN_REVIEW_SETTINGS, r) <==> !r.ApprovingCount?)
      ensures !undeclared(r) && !(notBool(r) && !r.ApprovingCount?)
              <==> r in reviews.settings && (r.ApprovingCount? || reviews.settings[r].Bool?)
    {
      match r
      case ApprovingCount => assert REVIEW_SETTINGS[0] == r;
      case DismissStale => assert REVIEW_SETTINGS[1] == r && BOOLEAN_REVIEW_SETTINGS[0] == r;
      case CodeOwnerReviews => assert REVIEW_SETTINGS[2] == r && BOOLEAN_REVIEW_SETTINGS[1] == r;
      case LastPushApproval => assert REVIEW_SETTINGS[3] == r && BOOLEAN_REVIEW_SETTINGS[2] == r;
    }
  }

  lemma NoCategoryIssues(bypass: map<Category, Json>)
    ensures Flag(BYPASS_CATEGORIES, CategoryBad(bypass), CategoryIssue(bypass)) == []
       <==> forall c | c in {Users, Teams, Apps} :: c in bypass && bypass[c].List?
  {
    FlagEmptyAmong(BYPASS_CATEGORIES, CategoryBad(bypass), CategoryIssue(bypass));
    forall c ensures Among(BYPASS_CATEGORIES, c) <==> c in {Users, Teams, Apps} {
      assert BYPASS_CATEGORIES[0] == Users && BYPASS_CATEGORIES[1] == Teams && BYPASS_CATEGORIES[2] == Apps;
    }
  }

  lemma NoReviewIssues(reviews: Reviews)
    ensures ReviewIssues(reviews) == [] <==> CompleteReviews(reviews)
  {
    NoReviewSettingIssues(reviews);
    NoCategoryIssues(BypassOf(reviews));
  }

  lemma NoExceptionIssues(exceptions: seq<ExceptionDoc>)
    ensures Flag(exceptions, Incomplete(), IncompleteIssue) == []
       <==> forall i | 0 <= i < |exceptions| :: REQUIRED_EXCEPTION_KEYS <= exceptions[i].keys
  {
    FlagEmpty(exceptions, Incomplete(), IncompleteIssue);
    var incomplete := Incomplete();
    assert forall i | 0 <= i < |exceptions| ::
        incomplete(exceptions[i]) <==> !(REQUIRED_EXCEPTION_KEYS <= exceptions[i].keys);
  }

  lemma NoExpectedIssues(expected: Expected)
    ensures ExpectedIssues(expected) == [] <==> CompleteSettings(expected)
  {
    NoSettingIssues(expected);
  }

  /** The offline check reports nothing exactly on the complete documents. */
  lemma NoIssuesExactly(policy: Policy)
    ensures PolicyIssues(policy) == [] <==> Complete(policy)
  {
    NoAuthorityIssues(policy);
    NoExpectedIssues(ExpectedOf(policy));
    NoReviewIssues(ReviewsOf(ExpectedOf(policy)));
    NoExceptionIssues(ExceptionsOf(policy));
  }

  // ---------------------------------------------------------------- which issues are reported

  /** What each issue says of the document. */
  ghost predicate Reported(policy: Policy, x: Issue) {
    match x
    case RepositoryBlank => Blank(policy.repository)
    case KeyMissing(RepositoryKey) => policy.repository.None?
    case KeyMissing(BranchKey) => policy.protectedBranch.None?
    case KeyMissing(ExpectedKey) => policy.expected.None?
    case KeyMissing(ExceptionsKey) => policy.exceptions.None?
    case AuthorityUndocumented(k) => k !in policy.authority || BlankText(policy.authority[k])
    case ExceptionIncomplete(missing) =>
      missing != {} && exists e :: e in ExceptionsOf(policy) && missing == REQUIRED_EXCEPTION_KEYS - e.keys
    case ZeroApprovalsUndocumented => ZeroUndocumented(policy)
    case _ =>
      || ExpectedReported(ExpectedOf(policy), x)
      || ReviewReported(ReviewsOf(ExpectedOf(policy)), x)
  }

  predicate ExpectedReported(expected: Expected, x: Issue) {
    var checks := ChecksOf(expected);
    match x
    case SettingMissing(s) => s !in expected.settings
    case SettingNotBoolean(s) => s in expected.settings && !expected.settings[s].Bool?
    case ChecksMissing => expected.checks.None?
    case ReviewsMissing => expected.reviews.None?
    case StrictMissing => checks.strict.None?
    case ContextsMissing => checks.contexts.None?
    case ContextsNotStrings => checks.contexts.Some? && !IsStrings(checks.contexts.value)
    case ContextsEmpty => checks.contexts == Some(List([]))
    case StrictNotBoolean => checks.strict.Some? && !checks.strict.value.Bool?
    case _ => false
  }

  predicate ReviewReported(reviews: Reviews, x: Issue) {
    if x.PresenceMissing? then reviews.present.None?
    else
      && reviews.present.Some? && Truthy(reviews.present.value)
      && match x
         case PresenceNotBoolean => !reviews.present.value.Bool?
         case ReviewMissing(r) => r !in reviews.settings
         case BypassMissing => reviews.bypass.None?
         case ReviewNotBoolean(r) => r != ApprovingCount && r in reviews.settings && !reviews.settings[r].Bool?
         case CountNotInteger => var count := ReviewValue(reviews, ApprovingCount); count != Null && !count.Int?
         case CategoryMissing(c) => c in {Users, Teams, Apps} && c !in BypassOf(reviews)
         case CategoryNotList(c) =>
           c in {Users, Teams, Apps} && c in BypassOf(reviews) && !BypassOf(reviews)[c].List?
         case _ => false
  }

  /** A loop over keys reports the issues of the bad ones. */
  ghost predicate FlagsIssue<K(!new)>(keys: seq<K>, bad: K -> bool, issue: K -> Issue, x: Issue) {
    exists k :: Among(keys, k) && bad(k) && x == issue(k)
  }

  lemma {:induction false} FlagMembers<K(!new)>(keys: seq<K>, bad: K -> bool, issue: K -> Issue, x: Issue)
    ensures x in Flag(keys, bad, issue) <==> FlagsIssue(keys, bad, issue, x)
  {
    if keys != [] {
      var init, last := keys[..|keys| - 1], keys[|keys| - 1];
      FlagMembers(init, bad, issue, x);
      forall k ensures Among(keys, k) <==> Among(init, k) || k == last {
        AmongSnoc(init, last, k);
        assert keys == init + [last];
      }
    }
  }

  lemma AmongSnoc<K>(keys: seq<K>, last: K, k: K)
    ensures Among(keys + [last], k) <==> Among(keys, k) || k == last
  {
    var more := keys + [last];
    assert more[|keys|] == last && forall i | 0 <= i < |keys| :: more[i] == keys[i];
  }

  lemma AuthorityReports(policy: Policy, x: Issue)
    ensures x in Flag(AUTHORITY_KEYS, Undocumented(policy), AuthorityIssue)
       <==> x.AuthorityUndocumented? && Reported(policy, x)
  {
    FlagMembers(AUTHORITY_KEYS, Undocumented(policy), AuthorityIssue, x);
    var undocumented := Undocumented(policy);
    forall k: AuthorityKey
      ensures Among(AUTHORITY_KEYS, k) && AuthorityIssue(k) == AuthorityUndocumented(k)
      ensures undocumented(k) <==> k !in policy.authority || BlankText(policy.authority[k])
    {
      match k
      case ReviewLead => assert AUTHORITY_KEYS[0] == k;
      case MergeableMeaning => assert AUTHORITY_KEYS[1] == k;
      case Escalation => assert AUTHORITY_KEYS[2] == k;
    }
    if x.AuthorityUndocumented? {
      assert Among(AUTHORITY_KEYS, x.authority);
    }
  }

  lemma UndeclaredReports(expected: Expected, x: Issue)
    ensures x in Flag(EARLY_SETTINGS, Undeclared(expected), UndeclaredIssue)
            || x in Flag(LATE_SETTINGS, Undeclared(expected), UndeclaredIssue)
       <==> x.SettingMissing? && x.setting !in expected.settings
  {
    FlagMembers(EARLY_SETTINGS, Undeclared(expected), UndeclaredIssue, x);
    FlagMembers(LATE_SETTINGS, Undeclared(expected), UndeclaredIssue, x);
    var undeclared := Undeclared(expected);
    if x.SettingMissing? {
      AllSettings(x.setting);
      assert undeclared(x.setting) <==> x.setting !in expected.settings;
    }
  }

  lemma NotBooleanReports(expected: Expected, x: Issue)
    ensures x in Flag(SETTINGS, NotBoolean(expected), NotBooleanIssue)
       <==> x.SettingNotBoolean? && x.setting in expected.settings && !expected.settings[x.setting].Bool?
  {
    FlagMembers(SETTINGS, NotBoolean(expected), NotBooleanIssue, x);
    if x.SettingNotBoolean? {
      AllSettings(x.setting);
    }
  }

  lemma ChecksReport(checks: Checks, x: Issue)
    ensures x in ChecksIssues(checks)
       <==> match x
            case StrictMissing => checks.strict.None?
            case ContextsMissing => checks.contexts.None?
            case ContextsNotStrings => checks.contexts.Some? && !IsStrings(checks.contexts.value)
            case ContextsEmpty => checks.contexts == Some(List([]))
            case StrictNotBoolean => checks.strict.Some? && !checks.strict.value.Bool?
            case _ => false
  {
  }

  lemma ExpectedReports(expected: Expected, x: Issue)
    ensures x in ExpectedIssues(expected) <==> ExpectedReported(expected, x)
  {
    UndeclaredReports(expected, x);
    NotBooleanReports(expected, x);
    ChecksReport(ChecksOf(expected), x);
  }

  lemma AllReviewSettings(r: ReviewSetting)
    ensures exists k :: 0 <= k < |REVIEW_SETTINGS| && REVIEW_SETTINGS[k] == r
  {
    match r
    case ApprovingCount => assert REVIEW_SETTINGS[0] == r;
    case DismissStale => assert REVIEW_SETTINGS[1] == r;
    case CodeOwnerReviews => assert REVIEW_SETTINGS[2] == r;
    case LastPushApproval => assert REVIEW_SETTINGS[3] == r;
  }

  lemma ReviewMissingReports(reviews: Reviews, x: Issue)
    ensures x in Flag(REVIEW_SETTINGS, ReviewUndeclared(reviews), ReviewUndeclaredIssue)
       <==> x.ReviewMissing? && x.review !in reviews.settings
  {
    FlagMembers(REVIEW_SETTINGS, ReviewUndeclared(reviews), ReviewUndeclaredIssue, x);
    var undeclared := ReviewUndeclared(reviews);
    if x.ReviewMissing? {
      AllReviewSettings(x.review);
      assert Among(REVIEW_SETTINGS, x.review) && (undeclared(x.review) <==> x.review !in reviews.settings);
    }
  }

  lemma BooleanReviewSettings(r: ReviewSetting)
    ensures Among(BOOLEAN_REVIEW_SETTINGS, r) <==> r != ApprovingCount
  {
    match r
    case ApprovingCount =>
    case DismissStale => assert BOOLEAN_REVIEW_SETTINGS[0] == r;
    case CodeOwnerReviews => assert BOOLEAN_REVIEW_SETTINGS[1] == r;
    case LastPushApproval => assert BOOLEAN_REVIEW_SETTINGS[2] == r;
  }

  lemma ReviewNotBooleanReports(reviews: Reviews, x: Issue)
    ensures x in Flag(BOOLEAN_REVIEW_SETTINGS, ReviewNotBool(reviews), ReviewNotBoolIssue)
       <==> && x.ReviewNotBoolean? && x.review != ApprovingCount
            && x.review in reviews.settings && !reviews.settings[x.review].Bool?
  {
    FlagMembers(BOOLEAN_REVIEW_SETTINGS, ReviewNotBool(reviews), ReviewNotBoolIssue, x);
    forall r ensures Among(BOOLEAN_REVIEW_SETTINGS, r) <==> r != ApprovingCount {
      BooleanReviewSettings(r);
    }
  }

  lemma CategoriesListed(c: Category)
    ensures Among(BYPASS_CATEGORIES, c) <==> c in {Users, Teams, Apps}
  {
    assert BYPASS_CATEGORIES[0] == Users && BYPASS_CATEGORIES[1] == Teams && BYPASS_CATEGORIES[2] == Apps;
  }

  lemma CategoryReports(bypass: map<Category, Json>, x: Issue)
    ensures x in Flag(BYPASS_CATEGORIES, CategoryBad(bypass), CategoryIssue(bypass))
       <==> match x
            case CategoryMissing(c) => c in {Users, Teams, Apps} && c !in bypass
            case CategoryNotList(c) => c in {Users, Teams, Apps} && c in bypass && !bypass[c].List?
            case _ => false
  {
    FlagMembers(BYPASS_CATEGORIES, CategoryBad(bypass), CategoryIssue(bypass), x);
    var bad, issue := CategoryBad(bypass), CategoryIssue(bypass);
    forall c ensures Among(BYPASS_CATEGORIES, c) <==> c in {Users, Teams, Apps} {
      CategoriesListed(c);
    }
    forall c
      ensures bad(c) <==> c !in bypass || !bypass[c].List?
      ensures issue(c) == if c !in bypass then CategoryMissing(c) else CategoryNotList(c)
    {
    }
  }

  lemma ReviewReports(reviews: Reviews, x: Issue)
    ensures x in ReviewIssues(reviews) <==> ReviewReported(reviews, x)
  {
    ReviewMissingReports(reviews, x);
    ReviewNotBooleanReports(reviews, x);
    CategoryReports(BypassOf(reviews), x);
  }

  lemma LeftOver<K>(a: set<K>, b: set<K>)
    ensures a <= b <==> a - b == {}
  {
    forall k | k in a && k !in b ensures k in a - b {
    }
  }

  lemma ExceptionReports(policy: Policy, x: Issue)
    ensures x in ExceptionIssues(policy)
       <==> (x.ExceptionIncomplete? || x.ZeroApprovalsUndocumented?) && Reported(policy, x)
  {
    var exceptions, incomplete := ExceptionsOf(policy), Incomplete();
    FlagMembers(exceptions, incomplete, IncompleteIssue, x);
    forall e ensures Among(exceptions, e) <==> e in exceptions {
    }
    forall e: ExceptionDoc
      ensures incomplete(e) <==> REQUIRED_EXCEPTION_KEYS - e.keys != {}
    {
      LeftOver(REQUIRED_EXCEPTION_KEYS, e.keys);
    }
  }

  lemma TopReports(policy: Policy, x: Issue)
    ensures x in TopIssues(policy)
       <==> (x.RepositoryBlank? || x.KeyMissing? || x.AuthorityUndocumented?) && Reported(policy, x)
  {
    AuthorityReports(policy, x);
  }

  /** The offline check reports exactly what is true of the document. */
  lemma IssuesAreTrue(policy: Policy, x: Issue)
    ensures x in PolicyIssues(policy) <==> Reported(policy, x)
  {
    TopReports(policy, x);
    ExpectedReports(ExpectedOf(policy), x);
    ReviewReports(ReviewsOf(ExpectedOf(policy)), x);
    ExceptionReports(policy, x);
  }

  // ---------------------------------------------------------------- the live comparison

  /** The review block of the live protection, with its three bypass lists as names. */
  datatype LiveReviews = LiveReviews(settings: map<ReviewSetting, Json>, bypass: Category -> seq<string>)

  datatype Live = Live(
    nodes: map<Setting, Json>, restrictions: Json, strict: Json, contexts: seq<string>, reviews: Option<LiveReviews>)

  datatype Difference =
    | SettingDiffers(setting: Setting) | StrictDiffers | ContextsDiffer
    | PresenceDiffers | ReviewDiffers(review: ReviewSetting) | BypassDiffers

  /** The differences found; or the comparison read a missing key; or it sorted something that
      is no list of strings. */
  datatype Comparison = Compared(differences: seq<Difference>) | KeyAbsent | NotStrings

  const SCALAR_SETTINGS := [
    EnforceAdmins, RequiredLinearHistory, AllowForcePushes, AllowDeletions, RequiredConversationResolution,
    RestrictionsPresent, LockBranch, RequiredSignatures, BlockCreations, AllowForkSyncing
  ]

  function Enabled(node: Json): Json {
    if node.Obj? then Get(node.fields, "enabled") else node
  }

  function Actual(live: Live, codeowners: bool, s: Setting): Json {
    if s.RestrictionsPresent? then Bool(!live.restrictions.Null?)
    else if s.CodeownersPresent? then Bool(codeowners)
    else Enabled(if s in live.nodes then live.nodes[s] else Null)
  }

  function LiveReview(reviews: LiveReviews, r: ReviewSetting): Json {
    if r in reviews.settings then reviews.settings[r] else Null
  }

  function Strings(j: Json): seq<string>
    requires IsStrings(j)
  {
    seq(|j.items|, i requires 0 <= i < |j.items| => j.items[i].text)
  }

  predicate SettingDiffersFrom(expected: Expected, live: Live, codeowners: bool, s: Setting) {
    s in expected.settings && !PyEq(Actual(live, codeowners, s), expected.settings[s])
  }

  predicate ReviewDiffersFrom(expected: Reviews, live: LiveReviews, r: ReviewSetting) {
    r in expected.settings && !PyEq(LiveReview(live, r), expected.settings[r])
  }

  /** The bypass lists agree as multisets, and there are no further categories. */
  predicate BypassAgrees(expected: map<Category, Json>, live: Category -> seq<string>) {
    && expected.Keys == {Users, Teams, Apps}
    && forall c | c in {Users, Teams, Apps} ::
         IsStrings(expected[c]) && multiset(live(c)) == multiset(Strings(expected[c]))
  }

  /** What each reported difference means. */
  predicate Differs(expected: Expected, live: Live, codeowners: bool, d: Difference) {
    match d
    case SettingDiffers(s) => SettingDiffersFrom(expected, live, codeowners, s)
    case StrictDiffers =>
      ChecksOf(expected).strict.Some? && !PyEq(live.strict, ChecksOf(expected).strict.value)
    case ContextsDiffer =>
      && ChecksOf(expected).contexts.Some? && IsStrings(ChecksOf(expected).contexts.value)
      && multiset(live.contexts) != multiset(Strings(ChecksOf(expected).contexts.value))
    case PresenceDiffers =>
      ReviewsOf(expected).present.Some? && !PyEq(Bool(live.reviews.Some?), ReviewsOf(expected).present.value)
    case ReviewDiffers(r) =>
      ReviewsCompared(expected, live) && ReviewDiffersFrom(ReviewsOf(expected), live.reviews.value, r)
    case BypassDiffers =>
      ReviewsCompared(expected, live) && !BypassAgrees(BypassOf(ReviewsOf(expected)), live.reviews.value.bypass)
  }

  /** The review settings are compared when the block is live and the presences agree. */
  predicate ReviewsCompared(expected: Expected, live: Live) {
    && live.reviews.Some? && ReviewsOf(expected).present.Some?
    && PyEq(Bool(true), ReviewsOf(expected).present.value)
  }

  method CompareSettings(expected: Expected, live: Live, codeowners: bool) returns (c: Comparison)
    ensures c.Compared? || (c.KeyAbsent? && exists s: Setting :: s !in expected.settings)
    ensures c.Compared? ==> forall d :: d in c.differences <==>
              && d.SettingDiffers? && !d.setting.CodeownersPresent?
              && SettingDiffersFrom(expected, live, codeowners, d.setting)
  {
    var differences: seq<Difference> := [];
    for i := 0 to |SCALAR_SETTINGS|
      invariant forall d :: d in differences <==>
                  && d.SettingDiffers? && (exists k :: 0 <= k < i && SCALAR_SETTINGS[k] == d.setting)
                  && SettingDiffersFrom(expected, live, codeowners, d.setting)
    {
      var s := SCALAR_SETTINGS[i];
      if s !in expected.settings {
        return KeyAbsent;
      }
      if !PyEq(Actual(live, codeowners, s), expected.settings[s]) {
        differences := differences + [SettingDiffers(s)];
      }
    }
    forall s: Setting ensures Among(SCALAR_SETTINGS, s) <==> !s.CodeownersPresent? {
      ScalarSettings(s);
    }
    return Compared(differences);
  }

  lemma ScalarSettings(s: Setting)
    ensures Among(SCALAR_SETTINGS, s) <==> !s.CodeownersPresent?
  {
    match s
    case EnforceAdmins => assert SCALAR_SETTINGS[0] == s;
    case RequiredLinearHistory => assert SCALAR_SETTINGS[1] == s;
    case AllowForcePushes => assert SCALAR_SETTINGS[2] == s;
    case AllowDeletions => assert SCALAR_SETTINGS[3] == s;
    case RequiredConversationResolution => assert SCALAR_SETTINGS[4] == s;
    case RestrictionsPresent => assert SCALAR_SETTINGS[5] == s;
    case CodeownersPresent =>
    case LockBranch => assert SCALAR_SETTINGS[6] == s;
    case RequiredSignatures => assert SCALAR_SETTINGS[7] == s;
    case BlockCreations => assert SCALAR_SETTINGS[8] == s;
    case AllowForkSyncing => assert SCALAR_SETTINGS[9] == s;
  }

  method CompareChecks(expected: Expected, live: Live) returns (c: Comparison)
    ensures CompleteExpected(expected) ==> c.Compared?
    ensures c.Compared? ==> ChecksOf(expected).strict.Some? && ChecksOf(expected).contexts.Some?
    ensures c.Compared? ==> forall d :: d in c.differences <==>
              (d.StrictDiffers? || d.ContextsDiffer?) && Differs(expected, live, false, d)
  {
    var checks := ChecksOf(expected);
    if checks.strict.None? {
      return KeyAbsent;
    }
    var differences := if PyEq(live.strict, checks.strict.value) then [] else [StrictDiffers];
    if checks.contexts.None? {
      return KeyAbsent;
    }
    if !IsStrings(checks.contexts.value) {
      return NotStrings;
    }
    StringLessStrictTotal();
    SortedCopiesAgree(StringLess, live.contexts, Strings(checks.contexts.value));
    if Sort(StringLess, live.contexts) != Sort(StringLess, Strings(checks.contexts.value)) {
      differences := differences + [ContextsDiffer];
    }
    return Compared(differences);
  }

  /** Some bypass value of the policy is sorted, and is no list of strings. */
  predicate BypassUnsortable(expected: Expected, live: Live) {
    && ReviewsCompared(expected, live)
    && exists c | c in BypassOf(ReviewsOf(expected)) :: !IsStrings(BypassOf(ReviewsOf(expected))[c])
  }

  method CompareBypass(expected: map<Category, Json>, live: Category -> seq<string>) returns (agrees: bool)
    requires forall c | c in expected :: IsStrings(expected[c])
    ensures agrees <==> BypassAgrees(expected, live)
  {
    StringLessStrictTotal();
    forall c | c in expected
      ensures Sort(StringLess, live(c)) == Sort(StringLess, Strings(expected[c]))
              <==> multiset(live(c)) == multiset(Strings(expected[c]))
    {
      SortedCopiesAgree(StringLess, live(c), Strings(expected[c]));
    }
    agrees := expected.Keys == {Users, Teams, Apps}
              && forall c | c in {Users, Teams, Apps} && c in expected ::
                   Sort(StringLess, live(c)) == Sort(StringLess, Strings(expected[c]));
  }

  method CompareReviewSettings(expected: Reviews, live: LiveReviews) returns (c: Comparison)
    ensures c.Compared? || (c.KeyAbsent? && exists r: ReviewSetting :: r !in expected.settings)
    ensures c.Compared? ==> forall d :: d in c.differences <==>
              d.ReviewDiffers? && ReviewDiffersFrom(expected, live, d.review)
  {
    var differences: seq<Difference> := [];
    for i := 0 to |REVIEW_SETTINGS|
      invariant forall d :: d in differences <==>
                  && d.ReviewDiffers? && (exists k :: 0 <= k < i && REVIEW_SETTINGS[k] == d.review)
                  && ReviewDiffersFrom(expected, live, d.review)
    {
      var r := REVIEW_SETTINGS[i];
      if r !in expected.settings {
        return KeyAbsent;
      }
      if !PyEq(LiveReview(live, r), expected.settings[r]) {
        differences := differences + [ReviewDiffers(r)];
      }
    }
    forall d: Difference | d.ReviewDiffers?
      ensures exists k :: 0 <= k < |REVIEW_SETTINGS| && REVIEW_SETTINGS[k] == d.review
    {
      AllReviewSettings(d.review);
    }
    return Compared(differences);
  }

  method CompareReviews(expected: Expected, live: Live) returns (c: Comparison)
    ensures CompleteExpected(expected) ==> !c.KeyAbsent? && (c.NotStrings? <==> BypassUnsortable(expected, live))
    ensures c.Compared? ==> ReviewsOf(expected).present.Some?
    ensures c.Compared? ==> forall d :: d in c.differences <==>
              (d.PresenceDiffers? || d.ReviewDiffers? || d.BypassDiffers?) && Differs(expected, live, false, d)
  {
    var reviews := ReviewsOf(expected);
    if reviews.present.None? {
      return KeyAbsent;
    }
    if !PyEq(Bool(live.reviews.Some?), reviews.present.value) {
      return Compared([PresenceDiffers]);
    }
    if live.reviews.None? {
      return Compared([]);
    }
    c := CompareReviewSettings(reviews, live.reviews.value);
    if !c.Compared? {
      return KeyAbsent;
    }
    if reviews.bypass.None? {
      return KeyAbsent;
    }
    if k :| k in reviews.bypass.value && !IsStrings(reviews.bypass.value[k]) {
      assert k in BypassOf(reviews);
      return NotStrings;
    }
    var agrees := CompareBypass(reviews.bypass.value, live.reviews.value.bypass);
    if !agrees {
      c := Compared(c.differences + [BypassDiffers]);
    }
  }

  method CompareLiveToPolicy(policy: Policy, live: Live, codeowners: bool) returns (c: Comparison)
    ensures Complete(policy) ==> !c.KeyAbsent?
    ensures Complete(policy) ==> (c.NotStrings? <==> BypassUnsortable(policy.expected.value, live))
    ensures c.Compared? ==> policy.expected.Some?
                            && forall d :: d in c.differences <==> Differs(policy.expected.value, live, codeowners, d)
  {
    if policy.expected.None? {
      return KeyAbsent;
    }
    var expected := policy.expected.value;
    var settings := CompareSettings(expected, live, codeowners);
    if !settings.Compared? {
      return settings;
    }
    var checks := CompareChecks(expected, live);
    if !checks.Compared? {
      return checks;
    }
    var reviews := CompareReviews(expected, live);
    if !reviews.Compared? {
      return reviews;
    }
    if CodeownersPresent !in expected.settings {
      return KeyAbsent;
    }
    var owners :=
      if PyEq(Bool(codeowners), expected.settings[CodeownersPresent]) then [] else [SettingDiffers(CodeownersPresent)];
    return Compared(settings.differences + checks.differences + reviews.differences + owners);
  }

  /** Field by field agreement, with contexts and bypass lists as multisets. */
  predicate Agrees(expected: Expected, live: Live, codeowners: bool)
    requires CompleteExpected(expected)
  {
    var checks, reviews := expected.checks.value, expected.reviews.value;
    && (forall s: Setting :: PyEq(Actual(live, codeowners, s), expected.settings[s]))
    && PyEq(live.strict, checks.strict.value)
    && multiset(live.contexts) == multiset(Strings(checks.contexts.value))
    && PyEq(Bool(live.reviews.Some?), reviews.present.value)
    && (live.reviews.Some? ==>
          && (forall r: ReviewSetting ::
                r in reviews.settings && PyEq(LiveReview(live.reviews.value, r), reviews.settings[r]))
          && BypassAgrees(BypassOf(reviews), live.reviews.value.bypass))
  }

  /** On a complete document the comparison reports nothing exactly when every field agrees. */
  lemma NoDifferenceExactly(expected: Expected, live: Live, codeowners: bool)
    requires CompleteExpected(expected)
    ensures (forall d :: !Differs(expected, live, codeowners, d)) <==> Agrees(expected, live, codeowners)
  {
    if forall d :: !Differs(expected, live, codeowners, d) {
      forall s: Setting ensures PyEq(Actual(live, codeowners, s), expected.settings[s]) {
        assert !Differs(expected, live, codeowners, SettingDiffers(s));
      }
      assert !Differs(expected, live, codeowners, StrictDiffers);
      assert !Differs(expected, live, codeowners, ContextsDiffer);
      assert !Differs(expected, live, codeowners, PresenceDiffers);
      if live.reviews.Some? {
        forall r: ReviewSetting ensures PyEq(LiveReview(live.reviews.value, r), expected.reviews.value.settings[r]) {
          assert !Differs(expected, live, codeowners, ReviewDiffers(r));
        }
        assert !Differs(expected, live, codeowners, BypassDiffers);
      }
    }
  }

  /** A review authority that is no text passes the offline check as documented, null included:
      what is refused is exactly blank text. */
  lemma OnlyBlankAuthorityRefused(policy: Policy, key: AuthorityKey, value: Json)
    requires Complete(policy)
    ensures Complete(policy.(authority := policy.authority[key := value])) <==> !(value.Str? && Strip(value.text) == "")
  {
    var other := policy.(authority := policy.authority[key := value]);
    assert ReviewsOf(ExpectedOf(other)) == ReviewsOf(ExpectedOf(policy)) && ExceptionsOf(other) == ExceptionsOf(policy);
    assert CompleteExceptions(other) == CompleteExceptions(policy);
    assert forall k | k != key && k in policy.authority :: other.authority[k] == policy.authority[k];
    assert other.authority[key] == value;
  }

  // ---------------------------------------------------------------- which documents can agree

  /** Some live protection, with or without a CODEOWNERS file, agrees with the document. */
  ghost predicate SomeLiveAgrees(expected: Expected)
    requires CompleteExpected(expected)
  {
    exists live, codeowners :: Agrees(expected, live, codeowners)
  }

  /** The review block is declared absent, in a value that equals false; or it is declared present
      with exactly the three bypass categories, each a list of strings. */
  predicate Agreeable(expected: Expected)
    requires CompleteExpected(expected)
  {
    var reviews := expected.reviews.value;
    || PyEq(Bool(false), reviews.present.value)
    || (reviews.present.value == Bool(true) && BypassOf(reviews).Keys == {Users, Teams, Apps}
        && forall c | c in {Users, Teams, Apps} :: IsStrings(BypassOf(reviews)[c]))
  }

  /** The names under each category, where they are a list of strings. */
  function NamesUnder(bypass: map<Category, Json>): Category -> seq<string> {
    c => if c in bypass && IsStrings(bypass[c]) then Strings(bypass[c]) else []
  }

  /** The live protection that is just what the document says. */
  function AsDeclared(expected: Expected): Live
    requires CompleteExpected(expected)
  {
    var checks, reviews := expected.checks.value, expected.reviews.value;
    Live(
      expected.settings, if expected.settings[RestrictionsPresent].flag then Obj(map[]) else Null,
      checks.strict.value, Strings(checks.contexts.value),
      if reviews.present.value == Bool(true) then
        Some(LiveReviews(reviews.settings, NamesUnder(BypassOf(reviews))))
      else None)
  }

  lemma DeclaredSettingsAgree(expected: Expected, s: Setting)
    requires CompleteExpected(expected)
    ensures PyEq(Actual(AsDeclared(expected), expected.settings[CodeownersPresent].flag, s), expected.settings[s])
  {
    assert expected.settings[s].Bool?;
  }

  lemma DeclaredReviewsAgree(expected: Expected, r: ReviewSetting)
    requires CompleteExpected(expected) && expected.reviews.value.present.value == Bool(true)
    ensures r in expected.reviews.value.settings
    ensures PyEq(LiveReview(AsDeclared(expected).reviews.value, r), expected.reviews.value.settings[r])
  {
    assert r.ApprovingCount? || expected.reviews.value.settings[r].Bool?;
  }

  lemma DeclaredAgrees(expected: Expected)
    requires CompleteExpected(expected) && Agreeable(expected)
    ensures Agrees(expected, AsDeclared(expected), expected.settings[CodeownersPresent].flag)
  {
    var live := AsDeclared(expected);
    forall s: Setting ensures PyEq(Actual(live, expected.settings[CodeownersPresent].flag, s), expected.settings[s]) {
      DeclaredSettingsAgree(expected, s);
    }
    if live.reviews.Some? {
      forall r: ReviewSetting
        ensures r in expected.reviews.value.settings
        ensures PyEq(LiveReview(live.reviews.value, r), expected.reviews.value.settings[r])
      {
        DeclaredReviewsAgree(expected, r);
      }
    }
  }

  /** Exactly which documents that pass the offline check can ever pass the live gate. */
  lemma SomeLiveAgreesExactly(expected: Expected)
    requires CompleteExpected(expected)
    ensures SomeLiveAgrees(expected) <==> Agreeable(expected)
  {
    if Agreeable(expected) {
      DeclaredAgrees(expected);
    }
  }

  /** A value that Python holds equal to the flag. */
  predicate MeansFlag(value: Json, flag: bool) {
    value == Bool(flag) || Number(value) == Some(if flag then 1.0 else 0.0)
  }

  /** What the live protection says of a setting: a plain value, or an object's "enabled". */
  predicate LiveSays(live: Live, s: Setting, flag: bool) {
    && s in live.nodes
    && if live.nodes[s].Obj? then
         "enabled" in live.nodes[s].fields && MeansFlag(live.nodes[s].fields["enabled"], flag)
       else MeansFlag(live.nodes[s], flag)
  }

  /** When a live setting agrees with a declared one, in terms of the reply. */
  lemma SettingAgreesExactly(live: Live, codeowners: bool, s: Setting, flag: bool)
    ensures PyEq(Actual(live, codeowners, s), Bool(flag))
       <==> match s
            case RestrictionsPresent => (live.restrictions != Null) == flag
            case CodeownersPresent => codeowners == flag
            case _ => LiveSays(live, s, flag)
  {
  }

  function WithReviews(policy: Policy, reviews: Reviews): Policy
    requires policy.expected.Some?
  {
    policy.(expected := Some(policy.expected.value.(reviews := Some(reviews))))
  }

  function WithCategory(policy: Policy, category: Category, value: Json): Policy
    requires policy.expected.Some? && policy.expected.value.reviews.Some?
    requires policy.expected.value.reviews.value.bypass.Some?
  {
    var reviews := policy.expected.value.reviews.value;
    WithReviews(policy, reviews.(bypass := Some(reviews.bypass.value[category := value])))
  }

  function WithPresence(policy: Policy, present: Json): Policy
    requires policy.expected.Some? && policy.expected.value.reviews.Some?
  {
    WithReviews(policy, policy.expected.value.reviews.value.(present := Some(present)))
  }

  /** The offline check reads nothing of the other sections when the review block changes. */
  lemma OtherSectionsStay(policy: Policy, reviews: Reviews)
    requires Complete(policy) && CompleteReviews(reviews)
    requires reviews.settings == policy.expected.value.reviews.value.settings
    ensures Complete(WithReviews(policy, reviews))
  {
    var other := WithReviews(policy, reviews);
    assert ReviewsOf(ExpectedOf(other)).settings == ReviewsOf(ExpectedOf(policy)).settings;
    assert ExceptionsOf(other) == ExceptionsOf(policy);
    assert ZeroUndocumented(other) == ZeroUndocumented(policy);
  }

  /** The offline check does not look for further bypass categories: a complete document stays
      complete with one, whatever it holds, and can then agree with a live protection exactly if
      it declares the review block absent. */
  lemma UnknownCategoryPassesOffline(policy: Policy, name: string, value: Json)
    requires Complete(policy) && policy.expected.value.reviews.value.bypass.Some?
    ensures var more := WithCategory(policy, OtherCategory(name), value);
            && Complete(more)
            && (SomeLiveAgrees(more.expected.value)
                <==> PyEq(Bool(false), policy.expected.value.reviews.value.present.value))
  {
    var more := WithCategory(policy, OtherCategory(name), value);
    assert OtherCategory(name) in BypassOf(more.expected.value.reviews.value);
    OtherSectionsStay(policy, more.expected.value.reviews.value);
    SomeLiveAgreesExactly(more.expected.value);
  }

  /** A presence that is merely falsy switches the offline review checks off, but only a value
      equal to false can agree with a live protection: null, "", [] and {} never do. */
  lemma FalsyPresencePassesOffline(policy: Policy, present: Json)
    requires Complete(policy) && !Truthy(present)
    ensures var other := WithPresence(policy, present);
            && Complete(other)
            && (SomeLiveAgrees(other.expected.value) <==> present.Bool? || present.Int? || present.Float?)
  {
    var other := WithPresence(policy, present);
    OtherSectionsStay(policy, other.expected.value.reviews.value);
    SomeLiveAgreesExactly(other.expected.value);
  }

  // ---------------------------------------------------------------- the gate

  /** The exit; FailedUnsorted when the policy has a bypass value that is no list of strings:
      sorting it raises, or gives something no live list equals. */
  datatype Outcome = Passed | Failed | FailedUnsorted

  /** What str and strip make of the declared repository; `show` is str on anything but text. */
  function Declared(policy: Policy, show: Json -> string): string {
    match policy.repository
    case None => ""
    case Some(Str(text)) => Strip(text)
    case Some(value) => Strip(show(value))
  }

  /** The checkout is the repository the policy declares. */
  predicate Corroborated(policy: Policy, show: Json -> string, checkout: Option<string>) {
    && checkout.Some?
    && (Declared(policy, show) == "" || Lower(Declared(policy, show)) == Lower(checkout.value))
  }

  /** What the gate promises: offline, a complete document of this repository; otherwise also
      a live protection that agrees with it in every field. */
  predicate Holds(
      policy: Policy, show: Json -> string, offline: bool, checkout: Option<string>, live: Live, codeowners: bool)
  {
    && Complete(policy) && Corroborated(policy, show, checkout)
    && (offline || Agrees(policy.expected.value, live, codeowners))
  }

  /** The live half of the gate, on a complete document. */
  method LiveGate(policy: Policy, live: Live, codeowners: bool) returns (outcome: Outcome)
    requires Complete(policy)
    ensures outcome.Passed? <==> Agrees(policy.expected.value, live, codeowners)
    ensures outcome.FailedUnsorted? <==> BypassUnsortable(policy.expected.value, live)
  {
    var expected := policy.expected.value;
    NoDifferenceExactly(expected, live, codeowners);
    var c := CompareLiveToPolicy(policy, live, codeowners);
    if c.NotStrings? {
      UnsortableDisagrees(expected, live, codeowners);
      return FailedUnsorted;
    }
    if c.differences != [] {
      assert c.differences[0] in c.differences;
      return Failed;
    }
    return Passed;
  }

  lemma UnsortableDisagrees(expected: Expected, live: Live, codeowners: bool)
    requires CompleteExpected(expected) && BypassUnsortable(expected, live)
    ensures !Agrees(expected, live, codeowners)
  {
  }

  method Gate(
      policy: Policy, show: Json -> string, offline: bool, checkout: Option<string>, live: Live, codeowners: bool)
    returns (outcome: Outcome)
    ensures outcome.Passed? <==> Holds(policy, show, offline, checkout, live, codeowners)
    ensures outcome.FailedUnsorted? <==>
              && Complete(policy) && Corroborated(policy, show, checkout) && !offline
              && BypassUnsortable(policy.expected.value, live)
  {
    var issues := ValidatePolicyDocument(policy);
    if issues != [] || !Corroborated(policy, show, checkout) {
      return Failed;
    }
    if offline {
      return Passed;
    }
    outcome := LiveGate(policy, live, codeowners);
  }
}
