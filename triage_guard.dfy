/**
 * The issue triage guard (`scripts/issue-triage-guard.ts`): decides whether a
 * newly opened or edited issue is handed to automated triage. The checks run in a
 * fixed order: pull request, bot author, then the edit / re-triage rules, then
 * the already-triaged rule.
 */
module TriageGuard {
  import opened Wrappers
  import opened Text
  import opened IssuePayload

  const BOT_SUFFIXES: seq<string> := ["[bot]", "-bot"]

  /** Labels whose presence means the issue has already been triaged. */
  const TRIAGED_LABELS: seq<string> :=
    ["agent:plan", "agent:implement", "needs-human-review", "wontfix", "duplicate", "invalid"]

  /** The label that asks for a fresh triage once the author has edited the issue. */
  const RETRIAGE_LABEL := "needs-more-info"

  const EDITED := "edited"

  // The `skipReason` codes; the empty code means "triage".
  const SKIP_NONE := ""
  const SKIP_PULL_REQUEST := "pull_request"
  const SKIP_BOT_AUTHOR := "bot_author"
  const SKIP_EDIT_ALREADY_TRIAGED := "edit_already_triaged"
  const SKIP_ALREADY_TRIAGED := "already_triaged"

  datatype TriageDecision = TriageDecision(
    shouldTriage: bool,
    issueNumber: nat,
    issueTitle: string,
    reason: string,
    isRetriage: bool,
    skipReason: string)

  /** A bot account: type `Bot`, or a login ending (case-insensitively) in `[bot]` or `-bot`. */
  predicate IsBot(login: string, userType: Option<string>) {
    || userType == Some("Bot")
    || exists i | 0 <= i < |BOT_SUFFIXES| :: EndsWith(Lower(login), BOT_SUFFIXES[i])
  }

  /** The login's letter case never changes whether it is a bot's. */
  lemma IsBotIgnoresCase(login: string, userType: Option<string>)
    ensures IsBot(Lower(login), userType) == IsBot(login, userType)
  {
    assert Lower(Lower(login)) == Lower(login);
  }

  /** Some label of the issue is one of the triaged labels. */
  predicate IsAlreadyTriaged(labels: seq<string>) {
    exists i | 0 <= i < |labels| :: labels[i] in TRIAGED_LABELS
  }

  /** Only an edit of an issue carrying `needs-more-info` asks for a re-triage. */
  predicate ShouldRetriage(labels: seq<string>, eventName: string) {
    if eventName != EDITED then false else RETRIAGE_LABEL in labels
  }

  /** `evaluate(issue, eventName)`. */
  function Evaluate(issue: Issue, eventName: string): (d: TriageDecision)
    // The issue is echoed on every path, and the flag agrees with the code.
    ensures d.issueNumber == issue.number && d.issueTitle == issue.title
    ensures d.shouldTriage <==> d.skipReason == SKIP_NONE
    ensures d.skipReason in [SKIP_NONE, SKIP_PULL_REQUEST, SKIP_BOT_AUTHOR, SKIP_EDIT_ALREADY_TRIAGED, SKIP_ALREADY_TRIAGED]
    // A pull request is refused before anything else is looked at.
    ensures issue.isPullRequest ==> !d.shouldTriage && !d.isRetriage && d.skipReason == SKIP_PULL_REQUEST
    // A bot author is refused before any label is looked at.
    ensures !issue.isPullRequest && IsBot(issue.user.login, issue.user.userType) ==>
      !d.shouldTriage && !d.isRetriage && d.skipReason == SKIP_BOT_AUTHOR
    // Re-triage: an edit with `needs-more-info`, whatever other labels are present.
    ensures d.isRetriage <==>
      !issue.isPullRequest && !IsBot(issue.user.login, issue.user.userType) &&
      eventName == EDITED && RETRIAGE_LABEL in issue.labels
    ensures d.isRetriage ==> d.shouldTriage && eventName == EDITED
    // An edit without `needs-more-info` is a first triage unless already triaged.
    ensures (!issue.isPullRequest && !IsBot(issue.user.login, issue.user.userType) &&
             eventName == EDITED && RETRIAGE_LABEL !in issue.labels) ==>
        (d.shouldTriage <==> !IsAlreadyTriaged(issue.labels)) &&
        (!d.shouldTriage ==> d.skipReason == SKIP_EDIT_ALREADY_TRIAGED)
    // Any other event: triage exactly the issues not triaged yet.
    ensures !issue.isPullRequest && !IsBot(issue.user.login, issue.user.userType) && eventName != EDITED ==>
      (d.shouldTriage <==> !IsAlreadyTriaged(issue.labels)) &&
      (!d.shouldTriage ==> d.skipReason == SKIP_ALREADY_TRIAGED)
  {
    var labelNames := issue.labels;
    if issue.isPullRequest then
      TriageDecision(false, issue.number, issue.title,
        "Pull request \U{2014} not an issue.", false, SKIP_PULL_REQUEST)
    else if IsBot(issue.user.login, issue.user.userType) then
      TriageDecision(false, issue.number, issue.title,
        "Bot-authored issue (" + issue.user.login + ") \U{2014} skipping.", false, SKIP_BOT_AUTHOR)
    else
      var alreadyTriaged := IsAlreadyTriaged(labelNames);
      if eventName == EDITED then
        if ShouldRetriage(labelNames, eventName) then
          TriageDecision(true, issue.number, issue.title,
            "Re-triage: issue edited with '" + RETRIAGE_LABEL + "' label present.", true, SKIP_NONE)
        else if !alreadyTriaged then
          TriageDecision(true, issue.number, issue.title,
            "Issue edited but never triaged \U{2014} proceeding with initial triage.", false, SKIP_NONE)
        else
          TriageDecision(false, issue.number, issue.title,
            "Edit event on already-triaged issue \U{2014} skipping.", false, SKIP_EDIT_ALREADY_TRIAGED)
      else if alreadyTriaged then
        TriageDecision(false, issue.number, issue.title,
          "Issue already has a triage label \U{2014} skipping.", false, SKIP_ALREADY_TRIAGED)
      else
        TriageDecision(true, issue.number, issue.title, "New issue ready for triage.", false, SKIP_NONE)
  }

  /** An edit with `needs-more-info` is a re-triage even when triaged labels are present. */
  lemma RetriageOverridesTriagedLabels(issue: Issue)
    requires !issue.isPullRequest && !IsBot(issue.user.login, issue.user.userType)
    requires RETRIAGE_LABEL in issue.labels && IsAlreadyTriaged(issue.labels)
    ensures Evaluate(issue, EDITED).shouldTriage && Evaluate(issue, EDITED).isRetriage
    ensures !Evaluate(issue, "opened").shouldTriage
  {
  }

  lemma BotLogins()
    ensures Lower("dependabot[bot]") == "dependabot" + "[bot]"
    ensures Lower("renovate-bot") == "renovate" + "-bot"
    ensures Lower("yasha-dev1")[5..] == "-dev1" && Lower("yasha-dev1")[6..] == "dev1"
  {
  }

  /** The `isBot` assertions of the self-test. */
  lemma IsBotExamples()
    ensures IsBot("dependabot[bot]", None)
    ensures IsBot("renovate-bot", None)
    ensures IsBot("github-actions[bot]", Some("Bot"))
    ensures !IsBot("yasha-dev1", None)
  {
    BotLogins();
    assert EndsWith(Lower("dependabot[bot]"), BOT_SUFFIXES[0]);
    assert EndsWith(Lower("renovate-bot"), BOT_SUFFIXES[1]);
    assert !EndsWith(Lower("yasha-dev1"), BOT_SUFFIXES[0]);
    assert !EndsWith(Lower("yasha-dev1"), BOT_SUFFIXES[1]);
  }

  /** The label assertions of the self-test. */
  lemma LabelExamples()
    ensures IsAlreadyTriaged(["agent:plan"])
    ensures !IsAlreadyTriaged(["bug", "enhancement"])
    ensures ShouldRetriage(["needs-more-info"], "edited")
    ensures !ShouldRetriage(["needs-more-info"], "opened")
    ensures !ShouldRetriage(["bug"], "edited")
  {
    assert ["agent:plan"][0] in TRIAGED_LABELS;
  }

  /** The `evaluate` assertions of the self-test. */
  lemma EvaluateExamples()
    ensures Evaluate(Issue(1, "Bug: login broken", Some("Steps..."), false, User("user1", None), []), "opened").shouldTriage
    ensures !Evaluate(Issue(2, "Dep update", None, false, User("dependabot[bot]", Some("Bot")), []), "opened").shouldTriage
    ensures !Evaluate(Issue(3, "Fix", None, true, User("user1", None), []), "opened").shouldTriage
    ensures !Evaluate(Issue(4, "Feature", Some("Add dark mode"), false, User("user1", None), ["agent:implement"]), "opened").shouldTriage
    ensures Evaluate(Issue(5, "Bug report", Some("Updated..."), false, User("user1", None), ["needs-more-info"]), "edited").isRetriage
  {
    assert !IsBot("user1", None) by {
      assert Lower("user1")[1..] == "ser1";
      assert !EndsWith(Lower("user1"), BOT_SUFFIXES[0]);
      assert !EndsWith(Lower("user1"), BOT_SUFFIXES[1]);
    }
    assert ["agent:implement"][0] in TRIAGED_LABELS;
  }
}
