/**
 * The issue planner guard (`scripts/issue-planner-guard.ts`): decides whether an
 * issue receives an implementation plan. The checks run in a fixed order: pull
 * request, missing `agent:plan`, blocking labels, a plan already posted.
 *
 * Whether a plan was already posted is found by an issue-tracker lookup; the
 * model takes its answer as the parameter `planFound` and keeps the line test it
 * applies to the issue's comments as `HasPlanMarker`.
 */
module PlannerGuard {
  import opened Wrappers
  import opened Text
  import opened IssuePayload

  const TRIGGER_LABEL := "agent:plan"

  /** The first characters of the comment the planner leaves behind. */
  const PLAN_MARKER_PREFIX := "<!-- issue-planner:"

  datatype PlannerDecision = PlannerDecision(
    shouldPlan: bool,
    issueNumber: nat,
    issueTitle: string,
    reason: string,
    existingPlan: bool,
    blockedLabels: seq<string>)

  /** `output.split('\n').some((line) => line.includes(PLAN_MARKER_PREFIX))`. */
  function HasPlanMarker(lines: seq<string>): (r: bool)
    ensures r <==> exists i | 0 <= i < |lines| :: Contains(lines[i], PLAN_MARKER_PREFIX)
  {
    if lines == [] then false
    else if Contains(lines[0], PLAN_MARKER_PREFIX) then true
    else
      var rest := HasPlanMarker(lines[1..]);
      assert forall i | 1 <= i < |lines| :: lines[i] == lines[1..][i - 1];
      rest
  }

  /**
   * `evaluate(issue, skipPlanCheck)`, where `planFound` is what
   * `findExistingPlan(issue.number)` reports (consulted only without `skipPlanCheck`).
   */
  function Evaluate(issue: Issue, skipPlanCheck: bool, planFound: bool): (d: PlannerDecision)
    ensures d.issueNumber == issue.number && d.issueTitle == issue.title
    // A pull request is refused whatever its labels.
    ensures issue.isPullRequest ==> !d.shouldPlan && !d.existingPlan && d.blockedLabels == []
    // Without the trigger label nothing is planned.
    ensures TRIGGER_LABEL !in issue.labels ==> !d.shouldPlan && !d.existingPlan && d.blockedLabels == []
    // The blocked labels are reported only once the first two checks pass, and then all of them.
    ensures d.blockedLabels == if !issue.isPullRequest && TRIGGER_LABEL in issue.labels
      then BlockedLabels(issue.labels) else []
    ensures d.blockedLabels != [] ==> !d.shouldPlan
    // A plan is reported only by a lookup that was made, and then nothing is planned.
    ensures d.existingPlan ==> !skipPlanCheck && planFound && !d.shouldPlan
    ensures d.existingPlan <==>
      !issue.isPullRequest && TRIGGER_LABEL in issue.labels && BlockedLabels(issue.labels) == [] &&
      !skipPlanCheck && planFound
    // Planning goes ahead exactly when every check passes.
    ensures d.shouldPlan <==>
      !issue.isPullRequest && TRIGGER_LABEL in issue.labels && BlockedLabels(issue.labels) == [] &&
      (skipPlanCheck || !planFound)
  {
    var labelNames := issue.labels;
    if issue.isPullRequest then
      PlannerDecision(false, issue.number, issue.title, "Pull request \U{2014} not an issue.", false, [])
    else if TRIGGER_LABEL !in labelNames then
      PlannerDecision(false, issue.number, issue.title,
        "Missing required label '" + TRIGGER_LABEL + "'.", false, [])
    else
      var blocked := BlockedLabels(labelNames);
      if |blocked| > 0 then
        PlannerDecision(false, issue.number, issue.title,
          "Blocked by label(s): " + Join(blocked, ", ") + ".", false, blocked)
      else if !skipPlanCheck && planFound then
        PlannerDecision(false, issue.number, issue.title,
          "A plan has already been posted for this issue.", true, [])
      else
        PlannerDecision(true, issue.number, issue.title, "Issue approved for planning.", false, [])
  }

  /** `agent:implement` is not a substitute for `agent:plan`. */
  lemma ImplementLabelDoesNotTrigger(issue: Issue, skipPlanCheck: bool, planFound: bool)
    requires issue.labels == ["agent:implement"]
    ensures !Evaluate(issue, skipPlanCheck, planFound).shouldPlan
  {
  }

  /** The blocking-label filter on the self-test label lists. */
  lemma BlockedLabelsExamples()
    ensures BlockedLabels(["agent:plan", "enhancement"]) == []
    ensures BlockedLabels(["agent:plan", "wontfix"]) == ["wontfix"]
    ensures BlockedLabels(["agent:plan", "duplicate", "invalid"]) == ["duplicate", "invalid"]
  {
    NothingBlocked();
    WontfixBlocked();
    DuplicateInvalidBlocked();
  }

  lemma NothingBlocked()
    ensures BlockedLabels(["agent:plan", "enhancement"]) == []
  {
    BlockedLabelsAppend(["agent:plan"], ["enhancement"]);
    assert ["agent:plan"] + ["enhancement"] == ["agent:plan", "enhancement"];
  }

  lemma WontfixBlocked()
    ensures BlockedLabels(["agent:plan", "wontfix"]) == ["wontfix"]
  {
    BlockedLabelsAppend(["agent:plan"], ["wontfix"]);
    assert ["agent:plan"] + ["wontfix"] == ["agent:plan", "wontfix"];
  }

  lemma DuplicateInvalidBlocked()
    ensures BlockedLabels(["agent:plan", "duplicate", "invalid"]) == ["duplicate", "invalid"]
  {
    BlockedLabelsAppend(["agent:plan"], ["duplicate", "invalid"]);
    BlockedLabelsAppend(["duplicate"], ["invalid"]);
    assert ["duplicate"] + ["invalid"] == ["duplicate", "invalid"];
    assert ["agent:plan"] + ["duplicate", "invalid"] == ["agent:plan", "duplicate", "invalid"];
  }

  /** The self-test payloads that are refused, with the lookup skipped. */
  lemma RefusedExamples()
    ensures !Evaluate(Issue(1, "Add feature", Some("Details..."), false, User("user", None), ["bug"]), true, false).shouldPlan
    ensures !Evaluate(Issue(3, "PR title", None, true, User("user", None), ["agent:plan"]), true, false).shouldPlan
    ensures !Evaluate(Issue(5, "Feature", Some("Details"), false, User("user", None), ["agent:implement"]), true, false).shouldPlan
  {
  }

  /** The self-test payload that is planned, with the lookup skipped. */
  lemma ReadyExample()
    ensures Evaluate(Issue(10, "Add dark mode", Some("Implement dark mode toggle"), false, User("user", None),
      ["agent:plan", "enhancement"]), true, false).shouldPlan
  {
    NothingBlocked();
  }

  /** The self-test payloads with blocking labels: every blocking label is reported, in order. */
  lemma BlockedExamples()
    ensures "wontfix" in Evaluate(Issue(2, "Something", None, false, User("user", None),
      ["agent:plan", "wontfix"]), true, false).blockedLabels
    ensures Evaluate(Issue(4, "Something", None, false, User("user", None),
      ["agent:plan", "duplicate", "invalid"]), true, false).blockedLabels == ["duplicate", "invalid"]
  {
    var wontfix := Issue(2, "Something", None, false, User("user", None), ["agent:plan", "wontfix"]);
    var duplicate := Issue(4, "Something", None, false, User("user", None), ["agent:plan", "duplicate", "invalid"]);
    assert wontfix.labels[0] == TRIGGER_LABEL && duplicate.labels[0] == TRIGGER_LABEL;
    WontfixBlocked();
    DuplicateInvalidBlocked();
  }
}
