/**
 * The issue (or pull-request) payload that the triage, planner and implementer
 * guards receive, and the blocking-label rule the planner and implementer share.
 */
module IssuePayload {
  import opened Wrappers

  /** The author: a login and, when the payload carries one, an account type. */
  datatype User = User(login: string, userType: Option<string>)

  /**
   * An issue as delivered by the issue tracker. `isPullRequest` stands for a
   * truthy `pull_request` member (a present `null` does not count); `labels` holds the label names in order.
   */
  datatype Issue = Issue(
    number: nat,
    title: string,
    body: Option<string>,
    isPullRequest: bool,
    user: User,
    labels: seq<string>)

  /** Labels that forbid planning and implementing even when the trigger label is present. */
  const BLOCKING_LABELS: seq<string> := ["agent:skip", "wontfix", "duplicate", "invalid"]

  /** `labels.filter((l) => BLOCKING_LABELS.includes(l))`. */
  function BlockedLabels(labels: seq<string>): (r: seq<string>)
    ensures |r| <= |labels|
    ensures forall l :: l in r <==> l in labels && l in BLOCKING_LABELS
  {
    if labels == [] then []
    else (if labels[0] in BLOCKING_LABELS then [labels[0]] else []) + BlockedLabels(labels[1..])
  }

  /** The filter keeps the original order: it distributes over concatenation. */
  lemma {:induction false} BlockedLabelsAppend(a: seq<string>, b: seq<string>)
    ensures BlockedLabels(a + b) == BlockedLabels(a) + BlockedLabels(b)
    decreases |a|
  {
    if a == [] {
      assert a + b == b;
    } else {
      assert (a + b)[0] == a[0] && (a + b)[1..] == a[1..] + b;
      BlockedLabelsAppend(a[1..], b);
    }
  }
}
