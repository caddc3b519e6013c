/**
 * The issue implementer guard (`scripts/issue-implementer-guard.ts`): decides
 * whether an issue is implemented automatically and names the branch the work
 * goes to. The checks run in a fixed order: pull request, missing
 * `agent:implement`, blocking labels, a pull request already opened.
 *
 * Whether a pull request already exists is found by an issue-tracker lookup; the
 * model takes its answer as the parameter `prLookup` and keeps the scan it
 * applies to the lines of the issue's comments as `FindExistingPR`.
 */
module ImplementerGuard {
  import opened Wrappers
  import opened Text
  import opened IssuePayload
  import StringUtils

  const TRIGGER_LABEL := "agent:implement"

  /** The first characters of the comment the implementer leaves behind. */
  const PR_MARKER_PREFIX := "<!-- issue-implementer:"

  /** The longest slug a branch name carries. */
  const SLUG_MAX_LENGTH := 40

  const BRANCH_PREFIX := "cf/"

  datatype ImplementerDecision = ImplementerDecision(
    shouldImplement: bool,
    issueNumber: nat,
    issueTitle: string,
    branchName: string,
    reason: string,
    existingPR: Option<nat>,
    blockedLabels: seq<string>)

  // ---------------------------------------------------------------------------
  // Branch names
  // ---------------------------------------------------------------------------

  /**
   * `slugify(text)` of this guard: the general slug (lower-case, separator runs to
   * one hyphen, hyphens trimmed) cut to its first 40 characters.
   */
  function Slugify(text: string): (r: string)
    ensures |r| <= SLUG_MAX_LENGTH
    // The general slug's first characters: all of them when they fit, else exactly 40.
    ensures var full := StringUtils.Slugify(text);
      && |r| <= |full| && r == full[..|r|]
      && (|full| <= SLUG_MAX_LENGTH ==> r == full)
      && (|full| > SLUG_MAX_LENGTH ==> |r| == SLUG_MAX_LENGTH)
  {
    var full := StringUtils.Slugify(text);
    if |full| <= SLUG_MAX_LENGTH then full else full[..SLUG_MAX_LENGTH]
  }

  /**
   * The capped slug is at most 40 characters of `a-z`, `0-9` and `-`, never starts
   * with a hyphen and never has two in a row; it is the general slug whenever that
   * one fits.
   */
  lemma SlugifyShape(text: string)
    ensures |Slugify(text)| <= SLUG_MAX_LENGTH
    ensures StringUtils.SlugAlphabet(Slugify(text)) && StringUtils.NoDoubleHyphen(Slugify(text))
    ensures Slugify(text) == [] || Slugify(text)[0] != '-'
    ensures |StringUtils.Slugify(text)| <= SLUG_MAX_LENGTH ==> Slugify(text) == StringUtils.Slugify(text)
  {
    var full := StringUtils.Slugify(text);
    StringUtils.SlugifyShape(text);
    StringUtils.SliceKeepsShape(full, 0, |Slugify(text)|);
    assert Slugify(text) == full[..|Slugify(text)|];
  }

  /**
   * The cut can leave a trailing hyphen, so this slug is not idempotent: 39 letters,
   * a space and one more letter give a 40-character slug ending in `-`, which a
   * second pass trims.
   */
  lemma SlugifyNotIdempotent()
    ensures var t := seq(39, _ => 'a') + " b"; Slugify(Slugify(t)) != Slugify(t)
  {
    var w := seq(39, _ => 'a');
    var t := w + " b";
    LongTitleFacts(w, t);
    StringUtils.SlugifyTwoWords(t, w, " ", "b", []);
    var cut := w + "-";
    assert Slugify(t) == cut by {
      assert (w + "-" + "b")[..SLUG_MAX_LENGTH] == cut;
    }
    StringUtils.LowerOfLowered(cut);
    StringUtils.SlugifyOneWord(cut, w, "-");
    assert Slugify(cut) == w != cut;
  }

  lemma LongTitleFacts(w: string, t: string)
    requires w == seq(39, _ => 'a') && t == w + " b"
    ensures w != [] && StringUtils.AllSlugChars(w) && StringUtils.AllSeparators(" ") && StringUtils.AllSeparators([])
    ensures StringUtils.AllSeparators("-") && StringUtils.AllSlugChars("b")
    ensures Lower(t) == w + (" " + ("b" + []))
    ensures forall i :: 0 <= i < |w + "-"| ==> !IsUpper((w + "-")[i])
  {
    StringUtils.LowerOfLowered(t);
  }

  /** `deriveBranchName(issueNumber, issueTitle)`. */
  function DeriveBranchName(issueNumber: nat, issueTitle: string): string {
    BRANCH_PREFIX + Slugify(issueTitle) + "-" + Decimal(issueNumber)
  }

  /** The number of decimal digits at the end of `s`. */
  function TrailingDigits(s: string): (n: nat)
    ensures n <= |s|
  {
    if s != [] && IsDigit(s[|s| - 1]) then 1 + TrailingDigits(s[..|s| - 1]) else 0
  }

  lemma {:induction false} TrailingDigitsAfterHyphen(p: string, d: string)
    requires AllDigits(d)
    ensures TrailingDigits(p + "-" + d) == |d|
    decreases |d|
  {
    var s := p + "-" + d;
    if d == [] {
      assert s[|s| - 1] == '-';
    } else {
      assert s[..|s| - 1] == p + "-" + d[..|d| - 1];
      TrailingDigitsAfterHyphen(p, d[..|d| - 1]);
    }
  }

  /** Where the slug and the number sit in a branch name. */
  lemma BranchNameParts(n: nat, t: string)
    ensures var b, d := DeriveBranchName(n, t), Decimal(n);
      && TrailingDigits(b) == |d| && |b| == 3 + |Slugify(t)| + 1 + |d|
      && b[|b| - |d|..] == d && b[3..|b| - |d| - 1] == Slugify(t)
  {
    NamePartsAt(BRANCH_PREFIX, Slugify(t), Decimal(n), DeriveBranchName(n, t));
  }

  /** The parts of `p + slug + "-" + d` sit at fixed positions, whatever the slug. */
  lemma NamePartsAt(p: string, slug: string, d: string, b: string)
    requires |p| == 3 && AllDigits(d) && b == p + slug + "-" + d
    ensures TrailingDigits(b) == |d| && |b| == 3 + |slug| + 1 + |d|
    ensures b[|b| - |d|..] == d && b[3..|b| - |d| - 1] == slug
  {
    TrailingDigitsAfterHyphen(p + slug, d);
    assert b[..|b| - |d| - 1] == p + slug;
  }

  /**
   * A branch name is `cf/`, the capped slug, a hyphen and the issue number; it
   * gives the issue number (and the slug) back: two issues with different
   * numbers never share a branch.
   */
  lemma BranchNameDeterminesIssue(n1: nat, t1: string, n2: nat, t2: string)
    requires DeriveBranchName(n1, t1) == DeriveBranchName(n2, t2)
    ensures n1 == n2 && Slugify(t1) == Slugify(t2)
  {
    BranchNameParts(n1, t1);
    BranchNameParts(n2, t2);
    DecimalInjective(n1, n2);
  }

  // ---------------------------------------------------------------------------
  // The existing-PR scan
  // ---------------------------------------------------------------------------

  /** `/PR #(\d+)/` matches at index `i`. */
  predicate PRRefAt(line: string, i: int) {
    0 <= i && i + 5 <= |line| && line[i..i + 4] == "PR #" && IsDigit(line[i + 4])
  }

  /** The longest run of decimal digits at the front of `s` (what `(\d+)` captures). */
  function DigitRun(s: string): (r: string)
    ensures AllDigits(r) && |r| <= |s| && r == s[..|r|]
    ensures |r| == |s| || !IsDigit(s[|r|])
  {
    if s != [] && IsDigit(s[0]) then [s[0]] + DigitRun(s[1..]) else []
  }

  /** The leftmost index at or after `from` where `PR #<digits>` starts. */
  function PRRefFrom(line: string, from: nat): (r: Option<nat>)
    ensures r.None? <==> forall j | from <= j < |line| :: !PRRefAt(line, j)
    ensures r.Some? ==> from <= r.value && PRRefAt(line, r.value)
    ensures r.Some? ==> forall j | from <= j < r.value :: !PRRefAt(line, j)
    decreases |line| - from
  {
    if from >= |line| then None
    else if PRRefAt(line, from) then Some(from)
    else PRRefFrom(line, from + 1)
  }

  /** `line.match(/PR #(\d+)/)` read through `parseInt`: the number after the leftmost `PR #`. */
  function PRNumber(line: string): (r: Option<nat>)
    ensures r.None? <==> forall j | 0 <= j < |line| :: !PRRefAt(line, j)
  {
    match PRRefFrom(line, 0)
    case None => None
    case Some(i) => Some(ParseDigits(DigitRun(line[i + 4..])))
  }

  /** A comment line that carries the implementer's marker and a `PR #<digits>` reference. */
  predicate IsPRMarkerLine(line: string) {
    Contains(line, PR_MARKER_PREFIX) && PRNumber(line).Some?
  }

  /** The scan of `findExistingPR` from line `from` on. */
  function FindExistingPRFrom(lines: seq<string>, from: nat): Option<nat>
    decreases |lines| - from
  {
    if from >= |lines| then None
    else if IsPRMarkerLine(lines[from]) then PRNumber(lines[from])
    else FindExistingPRFrom(lines, from + 1)
  }

  /** The scan finds nothing exactly when no line qualifies, and otherwise reads a qualifying line. */
  lemma {:induction false} FindExistingPRFromSpec(lines: seq<string>, from: nat)
    ensures FindExistingPRFrom(lines, from).None? <==> forall i | from <= i < |lines| :: !IsPRMarkerLine(lines[i])
    ensures FindExistingPRFrom(lines, from).Some? ==> exists i | from <= i < |lines| ::
      IsPRMarkerLine(lines[i]) && FindExistingPRFrom(lines, from) == PRNumber(lines[i])
    decreases |lines| - from
  {
    if from < |lines| {
      FindExistingPRFromSpec(lines, from + 1);
      if IsPRMarkerLine(lines[from]) {
        assert PRNumber(lines[from]).Some?;
      }
    }
  }

  /**
   * The number in the first line that both carries the marker and matches
   * `PR #<digits>`; marker lines without a match are passed over; `None` when no
   * line qualifies.
   */
  function FindExistingPR(lines: seq<string>): (r: Option<nat>)
    ensures r.None? <==> forall i | 0 <= i < |lines| :: !IsPRMarkerLine(lines[i])
    ensures r.Some? ==> exists i | 0 <= i < |lines| :: IsPRMarkerLine(lines[i]) && r == PRNumber(lines[i])
  {
    FindExistingPRFromSpec(lines, 0);
    FindExistingPRFrom(lines, 0)
  }

  /** The whole run of digits in front of a non-digit is captured. */
  lemma {:induction false} DigitRunOfDigits(d: string, rest: string)
    requires AllDigits(d) && (rest == [] || !IsDigit(rest[0]))
    ensures DigitRun(d + rest) == d
    decreases |d|
  {
    if d == [] {
      assert d + rest == rest;
    } else {
      assert (d + rest)[1..] == d[1..] + rest;
      DigitRunOfDigits(d[1..], rest);
    }
  }

  /**
   * A reference `PR #<n>` written in decimal after a text that holds no reference
   * (such as the implementer's marker) reads back as `n`.
   */
  lemma PRNumberOfReference(pre: string, n: nat, rest: string)
    requires PRNumber(pre) == None
    requires rest == [] || !IsDigit(rest[0])
    ensures PRNumber(pre + "PR #" + Decimal(n) + rest) == Some(n)
  {
    var d := Decimal(n);
    ReferenceReadsBack(pre, d, rest, pre + "PR #" + d + rest);
    ParseDecimal(n);
  }

  lemma ReferenceReadsBack(pre: string, d: string, rest: string, line: string)
    requires PRNumber(pre) == None
    requires d != [] && AllDigits(d) && (rest == [] || !IsDigit(rest[0]))
    requires line == pre + "PR #" + d + rest
    ensures PRNumber(line) == Some(ParseDigits(d))
  {
    var k, head := |pre|, pre + "PR #";
    StringUtils.ConcatAssoc(head, d, rest);
    assert line[..k + 4] == head && line[k + 4..] == d + rest;
    assert PRRefFrom(line, 0) == Some(k) by {
      assert line[k + 4] == d[0];
      LeftmostReferenceAfter(pre, line);
    }
    assert DigitRun(line[k + 4..]) == d by {
      DigitRunOfDigits(d, rest);
    }
    PRNumberAt(line, k);
  }

  /** After a reference-free text, `PR #` and a digit is the leftmost reference. */
  lemma LeftmostReferenceAfter(pre: string, line: string)
    requires PRNumber(pre) == None
    requires |pre| + 5 <= |line| && line[..|pre| + 4] == pre + "PR #" && IsDigit(line[|pre| + 4])
    ensures PRRefFrom(line, 0) == Some(|pre|)
  {
    var k := |pre|;
    assert line[k..k + 4] == line[..k + 4][k..];
    forall j | 0 <= j < k ensures !PRRefAt(line, j) {
      NoReferenceBefore(pre, line, j);
    }
    PRRefFromFirst(line, k);
  }

  /** No reference starts inside a reference-free text that is followed by `PR #`. */
  lemma NoReferenceBefore(pre: string, line: string, j: nat)
    requires PRNumber(pre) == None
    requires |pre| + 4 <= |line| && line[..|pre| + 4] == pre + "PR #"
    requires j < |pre|
    ensures !PRRefAt(line, j)
  {
    if j + 5 <= |pre| {
      assert line[j..j + 4] == pre[j..j + 4] && line[j + 4] == pre[j + 4] by {
        assert line[..|pre|] == pre;
      }
      assert !PRRefAt(pre, j);
    } else {
      // The character after the window is one of `PR #`, never a digit.
      assert line[j + 4] == "PR #"[j + 4 - |pre|];
    }
  }

  /** The number read is the digit run after the leftmost `PR #`. */
  lemma PRNumberAt(line: string, k: nat)
    requires PRRefFrom(line, 0) == Some(k)
    ensures k + 4 <= |line| && PRNumber(line) == Some(ParseDigits(DigitRun(line[k + 4..])))
  {
  }

  /** The leftmost reference decides `PRNumber`. */
  lemma PRRefFromFirst(line: string, k: nat)
    requires PRRefAt(line, k)
    requires forall j | 0 <= j < k :: !PRRefAt(line, j)
    ensures PRRefFrom(line, 0) == Some(k)
  {
  }

  /** The scan stops at the first line that carries the marker and a reference. */
  lemma {:induction false} FindExistingPRFromFirst(lines: seq<string>, from: nat, i: nat)
    requires from <= i < |lines| && IsPRMarkerLine(lines[i])
    requires forall j | from <= j < i :: !IsPRMarkerLine(lines[j])
    ensures FindExistingPRFrom(lines, from) == PRNumber(lines[i])
    decreases i - from
  {
    if from < i {
      assert !IsPRMarkerLine(lines[from]);
      FindExistingPRFromFirst(lines, from + 1, i);
      assert FindExistingPRFrom(lines, from) == FindExistingPRFrom(lines, from + 1);
    } else {
      assert from == i && IsPRMarkerLine(lines[from]);
      assert FindExistingPRFrom(lines, from) == PRNumber(lines[from]);
    }
  }

  /** A line that carries the marker and a reference names the pull request, unless an earlier such line does. */
  lemma FindExistingPRFirstMarker(lines: seq<string>, i: nat)
    requires i < |lines| && IsPRMarkerLine(lines[i])
    requires forall j | 0 <= j < i :: !IsPRMarkerLine(lines[j])
    ensures FindExistingPR(lines) == PRNumber(lines[i]) && FindExistingPR(lines).Some?
  {
    FindExistingPRFromFirst(lines, 0, i);
  }

  // ---------------------------------------------------------------------------
  // The decision
  // ---------------------------------------------------------------------------

  /**
   * `evaluate(issue, skipPRCheck)`, where `prLookup` is what
   * `findExistingPR(issue.number)` returns (consulted only without `skipPRCheck`);
   * a number counts as an existing PR only when it is not 0.
   */
  function Evaluate(issue: Issue, skipPRCheck: bool, prLookup: Option<nat>): (d: ImplementerDecision)
    // Every decision, refusals included, names the issue and its branch.
    ensures d.issueNumber == issue.number && d.issueTitle == issue.title
    ensures d.branchName == DeriveBranchName(issue.number, issue.title)
    // A pull request is refused whatever its labels.
    ensures issue.isPullRequest ==> !d.shouldImplement && d.existingPR == None && d.blockedLabels == []
    // Without the trigger label nothing is implemented.
    ensures TRIGGER_LABEL !in issue.labels ==> !d.shouldImplement && d.existingPR == None && d.blockedLabels == []
    // The blocked labels are reported only once the first two checks pass, and then all of them.
    ensures d.blockedLabels == if !issue.isPullRequest && TRIGGER_LABEL in issue.labels
      then BlockedLabels(issue.labels) else []
    ensures d.blockedLabels != [] ==> !d.shouldImplement
    // An existing PR is reported only by a lookup that was made and found a non-zero number.
    ensures d.existingPR.Some? <==>
      !issue.isPullRequest && TRIGGER_LABEL in issue.labels && BlockedLabels(issue.labels) == [] &&
      !skipPRCheck && prLookup.Some? && prLookup.value != 0
    ensures d.existingPR.Some? ==> d.existingPR == prLookup && !d.shouldImplement
    // Implementation goes ahead exactly when no check refuses.
    ensures d.shouldImplement <==>
      !issue.isPullRequest && TRIGGER_LABEL in issue.labels && BlockedLabels(issue.labels) == [] &&
      (skipPRCheck || prLookup.None? || prLookup.value == 0)
  {
    var labelNames := issue.labels;
    var branchName := DeriveBranchName(issue.number, issue.title);
    if issue.isPullRequest then
      ImplementerDecision(false, issue.number, issue.title, branchName,
        "Pull request \U{2014} not an issue.", None, [])
    else if TRIGGER_LABEL !in labelNames then
      ImplementerDecision(false, issue.number, issue.title, branchName,
        "Missing required label '" + TRIGGER_LABEL + "'.", None, [])
    else
      var blocked := BlockedLabels(labelNames);
      if |blocked| > 0 then
        ImplementerDecision(false, issue.number, issue.title, branchName,
          "Blocked by label(s): " + Join(blocked, ", ") + ".", None, blocked)
      else if !skipPRCheck && prLookup.Some? && prLookup.value != 0 then
        ImplementerDecision(false, issue.number, issue.title, branchName,
          "A PR already exists for this issue: #" + Decimal(prLookup.value) + ".", prLookup, [])
      else
        ImplementerDecision(true, issue.number, issue.title, branchName,
          "Issue approved for implementation.", None, [])
  }

  // ---------------------------------------------------------------------------
  // The self-test expectations
  // ---------------------------------------------------------------------------

  lemma AddDarkModeFacts()
    ensures Lower("Add dark mode") == "add" + (" " + ("dark" + (" " + ("mode" + []))))
    ensures StringUtils.AllSeparators(" ") && StringUtils.AllSeparators([])
    ensures "add" + "-" + "dark" + "-" + "mode" == "add-dark-mode"
    ensures |"add-dark-mode"| <= SLUG_MAX_LENGTH
  {
  }

  lemma FixLoginBugFacts()
    ensures Lower("Fix: login! @bug#") == "fix" + (": " + ("login" + ("! @" + ("bug" + "#"))))
    ensures StringUtils.AllSeparators(": ") && StringUtils.AllSeparators("! @") && StringUtils.AllSeparators("#")
    ensures "fix" + "-" + "login" + "-" + "bug" == "fix-login-bug"
    ensures |"fix-login-bug"| <= SLUG_MAX_LENGTH
  {
  }

  lemma SlugAddDarkMode()
    ensures StringUtils.Slugify("Add dark mode") == "add-dark-mode"
  {
    AddDarkModeFacts();
    StringUtils.SlugifyThreeWords("Add dark mode", "add", " ", "dark", " ", "mode", []);
  }

  lemma SlugFixLoginBug()
    ensures StringUtils.Slugify("Fix: login! @bug#") == "fix-login-bug"
  {
    FixLoginBugFacts();
    StringUtils.SlugifyThreeWords("Fix: login! @bug#", "fix", ": ", "login", "! @", "bug", "#");
  }

  /** The `slugify` assertions of the self-test. */
  lemma SlugifyExamples()
    ensures Slugify("Add dark mode") == "add-dark-mode"
    ensures Slugify("Fix: login! @bug#") == "fix-login-bug"
  {
    SlugAddDarkMode();
    SlugifyShape("Add dark mode");
    SlugFixLoginBug();
    SlugifyShape("Fix: login! @bug#");
  }

  lemma DecimalFacts()
    ensures Decimal(42) == "42" && Decimal(10) == "10"
  {
    assert Decimal(4) == "4" && Decimal(1) == "1";
  }

  lemma BranchNameFacts()
    ensures Decimal(42) == "42" && Decimal(10) == "10"
    ensures BRANCH_PREFIX + "add-dark-mode" + "-" + "42" == "cf/add-dark-mode-42"
    ensures BRANCH_PREFIX + "add-dark-mode" + "-" + "10" == "cf/add-dark-mode-10"
  {
    DecimalFacts();
  }

  /** The `deriveBranchName` assertion of the self-test, and the branch of the ready payload. */
  lemma DeriveBranchNameExample()
    ensures DeriveBranchName(42, "Add dark mode") == "cf/add-dark-mode-42"
    ensures DeriveBranchName(10, "Add dark mode") == "cf/add-dark-mode-10"
  {
    SlugifyExamples();
    BranchNameFacts();
  }

  /** The self-test payloads that are refused, with the lookup skipped. */
  lemma RefusedExamples()
    ensures !Evaluate(Issue(1, "Feature", Some("Details"), false, User("user", None), ["bug"]), true, None).shouldImplement
    ensures !Evaluate(Issue(3, "PR title", None, true, User("user", None), ["agent:implement"]), true, None).shouldImplement
  {
  }

  lemma ReadyLabelsNotBlocked()
    ensures BlockedLabels(["agent:implement", "enhancement"]) == []
  {
    BlockedLabelsAppend(["agent:implement"], ["enhancement"]);
    assert ["agent:implement"] + ["enhancement"] == ["agent:implement", "enhancement"];
  }

  /** The self-test payload that is implemented, with the lookup skipped, and its branch. */
  lemma ReadyExample()
    ensures var d := Evaluate(Issue(10, "Add dark mode", Some("Implement dark mode"), false, User("user", None),
      ["agent:implement", "enhancement"]), true, None);
      d.shouldImplement && d.branchName == "cf/add-dark-mode-10"
  {
    ReadyLabelsNotBlocked();
    DeriveBranchNameExample();
  }

  /** The self-test payload with a blocking label. */
  lemma BlockedExample()
    ensures var d := Evaluate(Issue(2, "Something", None, false, User("user", None),
      ["agent:implement", "wontfix"]), true, None);
      !d.shouldImplement && "wontfix" in d.blockedLabels
  {
    BlockedLabelsAppend(["agent:implement"], ["wontfix"]);
    assert ["agent:implement"] + ["wontfix"] == ["agent:implement", "wontfix"];
  }
}
