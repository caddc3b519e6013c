/**
 * The remediation guard (`scripts/remediation-guard.ts`): decides whether the
 * findings of a pull-request review are handed to automated remediation.
 *
 * The number of earlier attempts is read from the pull request's labels by a
 * lookup; the model takes it as the parameter `currentAttempt` and keeps the scan
 * over the label names as `AttemptCount`. Each finding falls in exactly one of
 * three buckets, tested in this order: security (a keyword in the message),
 * protected (the file is one the pipeline must not touch), actionable.
 */
module RemediationGuard {
  import opened Wrappers
  import opened Text

  datatype Severity = Blocking | Warning | Suggestion

  /** The name a severity carries in the review output. */
  function SeverityName(s: Severity): string {
    match s
    case Blocking => "blocking"
    case Warning => "warning"
    case Suggestion => "suggestion"
  }

  /**
   * A review finding. An empty `file` stands for a finding that names no file;
   * `line` is `None` when the finding names no line.
   */
  datatype Finding = Finding(severity: Severity, file: string, line: Option<nat>, message: string)

  datatype RemediationDecision = RemediationDecision(
    shouldRemediate: bool,
    attemptNumber: nat,
    reason: string,
    securityBlockers: seq<string>,
    skippedFindings: seq<string>)

  /** `MAX_ATTEMPTS[strictness] ?? MAX_ATTEMPTS.relaxed`. */
  function MaxAttempts(strictness: string): (r: nat)
    ensures 3 <= r <= 10
    ensures strictness == "relaxed" ==> r == 10
    ensures strictness == "standard" ==> r == 5
    ensures strictness == "strict" ==> r == 3
    ensures strictness != "standard" && strictness != "strict" ==> r == 10
  {
    if strictness == "relaxed" then 10
    else if strictness == "standard" then 5
    else if strictness == "strict" then 3
    else 10
  }

  const SECURITY_KEYWORDS: seq<string> := [
    "security", "injection", "xss", "ssrf", "csrf", "auth bypass", "authentication",
    "authorization", "privilege escalation", "secret", "credential", "token exposure",
    "vulnerability", "sanitize", "unsanitized"]

  /** The directory whose files are protected, whatever their name. */
  const WORKFLOWS_DIR := ".github/workflows/"

  /** Files protected by their exact path. */
  const PROTECTED_FILE_NAMES: seq<string> := [
    "harness.config.json", "KIRO.md", "package-lock.json", "package.json", "tsconfig.json",
    "eslint.config.js"]

  /** The reason given when every finding is a security finding; written in parts around the phrase that matters. */
  const SECURITY_ONLY_REASON := "All findings are " + "security-related" + " and require human review."

  const NO_ACTIONABLE_REASON := "No actionable findings after filtering security and protected-file issues."

  /** `isSecurityFinding`: the lower-cased message contains one of the keywords. */
  predicate IsSecurityFinding(f: Finding) {
    exists k | 0 <= k < |SECURITY_KEYWORDS| :: Contains(Lower(f.message), SECURITY_KEYWORDS[k])
  }

  /** `isProtectedFile`: a workflow file, or one of the protected names exactly. */
  predicate IsProtectedFile(path: string) {
    StartsWith(path, WORKFLOWS_DIR) || path in PROTECTED_FILE_NAMES
  }

  /** `a`, `b`, `c` are the first three characters of some security keyword. */
  predicate KeywordTrigram(a: char, b: char, c: char) {
    || (a == 's' && ((b == 'e' && c == 'c') || (b == 's' && c == 'r') || (b == 'a' && c == 'n')))
    || (a == 'i' && b == 'n' && c == 'j')
    || (a == 'x' && b == 's' && c == 's')
    || (a == 'c' && ((b == 's' && c == 'r') || (b == 'r' && c == 'e')))
    || (a == 'a' && b == 'u' && c == 't')
    || (a == 'p' && b == 'r' && c == 'i')
    || (a == 't' && b == 'o' && c == 'k')
    || (a == 'v' && b == 'u' && c == 'l')
    || (a == 'u' && b == 'n' && c == 's')
  }

  /** No three consecutive characters of `s`, lower-cased, start a security keyword. */
  predicate TrigramFree(s: string) {
    forall k :: 0 <= k < |s| - 2 ==> !KeywordTrigram(LowerChar(s[k]), LowerChar(s[k + 1]), LowerChar(s[k + 2]))
  }

  lemma TrigramFreeIntro(s: string)
    requires forall k :: 0 <= k < |s| - 2 ==> !KeywordTrigram(LowerChar(s[k]), LowerChar(s[k + 1]), LowerChar(s[k + 2]))
    ensures TrigramFree(s)
  {
  }

  /** No keyword starts with a space, so text split at a space can be checked part by part. */
  lemma TrigramFreeAcrossSpace(a: string, b: string)
    requires TrigramFree(a) && TrigramFree(b)
    ensures TrigramFree(a + " " + b)
  {
    var s := a + " " + b;
    forall k | 0 <= k < |s| - 2 ensures !KeywordTrigram(LowerChar(s[k]), LowerChar(s[k + 1]), LowerChar(s[k + 2])) {
      if k + 2 < |a| {
        assert s[k] == a[k] && s[k + 1] == a[k + 1] && s[k + 2] == a[k + 2];
      } else if k > |a| {
        assert s[k] == b[k - |a| - 1] && s[k + 1] == b[k - |a|] && s[k + 2] == b[k - |a| + 1];
      } else {
        assert s[|a|] == ' ';
      }
    }
  }

  /**
   * A finding whose lower-cased message has no window starting a keyword is not a
   * security finding: no keyword occurs in it.
   */
  lemma NotSecurityByTrigrams(f: Finding)
    requires TrigramFree(f.message)
    ensures !IsSecurityFinding(f)
  {
    var s := Lower(f.message);
    forall k | 0 <= k < |s| - 2 ensures !KeywordTrigram(s[k], s[k + 1], s[k + 2]) {
      assert s[k] == LowerChar(f.message[k]) && s[k + 1] == LowerChar(f.message[k + 1]) && s[k + 2] == LowerChar(f.message[k + 2]);
    }
    forall j | 0 <= j < |SECURITY_KEYWORDS| ensures !Contains(s, SECURITY_KEYWORDS[j]) {
      var p := SECURITY_KEYWORDS[j];
      assert KeywordTrigram(p[0], p[1], p[2]);
      NotContainsByTrigram(s, p);
    }
  }

  /** A finding whose message spells a keyword somewhere is a security finding. */
  lemma SecurityByKeyword(f: Finding, before: string, keyword: string, after: string)
    requires Lower(keyword) in SECURITY_KEYWORDS
    requires f.message == before + keyword + after
    ensures IsSecurityFinding(f)
  {
    LowerAppend(before, keyword);
    LowerAppend(before + keyword, after);
    ContainsInfix(Lower(before), Lower(keyword), Lower(after));
    var k :| 0 <= k < |SECURITY_KEYWORDS| && SECURITY_KEYWORDS[k] == Lower(keyword);
  }

  /** The location part of a formatted finding. */
  function Location(f: Finding): (r: string)
    ensures f.file == "" ==> r == "general"
    // The file leads, and a line is appended exactly when it is non-zero.
    ensures f.file != "" ==> StartsWith(r, f.file) && (r == f.file <==> f.line == None || f.line == Some(0))
  {
    if f.file == "" then "general"
    else if f.line == None || f.line == Some(0) then f.file
    else f.file + ":" + Decimal(f.line.value)
  }

  /** `formatFinding(finding, prefix)`: `[prefix] loc — message`. */
  function FormatFinding(f: Finding, prefix: string): (r: string)
    ensures StartsWith(r, "[" + prefix + "] ")
    ensures EndsWith(r, " \U{2014} " + f.message)
  {
    var r := "[" + prefix + "] " + Location(f) + " \U{2014} " + f.message;
    assert r[..|"[" + prefix + "] "|] == "[" + prefix + "] ";
    assert r[|r| - |" \U{2014} " + f.message|..] == " \U{2014} " + f.message;
    r
  }

  /**
   * The location names the file and, when there is a non-zero line, the line after
   * a colon, from which the line number reads back; with no file it is `general`.
   */
  lemma LocationReadsBack(f: Finding)
    ensures f.file == "" ==> Location(f) == "general"
    ensures f.file != "" ==> StartsWith(Location(f), f.file)
    ensures f.file != "" && (f.line == None || f.line == Some(0)) ==> Location(f) == f.file
    ensures f.file != "" && f.line.Some? && f.line.value != 0 ==>
      var loc := Location(f);
      |loc| > |f.file| + 1 && loc[|f.file|] == ':' && AllDigits(loc[|f.file| + 1..]) &&
      ParseDigits(loc[|f.file| + 1..]) == f.line.value
  {
    var loc := Location(f);
    if f.file != "" {
      assert loc[..|f.file|] == f.file;
      if f.line.Some? && f.line.value != 0 {
        assert loc[|f.file| + 1..] == Decimal(f.line.value);
        ParseDecimal(f.line.value);
      }
    }
  }

  // ---------------------------------------------------------------------------
  // Classification
  // ---------------------------------------------------------------------------

  datatype Bucket = Security | Protected | Actionable

  /** The bucket of one finding: the security test comes first, then the file test. */
  function BucketOf(f: Finding): (b: Bucket)
    ensures b == Security <==> IsSecurityFinding(f)
    ensures b == Protected <==> !IsSecurityFinding(f) && f.file != "" && IsProtectedFile(f.file)
  {
    if IsSecurityFinding(f) then Security
    else if f.file != "" && IsProtectedFile(f.file) then Protected
    else Actionable
  }

  /** The findings of bucket `b`, in input order. */
  function InBucket(fs: seq<Finding>, b: Bucket): (r: seq<Finding>)
    ensures |r| <= |fs|
  {
    if fs == [] then []
    else InBucket(fs[..|fs| - 1], b) + (if BucketOf(fs[|fs| - 1]) == b then [fs[|fs| - 1]] else [])
  }

  /** A finding is in the bucket it belongs to, and in no other. */
  lemma {:induction false} InBucketMembers(fs: seq<Finding>, b: Bucket)
    ensures forall f :: f in InBucket(fs, b) <==> f in fs && BucketOf(f) == b
  {
    if fs != [] {
      var init := fs[..|fs| - 1];
      InBucketMembers(init, b);
      assert fs == init + [fs[|fs| - 1]];
    }
  }

  /** The prefix a finding of bucket `b` is formatted with. */
  function PrefixFor(f: Finding, b: Bucket): string {
    if b == Protected then "protected" else SeverityName(f.severity)
  }

  /** The formatted lines of the findings of bucket `b`. */
  function Formatted(fs: seq<Finding>, b: Bucket): (r: seq<string>)
    ensures |r| == |fs|
    ensures forall i | 0 <= i < |fs| :: r[i] == FormatFinding(fs[i], PrefixFor(fs[i], b))
  {
    seq(|fs|, i requires 0 <= i < |fs| => FormatFinding(fs[i], PrefixFor(fs[i], b)))
  }

  /** One more finding joins its own bucket and leaves the other two as they were. */
  lemma InBucketSnoc(init: seq<Finding>, last: Finding, b: Bucket)
    ensures InBucket(init + [last], b) == InBucket(init, b) + (if BucketOf(last) == b then [last] else [])
  {
    assert (init + [last])[..|init|] == init;
  }

  lemma MultisetSnoc(x: seq<Finding>, last: Finding, c: bool)
    ensures multiset(x + (if c then [last] else [])) == multiset(x) + (if c then multiset{last} else multiset{})
  {
    if !c {
      assert x + [] == x;
    }
  }

  /** The buckets of `fs` share out its findings. */
  predicate Partitioned(fs: seq<Finding>) {
    multiset(InBucket(fs, Security)) + multiset(InBucket(fs, Protected)) +
      multiset(InBucket(fs, Actionable)) == multiset(fs)
  }

  lemma PartitionedSnoc(init: seq<Finding>, last: Finding)
    requires Partitioned(init)
    ensures Partitioned(init + [last])
  {
    var b := BucketOf(last);
    InBucketSnoc(init, last, Security);
    InBucketSnoc(init, last, Protected);
    InBucketSnoc(init, last, Actionable);
    MultisetSnoc(InBucket(init, Security), last, b == Security);
    MultisetSnoc(InBucket(init, Protected), last, b == Protected);
    MultisetSnoc(InBucket(init, Actionable), last, b == Actionable);
    assert multiset(init + [last]) == multiset(init) + multiset{last};
  }

  /** Every finding lands in exactly one bucket: the three buckets share out the findings. */
  lemma {:induction false} BucketsPartition(fs: seq<Finding>)
    ensures multiset(InBucket(fs, Security)) + multiset(InBucket(fs, Protected)) +
      multiset(InBucket(fs, Actionable)) == multiset(fs)
  {
    if fs != [] {
      var init, last := fs[..|fs| - 1], fs[|fs| - 1];
      BucketsPartition(init);
      PartitionedSnoc(init, last);
      assert fs == init + [last];
    }
  }

  /** Hence the bucket sizes add up to the number of findings. */
  lemma BucketCounts(fs: seq<Finding>)
    ensures |InBucket(fs, Security)| + |InBucket(fs, Protected)| + |InBucket(fs, Actionable)| == |fs|
  {
    BucketsPartition(fs);
    var s, p, a := InBucket(fs, Security), InBucket(fs, Protected), InBucket(fs, Actionable);
    assert |multiset(s) + multiset(p) + multiset(a)| == |multiset(s)| + |multiset(p)| + |multiset(a)|;
  }

  /** Classification keeps the input order: it distributes over concatenation. */
  lemma {:induction false} InBucketAppend(a: seq<Finding>, c: seq<Finding>, b: Bucket)
    ensures InBucket(a + c, b) == InBucket(a, b) + InBucket(c, b)
    decreases |c|
  {
    if c == [] {
      assert a + c == a;
    } else {
      var init := c[..|c| - 1];
      assert (a + c)[..|a + c| - 1] == a + init;
      InBucketAppend(a, init, b);
    }
  }

  /** A security finding is a blocker even when its file is protected, and is never skipped. */
  lemma SecurityBeforeProtected(fs: seq<Finding>, f: Finding)
    requires f in fs && IsSecurityFinding(f)
    ensures f in InBucket(fs, Security)
    ensures f !in InBucket(fs, Protected) && f !in InBucket(fs, Actionable)
  {
    InBucketMembers(fs, Security);
    InBucketMembers(fs, Protected);
    InBucketMembers(fs, Actionable);
  }

  /** A finding without a file is never skipped as protected. */
  lemma NoFileNeverProtected(fs: seq<Finding>, f: Finding)
    requires f in fs && f.file == ""
    ensures f !in InBucket(fs, Protected)
    ensures f in InBucket(fs, Security) || f in InBucket(fs, Actionable)
  {
    InBucketMembers(fs, Security);
    InBucketMembers(fs, Protected);
    InBucketMembers(fs, Actionable);
  }

  // ---------------------------------------------------------------------------
  // The decision
  // ---------------------------------------------------------------------------

  /**
   * What `evaluate(prNumber, findings, strictness)` returns when the pull request
   * already went through `currentAttempt` attempts.
   */
  function Decide(currentAttempt: nat, findings: seq<Finding>, strictness: string): (d: RemediationDecision)
    ensures d.attemptNumber == currentAttempt + 1
    // Past the cap nothing is classified and nothing is remediated.
    ensures currentAttempt + 1 > MaxAttempts(strictness) ==>
      !d.shouldRemediate && d.securityBlockers == [] && d.skippedFindings == []
    // Under the cap the lists report the security and protected buckets, in input order.
    ensures currentAttempt + 1 <= MaxAttempts(strictness) ==>
      d.securityBlockers == Formatted(InBucket(findings, Security), Security) &&
      d.skippedFindings == Formatted(InBucket(findings, Protected), Protected)
    // Remediation goes ahead exactly when the cap allows it and some finding is actionable.
    ensures d.shouldRemediate <==>
      currentAttempt + 1 <= MaxAttempts(strictness) && InBucket(findings, Actionable) != []
    // Nothing actionable: the reason says whether security findings were the cause.
    ensures currentAttempt + 1 <= MaxAttempts(strictness) && InBucket(findings, Actionable) == [] ==>
      d.reason == if InBucket(findings, Security) != [] then SECURITY_ONLY_REASON else NO_ACTIONABLE_REASON
  {
    var maxAttempts := MaxAttempts(strictness);
    var nextAttempt := currentAttempt + 1;
    if nextAttempt > maxAttempts then LimitDecision(nextAttempt, maxAttempts, strictness)
    else
      Outcome(nextAttempt, maxAttempts, Formatted(InBucket(findings, Security), Security),
        Formatted(InBucket(findings, Protected), Protected), |InBucket(findings, Actionable)|)
  }

  /** The decision once the attempt cap is exceeded. */
  function LimitDecision(nextAttempt: nat, maxAttempts: nat, strictness: string): RemediationDecision {
    RemediationDecision(false, nextAttempt,
      "Remediation limit reached (" + Decimal(maxAttempts) + " attempts for " + strictness +
      " mode). Human review required.", [], [])
  }

  /** The decision under the cap, from the two reported lists and the number of actionable findings. */
  function Outcome(nextAttempt: nat, maxAttempts: nat, securityBlockers: seq<string>, skippedFindings: seq<string>,
    actionableCount: nat): RemediationDecision
  {
    if actionableCount == 0 && |securityBlockers| > 0 then
      RemediationDecision(false, nextAttempt, SECURITY_ONLY_REASON, securityBlockers, skippedFindings)
    else if actionableCount == 0 then
      RemediationDecision(false, nextAttempt, NO_ACTIONABLE_REASON, securityBlockers, skippedFindings)
    else
      RemediationDecision(true, nextAttempt,
        Decimal(actionableCount) + " actionable finding(s) to remediate (attempt " + Decimal(nextAttempt) +
        "/" + Decimal(maxAttempts) + ").", securityBlockers, skippedFindings)
  }

  /**
   * Under the cap, the blockers, the skipped findings and the actionable findings
   * add up to the findings; with no findings nothing is remediated.
   */
  lemma DecideCountsEveryFinding(currentAttempt: nat, findings: seq<Finding>, strictness: string)
    requires currentAttempt + 1 <= MaxAttempts(strictness)
    ensures var d := Decide(currentAttempt, findings, strictness);
      |d.securityBlockers| + |d.skippedFindings| + |InBucket(findings, Actionable)| == |findings|
    ensures findings == [] ==> !Decide(currentAttempt, findings, strictness).shouldRemediate
  {
    BucketCounts(findings);
  }

  /**
   * A review made only of security findings is never remediated under the cap:
   * every finding is reported as a blocker, none is skipped, and a non-empty
   * review gets the security-only reason.
   */
  lemma AllSecurityNotRemediated(currentAttempt: nat, findings: seq<Finding>, strictness: string)
    requires currentAttempt + 1 <= MaxAttempts(strictness)
    requires forall i | 0 <= i < |findings| :: IsSecurityFinding(findings[i])
    ensures var d := Decide(currentAttempt, findings, strictness);
      && !d.shouldRemediate
      && |d.securityBlockers| == |findings|
      && d.skippedFindings == []
      && (findings != [] ==> d.reason == SECURITY_ONLY_REASON)
  {
    AllSecurityBuckets(findings);
  }

  /** When every finding is a security finding, the security bucket is the whole input and the others are empty. */
  lemma {:induction false} AllSecurityBuckets(fs: seq<Finding>)
    requires forall i | 0 <= i < |fs| :: IsSecurityFinding(fs[i])
    ensures InBucket(fs, Security) == fs
    ensures InBucket(fs, Protected) == [] && InBucket(fs, Actionable) == []
  {
    if fs != [] {
      var init := fs[..|fs| - 1];
      AllSecurityBuckets(init);
      assert fs == init + [fs[|fs| - 1]];
    }
  }

  /** The step of the classification loop: one more finding joins its bucket. */
  lemma FormattedSnoc(fs: seq<Finding>, f: Finding, b: Bucket)
    ensures Formatted(fs + [f], b) == Formatted(fs, b) + [FormatFinding(f, PrefixFor(f, b))]
  {
  }

  /** One more finding: it joins the bucket the classification picks, and only that one. */
  lemma ClassifyStep(done: seq<Finding>, f: Finding)
    ensures var security, protected := IsSecurityFinding(f), !IsSecurityFinding(f) && f.file != "" && IsProtectedFile(f.file);
      && Formatted(InBucket(done + [f], Security), Security) == Formatted(InBucket(done, Security), Security) +
        (if security then [FormatFinding(f, SeverityName(f.severity))] else [])
      && Formatted(InBucket(done + [f], Protected), Protected) == Formatted(InBucket(done, Protected), Protected) +
        (if protected then [FormatFinding(f, "protected")] else [])
      && InBucket(done + [f], Actionable) == InBucket(done, Actionable) +
        (if !security && !protected then [f] else [])
  {
    InBucketSnoc(done, f, Security);
    InBucketSnoc(done, f, Protected);
    InBucketSnoc(done, f, Actionable);
    FormattedSnoc(InBucket(done, Security), f, Security);
    FormattedSnoc(InBucket(done, Protected), f, Protected);
  }

  /** The classification loop of `evaluate`: each finding goes to the first bucket that takes it. */
  method Classify(findings: seq<Finding>)
    returns (securityBlockers: seq<string>, skippedFindings: seq<string>, actionableFindings: seq<Finding>)
    ensures securityBlockers == Formatted(InBucket(findings, Security), Security)
    ensures skippedFindings == Formatted(InBucket(findings, Protected), Protected)
    ensures actionableFindings == InBucket(findings, Actionable)
  {
    securityBlockers, skippedFindings, actionableFindings := [], [], [];
    var i := 0;
    while i < |findings|
      invariant 0 <= i <= |findings|
      invariant securityBlockers == Formatted(InBucket(findings[..i], Security), Security)
      invariant skippedFindings == Formatted(InBucket(findings[..i], Protected), Protected)
      invariant actionableFindings == InBucket(findings[..i], Actionable)
    {
      var finding := findings[i];
      assert findings[..i + 1] == findings[..i] + [finding];
      ClassifyStep(findings[..i], finding);
      if IsSecurityFinding(finding) {
        securityBlockers := securityBlockers + [FormatFinding(finding, SeverityName(finding.severity))];
      } else if finding.file != "" && IsProtectedFile(finding.file) {
        skippedFindings := skippedFindings + [FormatFinding(finding, "protected")];
      } else {
        actionableFindings := actionableFindings + [finding];
      }
      i := i + 1;
    }
    assert findings[..i] == findings;
  }

  /** `evaluate`, with the prior attempt count as input. */
  method Evaluate(currentAttempt: nat, findings: seq<Finding>, strictness: string) returns (d: RemediationDecision)
    ensures d == Decide(currentAttempt, findings, strictness)
  {
    var maxAttempts := MaxAttempts(strictness);
    var nextAttempt := currentAttempt + 1;
    if nextAttempt > maxAttempts {
      return LimitDecision(nextAttempt, maxAttempts, strictness);
    }

    var securityBlockers, skippedFindings, actionableFindings := Classify(findings);
    d := Outcome(nextAttempt, maxAttempts, securityBlockers, skippedFindings, |actionableFindings|);
  }

  // ---------------------------------------------------------------------------
  // The attempt count
  // ---------------------------------------------------------------------------

  const ATTEMPT_LABEL_PREFIX := "remediation-attempt-"

  /** `label.match(/^remediation-attempt-(\d+)$/)` read through `parseInt`. */
  function ParseAttemptLabel(name: string): (r: Option<nat>)
    ensures r.Some? <==>
      StartsWith(name, ATTEMPT_LABEL_PREFIX) && |name| > |ATTEMPT_LABEL_PREFIX| &&
      AllDigits(name[|ATTEMPT_LABEL_PREFIX|..])
  {
    if StartsWith(name, ATTEMPT_LABEL_PREFIX) && |name| > |ATTEMPT_LABEL_PREFIX| &&
       AllDigits(name[|ATTEMPT_LABEL_PREFIX|..])
    then Some(ParseDigits(name[|ATTEMPT_LABEL_PREFIX|..]))
    else None
  }

  /** The label of attempt `n` reads back as `n`. */
  lemma AttemptLabelRoundTrip(n: nat)
    ensures ParseAttemptLabel(ATTEMPT_LABEL_PREFIX + Decimal(n)) == Some(n)
  {
    var name := ATTEMPT_LABEL_PREFIX + Decimal(n);
    assert name[..|ATTEMPT_LABEL_PREFIX|] == ATTEMPT_LABEL_PREFIX;
    assert name[|ATTEMPT_LABEL_PREFIX|..] == Decimal(n);
    ParseDecimal(n);
  }

  /** The attempt number a label carries, 0 for any other label. */
  function AttemptOf(name: string): nat {
    match ParseAttemptLabel(name)
    case Some(n) => n
    case None => 0
  }

  /** The largest attempt number among the labels, 0 when none is an attempt label. */
  function MaxAttemptLabel(labels: seq<string>): (m: nat)
    ensures forall i | 0 <= i < |labels| :: AttemptOf(labels[i]) <= m
    ensures m == 0 || exists i | 0 <= i < |labels| :: ParseAttemptLabel(labels[i]) == Some(m)
  {
    if labels == [] then 0
    else
      var init := labels[..|labels| - 1];
      var m := MaxAttemptLabel(init);
      var last := AttemptOf(labels[|labels| - 1]);
      assert forall i | 0 <= i < |init| :: labels[i] == init[i];
      if last > m then last else m
  }

  /**
   * The label scan of `getAttemptCount`: the largest `N` over the labels that are
   * exactly `remediation-attempt-<digits>`, 0 when there is none.
   */
  method AttemptCount(labels: seq<string>) returns (maxAttempt: nat)
    ensures forall i | 0 <= i < |labels| :: ParseAttemptLabel(labels[i]).Some? ==>
      ParseAttemptLabel(labels[i]).value <= maxAttempt
    ensures maxAttempt == 0 || exists i | 0 <= i < |labels| :: ParseAttemptLabel(labels[i]) == Some(maxAttempt)
    ensures maxAttempt == MaxAttemptLabel(labels)
  {
    maxAttempt := 0;
    var i := 0;
    while i < |labels|
      invariant 0 <= i <= |labels|
      invariant maxAttempt == MaxAttemptLabel(labels[..i])
    {
      assert labels[..i + 1][..i] == labels[..i];
      var parsed := ParseAttemptLabel(labels[i]);
      if parsed.Some? {
        var num := parsed.value;
        if num > maxAttempt {
          maxAttempt := num;
        }
      }
      i := i + 1;
    }
    assert labels[..i] == labels;
    forall j | 0 <= j < |labels| && ParseAttemptLabel(labels[j]).Some?
      ensures ParseAttemptLabel(labels[j]).value <= maxAttempt
    {
      assert AttemptOf(labels[j]) <= maxAttempt;
    }
  }

  // ---------------------------------------------------------------------------
  // The self-test expectations
  // ---------------------------------------------------------------------------

  /** The `isProtectedFile` assertions of the self-test. */
  lemma IsProtectedFileExamples()
    ensures IsProtectedFile(".github/workflows/ci.yml")
    ensures IsProtectedFile("harness.config.json") && IsProtectedFile("KIRO.md")
    ensures IsProtectedFile("package-lock.json") && IsProtectedFile("package.json")
    ensures IsProtectedFile("tsconfig.json")
    ensures !IsProtectedFile("src/utils/helpers.ts") && !IsProtectedFile("tests/guard.test.ts")
  {
    assert ".github/workflows/ci.yml"[..|WORKFLOWS_DIR|] == WORKFLOWS_DIR;
    assert "src/utils/helpers.ts"[0] != WORKFLOWS_DIR[0];
    assert "tests/guard.test.ts"[0] != WORKFLOWS_DIR[0];
  }

  /*
   * The self-test's security messages, each written as the text in front of its
   * keyword, the keyword as spelled there, and the text after it; the strings are
   * the self-test's own.
   */
  const INJECTION_MESSAGE := "SQL " + "injection" + " vulnerability in query builder"
  const MOCK_INJECTION_MESSAGE := "SQL " + "injection" + " vulnerability in query"
  const UNSANITIZED_MESSAGE := "Unsanitized" + " user input passed to shell command"
  const AUTHENTICATION_MESSAGE := "Authentication" + " bypass in login handler"

  /** The `isSecurityFinding` assertions of the self-test. */
  lemma IsSecurityFindingExamples()
    ensures IsSecurityFinding(Finding(Blocking, "src/auth.ts", Some(10), INJECTION_MESSAGE))
    ensures IsSecurityFinding(Finding(Blocking, "src/api.ts", Some(5), UNSANITIZED_MESSAGE))
    ensures !IsSecurityFinding(Finding(Warning, "src/utils.ts", Some(5), "Missing null check on optional parameter"))
    ensures !IsSecurityFinding(Finding(Suggestion, "src/ui.ts", Some(20), "Consider using a Map instead of plain object"))
  {
    InjectionIsSecurity(Finding(Blocking, "src/auth.ts", Some(10), INJECTION_MESSAGE));
    UnsanitizedIsSecurity(Finding(Blocking, "src/api.ts", Some(5), UNSANITIZED_MESSAGE));
    NullCheckNotSecurity(Finding(Warning, "src/utils.ts", Some(5), "Missing null check on optional parameter"));
    MapSuggestionNotSecurity(Finding(Suggestion, "src/ui.ts", Some(20), "Consider using a Map instead of plain object"));
  }

  /** The keywords of the self-test's security findings, as they are spelled there. */
  lemma LowerKeywords()
    ensures Lower("injection") == "injection"
    ensures Lower("Unsanitized") == "unsanitized"
    ensures Lower("Authentication") == "authentication"
  {
  }

  lemma InjectionIsSecurity(f: Finding)
    requires f.message == INJECTION_MESSAGE
    ensures IsSecurityFinding(f)
  {
    LowerKeywords();
    SecurityByKeyword(f, "SQL ", "injection", " vulnerability in query builder");
  }

  lemma MockInjectionIsSecurity(f: Finding)
    requires f.message == MOCK_INJECTION_MESSAGE
    ensures IsSecurityFinding(f)
  {
    LowerKeywords();
    SecurityByKeyword(f, "SQL ", "injection", " vulnerability in query");
  }

  lemma UnsanitizedIsSecurity(f: Finding)
    requires f.message == UNSANITIZED_MESSAGE
    ensures IsSecurityFinding(f)
  {
    LowerKeywords();
    assert f.message == [] + "Unsanitized" + " user input passed to shell command";
    SecurityByKeyword(f, [], "Unsanitized", " user input passed to shell command");
  }

  lemma AuthenticationIsSecurity(f: Finding)
    requires f.message == AUTHENTICATION_MESSAGE
    ensures IsSecurityFinding(f)
  {
    LowerKeywords();
    assert f.message == [] + "Authentication" + " bypass in login handler";
    SecurityByKeyword(f, [], "Authentication", " bypass in login handler");
  }

  lemma NullCheckSplit(m: string)
    requires m == "Missing null check on optional parameter"
    ensures m == "Missing null check" + " " + "on optional parameter"
  {
  }

  lemma NullCheckWords()
    ensures "Missing null check" == "Missing" + " " + "null" + " " + "check"
    ensures "on optional parameter" == "on" + " " + "optional" + " " + "parameter"
  {
  }

  lemma NullCheckFirstWords()
    ensures TrigramFree("Missing")
    ensures TrigramFree("null")
    ensures TrigramFree("check")
  {
    TrigramFreeIntro("Missing");
    TrigramFreeIntro("null");
    TrigramFreeIntro("check");
  }

  lemma NullCheckLastWords()
    ensures TrigramFree("on")
    ensures TrigramFree("optional")
    ensures TrigramFree("parameter")
  {
    TrigramFreeIntro("on");
    TrigramFreeIntro("optional");
    TrigramFreeIntro("parameter");
  }

  lemma NullCheckNotSecurity(f: Finding)
    requires f.message == "Missing null check on optional parameter"
    ensures !IsSecurityFinding(f)
  {
    NullCheckSplit(f.message);
    NullCheckWords();
    NullCheckFirstWords();
    NullCheckLastWords();
    TrigramFreeAcrossSpace("Missing", "null");
    TrigramFreeAcrossSpace("Missing" + " " + "null", "check");
    TrigramFreeAcrossSpace("on", "optional");
    TrigramFreeAcrossSpace("on" + " " + "optional", "parameter");
    TrigramFreeAcrossSpace("Missing null check", "on optional parameter");
    NotSecurityByTrigrams(f);
  }

  lemma MapSuggestionSplit(m: string)
    requires m == "Consider using a Map instead of plain object"
    ensures m == "Consider using a Map" + " " + "instead of plain object"
  {
  }

  lemma MapSuggestionWords()
    ensures "Consider using a Map" == "Consider" + " " + "using" + " " + "a" + " " + "Map"
    ensures "instead of plain object" == "instead" + " " + "of" + " " + "plain" + " " + "object"
  {
  }

  lemma MapSuggestionFirstWords()
    ensures TrigramFree("Consider")
    ensures TrigramFree("using")
    ensures TrigramFree("a")
    ensures TrigramFree("Map")
  {
    TrigramFreeIntro("Consider");
    TrigramFreeIntro("using");
    TrigramFreeIntro("a");
    TrigramFreeIntro("Map");
  }

  lemma MapSuggestionLastWords()
    ensures TrigramFree("instead")
    ensures TrigramFree("of")
    ensures TrigramFree("plain")
    ensures TrigramFree("object")
  {
    TrigramFreeIntro("instead");
    TrigramFreeIntro("of");
    TrigramFreeIntro("plain");
    TrigramFreeIntro("object");
  }

  lemma MapSuggestionNotSecurity(f: Finding)
    requires f.message == "Consider using a Map instead of plain object"
    ensures !IsSecurityFinding(f)
  {
    MapSuggestionSplit(f.message);
    MapSuggestionWords();
    MapSuggestionFirstWords();
    MapSuggestionLastWords();
    TrigramFreeAcrossSpace("Consider", "using");
    TrigramFreeAcrossSpace("Consider" + " " + "using", "a");
    TrigramFreeAcrossSpace("Consider" + " " + "using" + " " + "a", "Map");
    TrigramFreeAcrossSpace("instead", "of");
    TrigramFreeAcrossSpace("instead" + " " + "of", "plain");
    TrigramFreeAcrossSpace("instead" + " " + "of" + " " + "plain", "object");
    TrigramFreeAcrossSpace("Consider using a Map", "instead of plain object");
    NotSecurityByTrigrams(f);
  }

  lemma CatchBlockSplit(m: string)
    requires m == "Unhandled error in catch block \U{2014} will crash process"
    ensures m == "Unhandled error in catch" + " " + "block \U{2014} will crash process"
  {
  }

  lemma CatchBlockWords()
    ensures "Unhandled error in catch" == "Unhandled" + " " + "error" + " " + "in" + " " + "catch"
    ensures "block \U{2014} will crash process" == "block" + " " + "\U{2014}" + " " + "will" + " " + "crash" + " " + "process"
  {
  }

  lemma CatchBlockFirstWords()
    ensures TrigramFree("Unhandled")
    ensures TrigramFree("error")
    ensures TrigramFree("in")
    ensures TrigramFree("catch")
  {
    TrigramFreeIntro("Unhandled");
    TrigramFreeIntro("error");
    TrigramFreeIntro("in");
    TrigramFreeIntro("catch");
  }

  lemma CatchBlockLastWords()
    ensures TrigramFree("block")
    ensures TrigramFree("\U{2014}")
    ensures TrigramFree("will")
    ensures TrigramFree("crash")
    ensures TrigramFree("process")
  {
    TrigramFreeIntro("block");
    TrigramFreeIntro("\U{2014}");
    TrigramFreeIntro("will");
    TrigramFreeIntro("crash");
    TrigramFreeIntro("process");
  }

  lemma CatchBlockNotSecurity(f: Finding)
    requires f.message == "Unhandled error in catch block \U{2014} will crash process"
    ensures !IsSecurityFinding(f)
  {
    CatchBlockSplit(f.message);
    CatchBlockWords();
    CatchBlockFirstWords();
    CatchBlockLastWords();
    TrigramFreeAcrossSpace("Unhandled", "error");
    TrigramFreeAcrossSpace("Unhandled" + " " + "error", "in");
    TrigramFreeAcrossSpace("Unhandled" + " " + "error" + " " + "in", "catch");
    TrigramFreeAcrossSpace("block", "\U{2014}");
    TrigramFreeAcrossSpace("block" + " " + "\U{2014}", "will");
    TrigramFreeAcrossSpace("block" + " " + "\U{2014}" + " " + "will", "crash");
    TrigramFreeAcrossSpace("block" + " " + "\U{2014}" + " " + "will" + " " + "crash", "process");
    TrigramFreeAcrossSpace("Unhandled error in catch", "block \U{2014} will crash process");
    NotSecurityByTrigrams(f);
  }

  lemma Tier2Split(m: string)
    requires m == "Consider adding more patterns to tier2"
    ensures m == "Consider adding more" + " " + "patterns to tier2"
  {
  }

  lemma Tier2Words()
    ensures "Consider adding more" == "Consider" + " " + "adding" + " " + "more"
    ensures "patterns to tier2" == "patterns" + " " + "to" + " " + "tier2"
  {
  }

  lemma Tier2FirstWords()
    ensures TrigramFree("Consider")
    ensures TrigramFree("adding")
    ensures TrigramFree("more")
  {
    TrigramFreeIntro("Consider");
    TrigramFreeIntro("adding");
    TrigramFreeIntro("more");
  }

  lemma Tier2LastWords()
    ensures TrigramFree("patterns")
    ensures TrigramFree("to")
    ensures TrigramFree("tier2")
  {
    TrigramFreeIntro("patterns");
    TrigramFreeIntro("to");
    TrigramFreeIntro("tier2");
  }

  lemma Tier2NotSecurity(f: Finding)
    requires f.message == "Consider adding more patterns to tier2"
    ensures !IsSecurityFinding(f)
  {
    Tier2Split(f.message);
    Tier2Words();
    Tier2FirstWords();
    Tier2LastWords();
    TrigramFreeAcrossSpace("Consider", "adding");
    TrigramFreeAcrossSpace("Consider" + " " + "adding", "more");
    TrigramFreeAcrossSpace("patterns", "to");
    TrigramFreeAcrossSpace("patterns" + " " + "to", "tier2");
    TrigramFreeAcrossSpace("Consider adding more", "patterns to tier2");
    NotSecurityByTrigrams(f);
  }

  /** The three findings of the self-test's mixed review. */
  function MockFindings(): seq<Finding> {
    [ Finding(Blocking, "src/utils/parser.ts", Some(42), "Unhandled error in catch block \U{2014} will crash process"),
      Finding(Warning, "src/core/engine.ts", Some(10), MOCK_INJECTION_MESSAGE),
      Finding(Suggestion, "harness.config.json", None, "Consider adding more patterns to tier2") ]
  }

  lemma MockBuckets()
    ensures BucketOf(MockFindings()[0]) == Actionable
    ensures BucketOf(MockFindings()[1]) == Security
    ensures BucketOf(MockFindings()[2]) == Protected
  {
    var fs := MockFindings();
    CatchBlockNotSecurity(fs[0]);
    assert !IsProtectedFile(fs[0].file) by {
      assert fs[0].file[0] != WORKFLOWS_DIR[0];
    }
    MockInjectionIsSecurity(fs[1]);
    Tier2NotSecurity(fs[2]);
  }

  /** The mixed review: one security blocker, one protected skip, and remediation goes ahead. */
  lemma MixedReviewExample()
    ensures var d := Decide(0, MockFindings(), "relaxed");
      |d.securityBlockers| == 1 && |d.skippedFindings| == 1 && d.shouldRemediate
  {
    var fs := MockFindings();
    MockBuckets();
    assert fs == [fs[0]] + [fs[1]] + [fs[2]];
    forall b ensures InBucket(fs, b) == InBucket([fs[0]], b) + InBucket([fs[1]], b) + InBucket([fs[2]], b) {
      InBucketAppend([fs[0]], [fs[1]], b);
      InBucketAppend([fs[0]] + [fs[1]], [fs[2]], b);
    }
    assert InBucket(fs, Security) == [fs[1]];
    assert InBucket(fs, Protected) == [fs[2]];
    assert InBucket(fs, Actionable) == [fs[0]];
  }

  /** The reason given when every finding is a security finding says so. */
  lemma SecurityOnlyReasonMentionsSecurity()
    ensures Contains(SECURITY_ONLY_REASON, "security-related")
  {
    ContainsInfix("All findings are ", "security-related", " and require human review.");
  }

  /** A review with one authentication finding only: no remediation, and the reason says why. */
  lemma SecurityOnlyExample()
    ensures var d := Decide(0, [Finding(Blocking, "src/auth.ts", Some(1), AUTHENTICATION_MESSAGE)], "relaxed");
      !d.shouldRemediate && d.reason == SECURITY_ONLY_REASON
  {
    var f := Finding(Blocking, "src/auth.ts", Some(1), AUTHENTICATION_MESSAGE);
    AuthenticationIsSecurity(f);
    assert [f][..0] == [];
    assert InBucket([f], Security) == [f];
    assert InBucket([f], Actionable) == [];
  }

  /** An empty review is not remediated. */
  lemma EmptyReviewExample()
    ensures !Decide(0, [], "relaxed").shouldRemediate
  {
  }
}
