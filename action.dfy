/**
  The orchestration of `run`: from the triggering ref, the pull request of
  the event and the action's inputs to what the invocation does. The inputs
  and the ambient context are parameters; instead of calling the toolkit, the
  decision is returned as an `Outcome` and the final signal as a `Report`.
 */
module Action {
  import opened Wrappers
  import opened Strings
  import opened IssueKey
  import opened Labels
  import opened Payload
  import Base64
  import Utf8
  import Bytes
  import opened Tracker

  /** The inputs `core.getInput` supplies, as strings (empty when not set). */
  datatype Inputs = Inputs(
    email: string,
    token: string,
    url: string,
    successText: string,
    failedText: string,
    skipLabel: string,
    status: string)

  /** The parts of `github.context` that are read. */
  datatype Context = Context(ref: string, pullRequest: Option<PullRequest>)

  /** What the invocation does: stop without a key, stop on the skip label, or post one comment. */
  datatype Outcome = NoKey(branchName: string) | Skipped(skipLabel: string) | Post(issueKey: string, request: Request)

  const BranchRefPrefix: string := "refs/heads/"

  /** `github.context.ref.replace('refs/heads/', '')`. */
  function BranchName(ref: string): (b: string)
    ensures IndexOf(ref, BranchRefPrefix).None? ==> b == ref
    ensures IndexOf(ref, BranchRefPrefix).Some? ==> |b| == |ref| - |BranchRefPrefix|
  {
    RemoveFirst(ref, BranchRefPrefix)
  }

  /** `Buffer.from(`${email}:${token}`).toString('base64')`. */
  function Credential(email: string, token: string): (c: string)
    ensures Base64.Decode(c) == Some(Utf8.Encode(email + ":" + token))
    ensures |c| == 4 * ((|Utf8.Encode(email + ":" + token)| + 2) / 3)
  {
    Base64.DecodeEncode(Utf8.Encode(email + ":" + token));
    Base64.Encode(Utf8.Encode(email + ":" + token))
  }

  /** `successText` when the status input is exactly `success`, `failedText` otherwise. */
  function ChosenMessage(inputs: Inputs): (m: string)
    ensures inputs.status == "success" ==> m == inputs.successText
    ensures inputs.status != "success" ==> m == inputs.failedText
  {
    if inputs.status == "success" then inputs.successText else inputs.failedText
  }

  /** The decision steps of `run`, in their order. */
  function Decide(context: Context, inputs: Inputs): (o: Outcome)
    ensures o.NoKey? <==> ExtractIssueKey(BranchName(context.ref)).None?
    ensures o.NoKey? ==> o.branchName == BranchName(context.ref)
    ensures o.Skipped? ==> o.skipLabel == inputs.skipLabel && ShouldSkip(LabelsOf(context.pullRequest), inputs.skipLabel)
    ensures o.Post? ==> ExtractIssueKey(BranchName(context.ref)) == Some(o.issueKey)
    ensures o.Post? ==> o.request.verb == "POST"
    ensures o.Post? ==>
      && CredentialOf(o.request.authorization).Some?
      && Base64.Decode(CredentialOf(o.request.authorization).value) == Some(Utf8.Encode(inputs.email + ":" + inputs.token))
  {
    var branchName := BranchName(context.ref);
    match ExtractIssueKey(branchName)
    case None => NoKey(branchName)
    case Some(issueKey) =>
      if ShouldSkip(LabelsOf(context.pullRequest), inputs.skipLabel) then Skipped(inputs.skipLabel)
      else
        var auth := Credential(inputs.email, inputs.token);
        Post(issueKey, CommentRequest(inputs.url, issueKey, ChosenMessage(inputs), auth))
  }

  // ---------------------------------------------------------------------------
  // The decision

  /** The branch name is the ref without its first `refs/heads/`, or the ref itself when it has none. */
  lemma BranchNameOfRef(ref: string)
    ensures (forall i :: !OccursAt(ref, BranchRefPrefix, i)) ==> BranchName(ref) == ref
    ensures forall i ::
      OccursAt(ref, BranchRefPrefix, i) && (forall i' :: 0 <= i' < i ==> !OccursAt(ref, BranchRefPrefix, i')) ==>
        BranchName(ref) == ref[..i] + ref[i + |BranchRefPrefix|..]
    ensures BranchName(BranchRefPrefix + ref) == ref
  {
    RemoveLeadingOccurrence(BranchRefPrefix, ref);
  }

  /** No key means no comment. */
  lemma NoKeyNoPost(context: Context, inputs: Inputs)
    ensures Decide(context, inputs).NoKey? <==> forall i, j :: !MatchesAt(BranchName(context.ref), i, j)
  {
    NoKeyIffNoMatch(BranchName(context.ref));
  }

  /** A key and a label named exactly as the skip label mean no comment. */
  lemma SkipLabelNoPost(context: Context, inputs: Inputs)
    ensures Decide(context, inputs).Skipped? <==>
      && ExtractIssueKey(BranchName(context.ref)).Some?
      && exists k :: 0 <= k < |LabelsOf(context.pullRequest)| && LabelsOf(context.pullRequest)[k].name == inputs.skipLabel
  {
  }

  /** Without a pull request, or without labels on it, a branch with a key always gets its comment. */
  lemma NoPullRequestPosts(context: Context, inputs: Inputs)
    requires context.pullRequest.None? || context.pullRequest.value.labels.None?
    requires ExtractIssueKey(BranchName(context.ref)).Some?
    ensures Decide(context, inputs).Post?
  {
    MissingLabelsNoSkip(context.pullRequest, inputs.skipLabel);
  }

  /**
    Otherwise exactly one comment is posted: on the first issue key of the
    branch, to the comment endpoint of the configured URL, authorised by the
    Base64 of `email:token`, with the success text when the status input is
    exactly `success` and the failed text otherwise.
   */
  lemma PostedComment(context: Context, inputs: Inputs)
    requires Decide(context, inputs).Post?
    ensures var o := Decide(context, inputs);
      && ExtractIssueKey(BranchName(context.ref)) == Some(o.issueKey)
      && !ShouldSkip(LabelsOf(context.pullRequest), inputs.skipLabel)
      && o.request.verb == "POST"
      && o.request.contentType == "application/json"
      && o.request.target == inputs.url + "/rest/api/3/issue/" + o.issueKey + "/comment"
      && o.request.authorization == "Basic " + Credential(inputs.email, inputs.token)
      && IsBoldParagraphDoc(o.request.body)
      && MessageOf(o.request.body) == Some(if inputs.status == "success" then inputs.successText else inputs.failedText)
  {
  }

  /** The four groups of the Base64 of `a@b.com:t0k`. */
  lemma ExampleGroups()
    ensures Base64.EncodeGroup(97, 64, 98) == "YUBi"
    ensures Base64.EncodeGroup(46, 99, 111) == "LmNv"
    ensures Base64.EncodeGroup(109, 58, 116) == "bTp0"
    ensures Base64.EncodeTail2(48, 107) == "MGs="
  {
  }

  /** The credential for `a@b.com` and `t0k` is the Base64 of `a@b.com:t0k`. */
  lemma CredentialExample()
    ensures Credential("a@b.com", "t0k") == "YUBiLmNvbTp0MGs="
  {
    var s := "a@b.com" + ":" + "t0k";
    var b: seq<Bytes.byte> := [97, 64, 98, 46, 99, 111, 109, 58, 116, 48, 107];
    Utf8.AsciiEncoding(s);
    assert Utf8.Encode(s) == b;
    ExampleGroups();
    assert Base64.Encode(b[9..]) == "MGs=";
    assert Base64.Encode(b[6..]) == "bTp0" + Base64.Encode(b[9..]);
    assert Base64.Encode(b[3..]) == "LmNv" + Base64.Encode(b[6..]);
    assert Base64.Encode(b) == "YUBi" + Base64.Encode(b[3..]);
  }

  /**
    A ref without upper-case letters yields no key, whatever the inputs: the
    branch name keeps only characters of the ref. Pull-request merge refs
    such as `refs/pull/7/merge` are of this kind.
   */
  lemma LowerCaseRefNoKey(context: Context, inputs: Inputs)
    requires forall k :: 0 <= k < |context.ref| ==> !IsUpper(context.ref[k])
    ensures Decide(context, inputs).NoKey?
  {
    var ref := context.ref;
    var b := BranchName(ref);
    forall k | 0 <= k < |b| ensures !IsUpper(b[k]) {
      match IndexOf(ref, BranchRefPrefix)
      case None =>
      case Some(i) =>
        assert b == ref[..i] + ref[i + |BranchRefPrefix|..];
        if k < i {
          assert b[k] == ref[k];
        } else {
          assert b[k] == ref[k + |BranchRefPrefix|];
        }
    }
    NoUpperNoKey(b);
  }

  // ---------------------------------------------------------------------------
  // The whole invocation

  /** What reaches the runner: a warning, an informational line, or a failure that fails the step. */
  datatype Report = Warning(message: string) | Info(message: string) | Failed(message: string)

  /** The runner sees the step fail only on a `Failed` report. */
  predicate StepSucceeds(report: Report) { !report.Failed? }

  /** The invocation with the transport's response as a parameter; the response is only consulted when a comment is posted. */
  function Run(context: Context, inputs: Inputs, response: Response): (r: Report)
    ensures r.Warning? <==> Decide(context, inputs).NoKey?
    ensures r.Warning? ==> Contains(r.message, BranchName(context.ref))
    ensures Decide(context, inputs).Skipped? ==> r == Info("Skipping step due to label: " + inputs.skipLabel)
    ensures r.Failed? ==> Decide(context, inputs).Post?
    ensures r.Failed? && response.Response? ==>
      && Contains(r.message, Decide(context, inputs).issueKey)
      && Contains(r.message, DecimalString(response.statusCode))
      && Contains(r.message, Joined(response.chunks))
    ensures Decide(context, inputs).Post? && response.Response? && IsSuccessStatus(response.statusCode) ==>
      r.Info? && Contains(r.message, Decide(context, inputs).issueKey)
    ensures r.Failed? && response.TransportError? ==> Contains(r.message, response.message)
  {
    ContainsSuffix("Cannot extract JIRA issue key from branch: ", BranchName(context.ref));
    match Decide(context, inputs)
    case NoKey(branchName) => Warning("Cannot extract JIRA issue key from branch: " + branchName)
    case Skipped(skipLabel) => Info("Skipping step due to label: " + skipLabel)
    case Post(issueKey, _) =>
      match Classify(issueKey, response)
      case Delivered(log) => Info(log)
      case DeliveryFailed(message) => Failed(message)
  }

  /** The step fails exactly when a comment is posted and the tracker does not answer with a 2xx status. */
  lemma StepFailsOnlyOnDelivery(context: Context, inputs: Inputs, response: Response)
    ensures !StepSucceeds(Run(context, inputs, response)) <==>
      Decide(context, inputs).Post? && !(response.Response? && IsSuccessStatus(response.statusCode))
  {
  }

  /** Stopping without a key, or on the skip label, does not depend on the transport at all. */
  lemma NoPostIgnoresResponse(context: Context, inputs: Inputs, r1: Response, r2: Response)
    requires !Decide(context, inputs).Post?
    ensures Run(context, inputs, r1) == Run(context, inputs, r2)
    ensures StepSucceeds(Run(context, inputs, r1))
  {
  }
}
