/** The label filter and the pull-request metadata it reads. */
module Labels {
  import opened Wrappers

  /** A pull-request label; only its `name` is consulted. */
  datatype Label = Label(name: string)

  /** The `pull_request` of the event payload; its `labels` field may be absent. */
  datatype PullRequest = PullRequest(labels: Option<seq<Label>>)

  /** `pullRequest ? pullRequest.labels || [] : []`: a missing pull request or label list is empty. */
  function LabelsOf(pullRequest: Option<PullRequest>): (ls: seq<Label>)
    ensures pullRequest.None? ==> ls == []
    ensures pullRequest.Some? && pullRequest.value.labels.None? ==> ls == []
    ensures pullRequest.Some? && pullRequest.value.labels.Some? ==> ls == pullRequest.value.labels.value
  {
    match pullRequest
    case None => []
    case Some(pr) =>
      match pr.labels
      case Some(ls) => ls
      case None => []
  }

  /** `shouldSkip`: `labels.some(label => label.name === skipLabel)`, scanning from the front. */
  function ShouldSkip(labels: seq<Label>, skipLabel: string): (r: bool)
    ensures r <==> exists k :: 0 <= k < |labels| && labels[k].name == skipLabel
  {
    if labels == [] then false
    else labels[0].name == skipLabel || ShouldSkip(labels[1..], skipLabel)
  }

  /** An empty label list never skips. */
  lemma NoLabelsNoSkip(skipLabel: string)
    ensures !ShouldSkip([], skipLabel)
  {
  }

  /** Without a pull request, or without its label list, the comment is never skipped. */
  lemma MissingLabelsNoSkip(pullRequest: Option<PullRequest>, skipLabel: string)
    requires pullRequest.None? || pullRequest.value.labels.None?
    ensures !ShouldSkip(LabelsOf(pullRequest), skipLabel)
  {
  }

  /** The filter depends on the label set only: splitting the list splits the test. */
  lemma {:induction false} ShouldSkipAppend(a: seq<Label>, b: seq<Label>, skipLabel: string)
    ensures ShouldSkip(a + b, skipLabel) == (ShouldSkip(a, skipLabel) || ShouldSkip(b, skipLabel))
  {
    if a == [] {
      assert a + b == b;
    } else {
      assert (a + b)[1..] == a[1..] + b;
      ShouldSkipAppend(a[1..], b, skipLabel);
    }
  }

  /**
    The comparison is exact: a label whose name differs from the skip label in
    any way, letter case included, does not match it.
   */
  lemma ExactComparison(name: string, skipLabel: string)
    ensures ShouldSkip([Label(name)], skipLabel) <==> name == skipLabel
  {
    assert [Label(name)][0].name == name;
  }

  /** An empty skip label only ever matches a label with an empty name. */
  lemma EmptySkipLabel(labels: seq<Label>)
    requires forall k :: 0 <= k < |labels| ==> labels[k].name != ""
    ensures !ShouldSkip(labels, "")
  {
  }
}
