/**
  The tracker client, `postJiraComment`: the request it sends, the response
  text it accumulates, and how it classifies the response. The HTTP exchange
  itself is not modelled; the response is an input.
 */
module Tracker {
  import opened Wrappers
  import opened Strings
  import opened Payload

  const CommentPath: string := "/rest/api/3/issue/"
  const CommentSuffix: string := "/comment"

  /** The one request the action makes. Its `Content-Length` header is not modelled. */
  datatype Request = Request(
    verb: string,
    target: string,
    authorization: string,
    contentType: string,
    body: CommentBody)

  /** `${url}/rest/api/3/issue/${issueKey}/comment`. */
  function CommentTarget(url: string, issueKey: string): (t: string)
    ensures |t| == |url| + |CommentPath| + |issueKey| + |CommentSuffix|
    ensures t[..|url|] == url
  {
    url + CommentPath + issueKey + CommentSuffix
  }

  /** The issue key a comment target names, given the base URL it was built on. */
  function IssueKeyOfTarget(url: string, target: string): Option<string>
  {
    var lo, hi := |url| + |CommentPath|, |target| - |CommentSuffix|;
    if lo <= hi && target[..|url|] == url && target[|url|..lo] == CommentPath && target[hi..] == CommentSuffix
    then Some(target[lo..hi])
    else None
  }

  /** `Basic ${auth}`. */
  function BasicAuthorization(credential: string): (h: string)
    ensures CredentialOf(h) == Some(credential)
  {
    var h := "Basic " + credential;
    assert h[..6] == "Basic " && h[6..] == credential;
    h
  }

  /** The credential an `Authorization` header in the Basic scheme carries. */
  function CredentialOf(header: string): Option<string>
  {
    if |header| >= 6 && header[..6] == "Basic " then Some(header[6..]) else None
  }

  /** The request `postJiraComment` issues for a key, a message and an encoded credential. */
  function CommentRequest(url: string, issueKey: string, message: string, credential: string): (r: Request)
    ensures r.verb == "POST" && r.contentType == "application/json"
    ensures IssueKeyOfTarget(url, r.target) == Some(issueKey)
    ensures CredentialOf(r.authorization) == Some(credential)
    ensures MessageOf(r.body) == Some(message)
  {
    TargetRoundTrip(url, issueKey);
    Request("POST", CommentTarget(url, issueKey), BasicAuthorization(credential), "application/json", ComposeBody(message))
  }

  /** The target names the issue it was built for. */
  lemma TargetRoundTrip(url: string, issueKey: string)
    ensures IssueKeyOfTarget(url, CommentTarget(url, issueKey)) == Some(issueKey)
  {
    var t := CommentTarget(url, issueKey);
    var lo, hi := |url| + |CommentPath|, |t| - |CommentSuffix|;
    assert t[|url|..lo] == CommentPath;
    assert t[lo..hi] == issueKey;
    assert t[hi..] == CommentSuffix;
  }

  /** Targets on one base URL are equal only for equal keys. */
  lemma TargetInjective(url: string, k1: string, k2: string)
    requires CommentTarget(url, k1) == CommentTarget(url, k2)
    ensures k1 == k2
  {
    TargetRoundTrip(url, k1);
    TargetRoundTrip(url, k2);
  }

  // ---------------------------------------------------------------------------
  // The response

  /**
    What the transport delivers: a status code and the body chunks in order,
    each chunk standing for the text its own bytes decode to, or an error.
   */
  datatype Response = Response(statusCode: int, chunks: seq<string>) | TransportError(message: string)

  /** The end of the exchange: a log line on success, the message passed to `core.setFailed` otherwise. */
  datatype Delivery = Delivered(log: string) | DeliveryFailed(message: string)

  /** `res.statusCode >= 200 && res.statusCode < 300`. */
  predicate IsSuccessStatus(statusCode: int) {
    200 <= statusCode < 300
  }

  /** The response text: the chunks joined in the order they arrived. */
  function Joined(chunks: seq<string>): string
  {
    if chunks == [] then "" else Joined(chunks[..|chunks| - 1]) + chunks[|chunks| - 1]
  }

  /** The joined text of the decoded chunks does not depend on how they are grouped. */
  lemma {:induction false} JoinedAppend(a: seq<string>, b: seq<string>)
    ensures Joined(a + b) == Joined(a) + Joined(b)
    decreases |b|
  {
    if b == [] {
      assert a + b == a;
    } else {
      var init, last := b[..|b| - 1], b[|b| - 1];
      assert (a + b)[..|a + b| - 1] == a + init;
      assert (a + b)[|a + b| - 1] == last;
      JoinedAppend(a, init);
      assert Joined(b) == Joined(init) + last;
    }
  }

  /** `res.on('data', chunk => responseData += chunk)`: the text accumulated chunk by chunk. */
  method CollectBody(chunks: seq<string>) returns (responseData: string)
    ensures responseData == Joined(chunks)
  {
    responseData := "";
    var i := 0;
    while i < |chunks|
      invariant 0 <= i <= |chunks|
      invariant responseData == Joined(chunks[..i])
    {
      assert chunks[..i + 1][..i] == chunks[..i];
      responseData := responseData + chunks[i];
      i := i + 1;
    }
    assert chunks[..i] == chunks;
  }

  /** The line logged after a 2xx response names the issue. */
  function SuccessLog(issueKey: string): (m: string)
    ensures Contains(m, issueKey)
  {
    ContainsSuffix("Successfully commented on ", issueKey);
    "Successfully commented on " + issueKey
  }

  /** The failure for any other status names the issue, the status code and the whole response text. */
  function StatusFailure(issueKey: string, statusCode: int, responseData: string): (m: string)
    ensures Contains(m, issueKey)
    ensures Contains(m, DecimalString(statusCode))
    ensures Contains(m, responseData)
  {
    var prefix, code := "Failed to comment on issue ", DecimalString(statusCode);
    var m := prefix + issueKey + ": " + code + " " + responseData;
    var i := |prefix|;
    assert OccursAt(m, issueKey, i) by { assert m[i..i + |issueKey|] == issueKey; }
    var j := i + |issueKey| + 2;
    assert OccursAt(m, code, j) by { assert m[j..j + |code|] == code; }
    var k := j + |code| + 1;
    assert OccursAt(m, responseData, k) by { assert m[k..k + |responseData|] == responseData; }
    m
  }

  /** The failure for a transport error carries the error's message. */
  function TransportFailure(message: string): (m: string)
    ensures Contains(m, message)
  {
    ContainsSuffix("Request error: ", message);
    "Request error: " + message
  }

  /** How the `end` and `error` handlers settle the exchange. */
  function Classify(issueKey: string, response: Response): (d: Delivery)
    ensures d.Delivered? <==> response.Response? && IsSuccessStatus(response.statusCode)
    ensures d.Delivered? ==> Contains(d.log, issueKey)
    ensures d.DeliveryFailed? && response.Response? ==>
      && Contains(d.message, issueKey)
      && Contains(d.message, DecimalString(response.statusCode))
      && Contains(d.message, Joined(response.chunks))
    ensures response.TransportError? ==> Contains(d.message, response.message)
  {
    match response
    case Response(code, chunks) =>
      if IsSuccessStatus(code) then Delivered(SuccessLog(issueKey))
      else DeliveryFailed(StatusFailure(issueKey, code, Joined(chunks)))
    case TransportError(message) => DeliveryFailed(TransportFailure(message))
  }

  /** A failed status is reported with the key, the status code and the whole response text. */
  lemma FailureNamesCodeAndBody(issueKey: string, statusCode: int, chunks: seq<string>)
    requires !IsSuccessStatus(statusCode)
    ensures Classify(issueKey, Response(statusCode, chunks)).DeliveryFailed?
    ensures var m := Classify(issueKey, Response(statusCode, chunks)).message;
      && Contains(m, issueKey)
      && Contains(m, DecimalString(statusCode))
      && Contains(m, Joined(chunks))
  {
  }

  /** A transport error is reported with its own message. */
  lemma TransportFailureNamesError(issueKey: string, message: string)
    ensures Classify(issueKey, TransportError(message)).DeliveryFailed?
    ensures Contains(Classify(issueKey, TransportError(message)).message, message)
  {
  }
}
