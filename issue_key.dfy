/**
  The issue-key extractor: `branchName.match(/[A-Z]+-[0-9]+/)` and its first
  match, or no key. The regular expression is not global, so the match is the
  one a backtracking matcher finds first: the leftmost start position at which
  any match exists and, from that position, the longest digit run (both
  quantifiers are greedy; the letter run has no choice, since `-` is not a
  letter).
 */
module IssueKey {
  import opened Wrappers

  predicate IsUpper(c: char) { 'A' <= c <= 'Z' }

  predicate IsDigit(c: char) { '0' <= c <= '9' }

  ghost predicate AllUpper(t: string) { forall k :: 0 <= k < |t| ==> IsUpper(t[k]) }

  ghost predicate AllDigits(t: string) { forall k :: 0 <= k < |t| ==> IsDigit(t[k]) }

  /** `t` as a whole is a word of `[A-Z]+-[0-9]+`: letters, a hyphen at `h`, digits. */
  ghost predicate IsKeyShape(t: string) {
    exists h :: 0 < h < |t| - 1 && t[h] == '-' && AllUpper(t[..h]) && AllDigits(t[h + 1..])
  }

  /** The span `s[i..j)` matches the pattern. */
  ghost predicate MatchesAt(s: string, i: int, j: int) {
    0 <= i <= j <= |s| && IsKeyShape(s[i..j])
  }

  /** The span `s[i..j)` is the match `String.prototype.match` reports: leftmost, then longest. */
  ghost predicate IsFirstMatch(s: string, i: int, j: int) {
    && MatchesAt(s, i, j)
    && (forall i', j' :: MatchesAt(s, i', j') ==> i <= i')
    && (forall j' :: MatchesAt(s, i, j') ==> j' <= j)
  }

  /** End of the run of upper-case letters that starts at `i`. */
  function UpperRunEnd(s: string, i: nat): (e: nat)
    requires i <= |s|
    ensures i <= e <= |s|
    ensures forall k :: i <= k < e ==> IsUpper(s[k])
    ensures e == |s| || !IsUpper(s[e])
    decreases |s| - i
  {
    if i < |s| && IsUpper(s[i]) then UpperRunEnd(s, i + 1) else i
  }

  /** End of the run of decimal digits that starts at `i`. */
  function DigitRunEnd(s: string, i: nat): (e: nat)
    requires i <= |s|
    ensures i <= e <= |s|
    ensures forall k :: i <= k < e ==> IsDigit(s[k])
    ensures e == |s| || !IsDigit(s[e])
    decreases |s| - i
  {
    if i < |s| && IsDigit(s[i]) then DigitRunEnd(s, i + 1) else i
  }

  /** One attempt of the matcher at start position `i`: the end of the greedy match, if any. */
  function MatchEndAt(s: string, i: nat): (r: Option<nat>)
    requires i <= |s|
    ensures r.Some? ==> i < r.value <= |s|
  {
    var h := UpperRunEnd(s, i);
    if i < h && h < |s| && s[h] == '-' then
      var e := DigitRunEnd(s, h + 1);
      if h + 1 < e then Some(e) else None
    else None
  }

  /** The matcher's scan: try each start position from `i` onwards in turn. */
  function FindFrom(s: string, i: nat): (r: Option<(nat, nat)>)
    requires i <= |s|
    ensures r.Some? ==> i <= r.value.0 < r.value.1 <= |s|
    decreases |s| - i
  {
    if i == |s| then None
    else match MatchEndAt(s, i)
      case Some(e) => Some((i, e))
      case None => FindFrom(s, i + 1)
  }

  /** `extractIssueKey`: the first match of `[A-Z]+-[0-9]+` in the branch name, or no key. */
  function ExtractIssueKey(branchName: string): (r: Option<string>)
    ensures r.None? ==> forall i, j :: !MatchesAt(branchName, i, j)
    ensures r.Some? ==> exists i, j :: IsFirstMatch(branchName, i, j) && r.value == branchName[i..j]
  {
    FindFromCorrect(branchName, 0);
    match FindFrom(branchName, 0)
    case Some((i, j)) => Some(branchName[i..j])
    case None => None
  }

  // ---------------------------------------------------------------------------
  // Correctness of one matcher attempt

  /** A match that starts at `i` has its hyphen exactly where the letter run from `i` ends. */
  lemma HyphenAtRunEnd(s: string, i: nat, j: nat) returns (h: nat)
    requires MatchesAt(s, i, j)
    ensures h == UpperRunEnd(s, i) && i < h && h + 1 < j && s[h] == '-'
    ensures forall k :: h + 1 <= k < j ==> IsDigit(s[k])
  {
    var t := s[i..j];
    var h0 :| 0 < h0 < |t| - 1 && t[h0] == '-' && AllUpper(t[..h0]) && AllDigits(t[h0 + 1..]);
    h := UpperRunEnd(s, i);
    forall k | i <= k < i + h0 ensures IsUpper(s[k]) {
      assert s[k] == t[..h0][k - i];
    }
    assert s[i + h0] == '-';
    forall k | h + 1 <= k < j ensures IsDigit(s[k]) {
      assert s[k] == t[h0 + 1..][k - h - 1];
    }
  }

  /** Letters `s[i..h)`, a hyphen at `h` and digits `s[h+1..j)` make a match. */
  lemma ShapeAt(s: string, i: nat, h: nat, j: nat)
    requires i < h && h + 1 < j <= |s| && s[h] == '-'
    requires forall k :: i <= k < h ==> IsUpper(s[k])
    requires forall k :: h + 1 <= k < j ==> IsDigit(s[k])
    ensures MatchesAt(s, i, j)
  {
    var t := s[i..j];
    var h0 := h - i;
    assert t[h0] == '-';
    assert AllUpper(t[..h0]) by {
      forall k | 0 <= k < h0 ensures IsUpper(t[..h0][k]) {
        assert t[..h0][k] == s[i + k];
      }
    }
    assert AllDigits(t[h0 + 1..]) by {
      forall k | h0 + 1 <= k < |t| ensures IsDigit(t[k]) {
        assert t[k] == s[i + k];
      }
    }
  }

  /** An attempt at `i` succeeds exactly when a match starts at `i`, and then finds the longest one. */
  lemma MatchEndAtCorrect(s: string, i: nat)
    requires i <= |s|
    ensures MatchEndAt(s, i).None? <==> forall j :: !MatchesAt(s, i, j)
    ensures MatchEndAt(s, i).Some? ==>
      var e := MatchEndAt(s, i).value;
      MatchesAt(s, i, e) && forall j :: MatchesAt(s, i, j) ==> j <= e
  {
    var h := UpperRunEnd(s, i);
    if i < h && h < |s| && s[h] == '-' && h + 1 < DigitRunEnd(s, h + 1) {
      var e := DigitRunEnd(s, h + 1);
      ShapeAt(s, i, h, e);
      forall j | MatchesAt(s, i, j) ensures j <= e {
        var h' := HyphenAtRunEnd(s, i, j);
      }
    } else {
      forall j ensures !MatchesAt(s, i, j) {
        if MatchesAt(s, i, j) {
          var h' := HyphenAtRunEnd(s, i, j);
        }
      }
    }
  }

  /** The scan from `i`, given that no match starts before `i`, finds the first match. */
  lemma {:induction false} FindFromCorrect(s: string, i: nat)
    requires i <= |s|
    requires forall i', j' :: MatchesAt(s, i', j') ==> i <= i'
    ensures FindFrom(s, i).None? <==> forall i', j' :: !MatchesAt(s, i', j')
    ensures FindFrom(s, i).Some? ==> IsFirstMatch(s, FindFrom(s, i).value.0, FindFrom(s, i).value.1)
    decreases |s| - i
  {
    if i == |s| {
      forall i', j' ensures !MatchesAt(s, i', j') {
        if MatchesAt(s, i', j') {
          var h' := HyphenAtRunEnd(s, i', j');
        }
      }
    } else {
      MatchEndAtCorrect(s, i);
      if MatchEndAt(s, i).None? {
        FindFromCorrect(s, i + 1);
      }
    }
  }

  // ---------------------------------------------------------------------------
  // What `extractIssueKey` promises

  /** No key is returned exactly when no substring of the branch name matches the pattern. */
  lemma NoKeyIffNoMatch(branchName: string)
    ensures ExtractIssueKey(branchName).None? <==> forall i, j :: !MatchesAt(branchName, i, j)
  {
    FindFromCorrect(branchName, 0);
  }

  /**
    A returned key is the first match: a substring of the branch name of the
    shape `[A-Z]+-[0-9]+`, starting where the leftmost match starts (so not
    preceded by an upper-case letter) and ending where its digit run ends (so
    not followed by a digit).
   */
  lemma KeyIsFirstMatch(branchName: string) returns (i: nat, j: nat)
    requires ExtractIssueKey(branchName).Some?
    ensures IsFirstMatch(branchName, i, j)
    ensures ExtractIssueKey(branchName) == Some(branchName[i..j])
    ensures IsKeyShape(branchName[i..j])
    ensures i == 0 || !IsUpper(branchName[i - 1])
    ensures j == |branchName| || !IsDigit(branchName[j])
  {
    FindFromCorrect(branchName, 0);
    i, j := FindFrom(branchName, 0).value.0, FindFrom(branchName, 0).value.1;
    var h := HyphenAtRunEnd(branchName, i, j);
    if i > 0 && IsUpper(branchName[i - 1]) {
      ShapeAt(branchName, i - 1, h, j);
      assert false;
    }
    if j < |branchName| && IsDigit(branchName[j]) {
      ShapeAt(branchName, i, h, j + 1);
      assert false;
    }
  }

  /** Conversely, whenever a span is the leftmost-longest match, it is the key returned. */
  lemma FirstMatchIsKey(branchName: string, i: nat, j: nat)
    requires IsFirstMatch(branchName, i, j)
    ensures ExtractIssueKey(branchName) == Some(branchName[i..j])
  {
    NoKeyIffNoMatch(branchName);
    var i', j' := KeyIsFirstMatch(branchName);
  }

  /**
    A key behind a prefix without upper-case letters, and not followed by a
    digit, is the key returned; `feature/ABC-123-fix` gives `ABC-123` this way.
   */
  lemma KeyAfterPlainPrefix(prefix: string, key: string, rest: string)
    requires forall k :: 0 <= k < |prefix| ==> !IsUpper(prefix[k])
    requires IsKeyShape(key)
    requires rest == [] || !IsDigit(rest[0])
    ensures ExtractIssueKey(prefix + key + rest) == Some(key)
  {
    var s := prefix + key + rest;
    var i, j := |prefix|, |prefix| + |key|;
    assert s[i..j] == key;
    assert MatchesAt(s, i, j);
    forall i', j' | MatchesAt(s, i', j') ensures i <= i' {
      var h := HyphenAtRunEnd(s, i', j');
    }
    forall j' | MatchesAt(s, i, j') ensures j' <= j {
      var h := HyphenAtRunEnd(s, i, j);
      var h' := HyphenAtRunEnd(s, i, j');
    }
    FirstMatchIsKey(s, i, j);
  }

  /** A branch name without an upper-case letter, such as `main`, carries no key. */
  lemma NoUpperNoKey(branchName: string)
    requires forall k :: 0 <= k < |branchName| ==> !IsUpper(branchName[k])
    ensures ExtractIssueKey(branchName) == None
  {
    forall i, j ensures !MatchesAt(branchName, i, j) {
      if MatchesAt(branchName, i, j) {
        var h := HyphenAtRunEnd(branchName, i, j);
      }
    }
    NoKeyIffNoMatch(branchName);
  }

  /** `main` carries no key. */
  lemma MainBranchExample()
    ensures ExtractIssueKey("main") == None
  {
    NoUpperNoKey("main");
  }

  /** `feature/ABC-123-fix` carries the key `ABC-123`. */
  lemma FeatureBranchExample()
    ensures ExtractIssueKey("feature/ABC-123-fix") == Some("ABC-123")
  {
    var key := "ABC-123";
    assert key[3] == '-' && AllUpper(key[..3]) && AllDigits(key[4..]);
    assert "feature/" + key + "-fix" == "feature/ABC-123-fix";
    KeyAfterPlainPrefix("feature/", key, "-fix");
  }
}
