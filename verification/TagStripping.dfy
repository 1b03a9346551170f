/** Removing marked regions from a file, as `StripContentBetweenTags` in create_lts.py does:
    find the first begin tag and the first end tag after it, delete every occurrence of that
    exact region, and start again. */
module TagStripping {
  import opened TextSearch
  import opened TextFiles

  // ---------- the algorithm ----------

  /** The outcome of the two searches: no begin tag, no end tag behind it, or a region. */
  datatype Search = NoBegin | NoEnd(begin: nat) | Found(begin: nat, end: nat)

  /** The first begin tag and the first end tag after it; `end` is where the end tag starts. */
  function Locate(content: string, beginTag: string, endTag: string): (r: Search)
    ensures r.NoBegin? <==> !Contains(content, beginTag)
    ensures !r.NoBegin? ==> OccursAt(content, beginTag, r.begin) && Find(content, beginTag, 0) == r.begin
    ensures r.NoEnd? ==> Find(content, endTag, r.begin + |beginTag|) == -1
    ensures r.Found? ==>
              && OccursAt(content, endTag, r.end)
              && r.begin + |beginTag| <= r.end
              && Find(content, endTag, r.begin + |beginTag|) == r.end
  {
    var begin := Find(content, beginTag, 0);
    if begin == -1 then NoBegin
    else
      var end := Find(content, endTag, begin + |beginTag|);
      if end == -1 then NoEnd(begin) else Found(begin, end)
  }

  datatype Step = Done | Imbalanced | Next(content: string)

  /** One round of the loop. */
  function Round(content: string, beginTag: string, endTag: string): Step {
    match Locate(content, beginTag, endTag)
    case NoBegin => Done
    case NoEnd(_) => Imbalanced
    case Found(begin, end) => Next(Replace(content, content[begin..end + |endTag|], ""))
  }

  lemma RoundShortens(content: string, beginTag: string, endTag: string)
    requires |beginTag| + |endTag| > 0
    requires Round(content, beginTag, endTag).Next?
    ensures |Round(content, beginTag, endTag).content| + |beginTag| + |endTag| <= |content|
  {
    var found := Locate(content, beginTag, endTag);
    DeletionShortens(content, content[found.begin..found.end + |endTag|], found.begin);
  }

  lemma DeletionShortens(content: string, region: string, begin: nat)
    requires region != "" && OccursAt(content, region, begin)
    ensures |ReplaceKey(content, region, "")| + |region| <= |content|
  {
    CountDecidesContains(content, region);
    ReplaceLength(content, region, "");
    AtLeastOnce(Count(content, region), |region|);
  }

  lemma AtLeastOnce(n: int, d: int)
    requires n > 0 && d >= 0
    ensures n * (0 - d) <= 0 - d
  {
  }

  /** The whole run. With both tags empty the loop never ends (see `EmptyTagsNeverFinish`). */
  function Strip(content: string, beginTag: string, endTag: string): Outcome
    requires |beginTag| + |endTag| > 0
    decreases |content|
  {
    match Round(content, beginTag, endTag)
    case Done => Rewritten(content)
    case Imbalanced => Failed(ImbalancedTags(beginTag, endTag))
    case Next(shorter) =>
      RoundShortens(content, beginTag, endTag);
      Strip(shorter, beginTag, endTag)
  }

  lemma StripContinues(content: string, beginTag: string, endTag: string, begin: nat, end: nat, shorter: string)
    requires |beginTag| + |endTag| > 0
    requires begin == Find(content, beginTag, 0) && end == Find(content, endTag, begin + |beginTag|)
    requires shorter == Replace(content, content[begin..end + |endTag|], "")
    ensures |shorter| < |content|
    ensures Strip(content, beginTag, endTag) == Strip(shorter, beginTag, endTag)
  {
    assert Locate(content, beginTag, endTag) == Found(begin, end);
    assert Round(content, beginTag, endTag) == Next(shorter);
    RoundShortens(content, beginTag, endTag);
  }

  /** The file is rewritten only after the loop has ended without an exception. */
  method StripContentBetweenTags(file: TextFile, beginTag: string, endTag: string) returns (r: Outcome)
    requires |beginTag| + |endTag| > 0
    modifies file
    ensures r == Strip(old(file.content), beginTag, endTag)
    ensures file.content == if r.Rewritten? then r.content else old(file.content)
  {
    var content := file.content;
    ghost var goal := Strip(content, beginTag, endTag);
    while true
      invariant Strip(content, beginTag, endTag) == goal
      invariant file.content == old(file.content)
      decreases |content|
    {
      var begin := Find(content, beginTag, 0);
      if begin == -1 {
        break;
      }
      var end := Find(content, endTag, begin + |beginTag|);
      if end == -1 {
        return Failed(ImbalancedTags(beginTag, endTag));
      }
      var shorter := Replace(content, content[begin..end + |endTag|], "");
      StripContinues(content, beginTag, endTag, begin, end, shorter);
      content := shorter;
    }
    file.content := content;
    r := Rewritten(content);
  }

  // ---------- what holds for every input ----------

  /** `x` can be obtained from `y` by deleting characters. */
  predicate Subsequence(x: string, y: string) {
    if x == "" then true
    else if y == "" then false
    else (x[0] == y[0] && Subsequence(x[1..], y[1..])) || Subsequence(x, y[1..])
  }

  lemma {:induction false} DropHead(x: string, y: string)
    requires x != "" && Subsequence(x, y)
    ensures Subsequence(x[1..], y)
    decreases |y|
  {
    if x[0] == y[0] && Subsequence(x[1..], y[1..]) {
      if x[1..] != "" {
        // x[1..] embeds in y[1..], hence in y
        assert Subsequence(x[1..], y[1..]);
      }
    } else {
      DropHead(x, y[1..]);
    }
  }

  lemma {:induction false} SubsequenceTransitive(x: string, y: string, z: string)
    requires Subsequence(x, y) && Subsequence(y, z)
    ensures Subsequence(x, z)
    decreases |z|
  {
    if x != "" && y != "" {
      if y[0] == z[0] && Subsequence(y[1..], z[1..]) {
        if x[0] == y[0] && Subsequence(x[1..], y[1..]) {
          SubsequenceTransitive(x[1..], y[1..], z[1..]);
        } else {
          SubsequenceTransitive(x, y[1..], z[1..]);
        }
      } else {
        SubsequenceTransitive(x, y, z[1..]);
      }
    }
  }

  lemma {:induction false} SkipPrefix(x: string, y: string, n: nat)
    requires n <= |y| && Subsequence(x, y[n..])
    ensures Subsequence(x, y)
    decreases n
  {
    if n == 0 {
      assert y[0..] == y;
    } else {
      assert y[1..][n - 1..] == y[n..];
      SkipPrefix(x, y[1..], n - 1);
    }
  }

  lemma {:induction false} DeletionIsSubsequence(text: string, key: string)
    requires key != ""
    ensures Subsequence(ReplaceKey(text, key, ""), text)
    decreases |text|
  {
    if |text| < |key| {
      SubsequenceReflexive(text);
    } else if OccursAt(text, key, 0) {
      DeletionIsSubsequence(text[|key|..], key);
      SkipPrefix(ReplaceKey(text[|key|..], key, ""), text, |key|);
      assert "" + ReplaceKey(text[|key|..], key, "") == ReplaceKey(text[|key|..], key, "");
    } else {
      DeletionIsSubsequence(text[1..], key);
      assert ReplaceKey(text, key, "")[1..] == ReplaceKey(text[1..], key, "");
    }
  }

  lemma {:induction false} SubsequenceReflexive(x: string)
    ensures Subsequence(x, x)
    decreases |x|
  {
    if x == "" {
    } else {
      SubsequenceReflexive(x[1..]);
    }
  }

  lemma RoundDeletes(content: string, beginTag: string, endTag: string)
    requires |beginTag| + |endTag| > 0
    requires Round(content, beginTag, endTag).Next?
    ensures Subsequence(Round(content, beginTag, endTag).content, content)
  {
    var found := Locate(content, beginTag, endTag);
    DeletionIsSubsequence(content, content[found.begin..found.end + |endTag|]);
  }

  /** On success no begin tag survives and characters were only deleted, none exactly when the
      content held no begin tag. On failure the content did hold one. */
  ghost predicate Guaranteed(content: string, beginTag: string, endTag: string, r: Outcome) {
    && (r.Failed? ==> Contains(content, beginTag))
    && (r.Rewritten? ==>
          && !Contains(r.content, beginTag)
          && Subsequence(r.content, content)
          && (r.content == content <==> !Contains(content, beginTag))
          && (Contains(content, beginTag) ==> |r.content| + |beginTag| + |endTag| <= |content|))
  }

  lemma {:induction false} StripGuarantees(content: string, beginTag: string, endTag: string)
    requires |beginTag| + |endTag| > 0
    ensures Guaranteed(content, beginTag, endTag, Strip(content, beginTag, endTag))
    decreases |content|
  {
    var step := Round(content, beginTag, endTag);
    if step.Done? {
      SubsequenceReflexive(content);
    } else if step.Next? {
      RoundShortens(content, beginTag, endTag);
      RoundDeletes(content, beginTag, endTag);
      StripGuarantees(step.content, beginTag, endTag);
      var r := Strip(step.content, beginTag, endTag);
      if r.Rewritten? {
        SubsequenceTransitive(r.content, step.content, content);
      }
    }
  }

  /** Stripping a stripped content changes nothing. */
  lemma StrippingTwice(content: string, beginTag: string, endTag: string)
    requires |beginTag| + |endTag| > 0 && Strip(content, beginTag, endTag).Rewritten?
    ensures Strip(Strip(content, beginTag, endTag).content, beginTag, endTag) == Strip(content, beginTag, endTag)
  {
    StripGuarantees(content, beginTag, endTag);
    NothingToStrip(Strip(content, beginTag, endTag).content, beginTag, endTag);
  }

  lemma NothingToStrip(content: string, beginTag: string, endTag: string)
    requires |beginTag| + |endTag| > 0 && !Contains(content, beginTag)
    ensures Strip(content, beginTag, endTag) == Rewritten(content)
  {
  }

  /** An empty begin tag is always found again, so with a non-empty end tag the run always
      ends in the exception. */
  lemma {:induction false} EmptyBeginTagAlwaysFails(content: string, endTag: string)
    requires endTag != ""
    ensures Strip(content, "", endTag) == Failed(ImbalancedTags("", endTag))
    decreases |content|
  {
    assert OccursAt(content, "", 0);
    var step := Round(content, "", endTag);
    if step.Next? {
      RoundShortens(content, "", endTag);
      EmptyBeginTagAlwaysFails(step.content, endTag);
    }
  }

  /** With two empty tags a round reproduces its input: the loop cannot end. */
  lemma EmptyTagsNeverFinish(content: string)
    ensures Round(content, "", "") == Next(content)
  {
    assert OccursAt(content, "", 0);
    assert Locate(content, "", "") == Found(0, 0);
    assert content[0..0] == "";
    InterleaveNothing(content);
  }
}
