/** When `StripContentBetweenTags` does what it promises: to take the marked regions out of a
    file. It deletes every occurrence of the first region at once, also inside later regions;
    this module says exactly what a round does and when that is what was promised. */
module StripPromise {
  import opened TextSearch
  import opened TextFiles
  import opened Overlaps
  import opened TagStripping
  import opened MarkedText

  /** No begin tag that starts inside the region reaches into its end tag or beyond, whatever
      plain text may come to follow the region. */
  ghost predicate Clear(b: string, e: string, r: Region, plain: string) {
    forall p | 1 <= p < |Marked(b, e, r)| && |Marked(b, e, r)| - |e| < p + |b| ::
      !OccursAt(Marked(b, e, r) + plain, b, p)
  }

  ghost predicate FramedRegions(b: string, e: string, regions: seq<Region>) {
    regions != [] ==>
      && FirstEnd(b, e, regions[0])
      && Clear(b, e, regions[0], Joined(regions[0].after, regions[1..]))
      && FramedRegions(b, e, regions[1..])
  }

  /** Regions end at their first end tags, and no begin tag gets across a region's end. */
  ghost predicate Framed(b: string, e: string, m: Markup) {
    FramedRegions(b, e, m.regions) && Unclosed(b, e, m.dangling)
  }

  // ---------- where a region's text can occur ----------

  lemma StraddleIsBorder(x: string, rest: string, b: string, p: nat)
    requires p < |x| < p + |b|
    requires OccursAt(rest, b, 0) && OccursAt(x + rest, b, p)
    ensures var n := p + |b| - |x|;
            b[..n] == b[|b| - n..]
  {
    var n, y := p + |b| - |x|, x + rest;
    assert y[p..p + |b|][|b| - n..] == y[|x|..|x| + n];
    assert y[|x|..|x| + n] == rest[..n];
    assert rest[..n] == rest[0..|b|][..n];
  }

  /** A border-free tag that starts in `x` cannot reach into text that itself starts with the tag. */
  lemma NoStraddle(x: string, rest: string, b: string, p: nat)
    requires BorderFree(b) && p < |x|
    requires rest == "" || OccursAt(rest, b, 0)
    requires OccursAt(x + rest, b, p)
    ensures OccursAt(x, b, p)
  {
    if |x| < p + |b| {
      StraddleIsBorder(x, rest, b, p);
    } else {
      OccursInPrefix(x, rest, b, p);
    }
  }

  lemma JoinedStarts(before: string, regions: seq<Region>)
    ensures |before| <= |Joined(before, regions)|
    ensures Joined(before, regions) == before + Joined(before, regions)[|before|..]
  {
  }

  /** A tag that starts in the plain text before a region also starts there once the regions
      are out and the plain text is joined. */
  lemma {:induction false} TagStaysInPlainText(b: string, e: string, x: string, before: string, regions: seq<Region>, dangling: string, p: nat)
    requires BorderFree(b) && Unclosed(b, e, dangling)
    requires p < |x + before|
    requires OccursAt(x + (before + RenderFrom(b, e, regions, dangling)), b, p)
    ensures OccursAt(x + Joined(before, regions), b, p)
  {
    var rest := RenderFrom(b, e, regions, dangling);
    RenderStarts(b, e, regions, dangling);
    ConcatAssociative(x, before, rest);
    NoStraddle(x + before, rest, b, p);
    JoinedStarts(before, regions);
    var joined := Joined(before, regions);
    ConcatAssociative(x, before, joined[|before|..]);
    OccursInPrefix(x + before, joined[|before|..], b, p);
  }

  /** Where a region matches, a begin tag matches. */
  lemma RegionStartsWithTag(b: string, e: string, r: Region, text: string, p: int)
    requires OccursAt(text, Marked(b, e, r), p)
    ensures OccursAt(text, b, p)
  {
    assert text[p..p + |Marked(b, e, r)|][..|b|] == b;
  }

  predicate EndsWith(x: string, key: string) {
    |key| <= |x| && x[|x| - |key|..] == key
  }

  /** A region's text that starts inside a region ends with that region. */
  lemma MatchEndsWithRegion(b: string, e: string, s: Region, rest: string, r: Region, p: nat)
    requires FirstEnd(b, e, r) && FirstEnd(b, e, s)
    requires p + |b| + |e| <= |Marked(b, e, s)|
    requires OccursAt(Marked(b, e, s) + rest, Marked(b, e, r), p)
    ensures p + |Marked(b, e, r)| == |Marked(b, e, s)|
  {
    var x, key := Marked(b, e, s), Marked(b, e, r);
    var inKey, inRegion := |x| - |e| - p, p + |key| - |e|;
    EndTagEnds(b, e, s);
    EndTagEnds(b, e, r);
    if |x| < p + |key| {
      OccursInPrefix(x, rest, e, |x| - |e|);
      OccursInside(x + rest, key, e, p, inKey);
    } else if p + |key| < |x| {
      OccursInside(x + rest, key, e, p, |key| - |e|);
      OccursInPrefix(x, rest, e, inRegion);
    }
  }

  lemma EndTagEnds(b: string, e: string, r: Region)
    ensures OccursAt(Marked(b, e, r), e, |Marked(b, e, r)| - |e|)
  {
  }

  /** Within a match of `key` the text and the key hold the same patterns. */
  lemma OccursInside(text: string, key: string, pattern: string, p: nat, i: nat)
    requires OccursAt(text, key, p) && i + |pattern| <= |key|
    ensures OccursAt(text, pattern, p + i) <==> OccursAt(key, pattern, i)
  {
    SliceOfSlice(text, p, |key|, i, |pattern|);
  }

  lemma SliceOfSlice(text: string, p: nat, n: nat, i: nat, k: nat)
    requires p + n <= |text| && i + k <= n
    ensures text[p..p + n][i..i + k] == text[p + i..p + i + k]
  {
    var x, y := text[p..p + n][i..i + k], text[p + i..p + i + k];
    assert |x| == |y|;
    forall j | 0 <= j < |x| ensures x[j] == y[j] {
    }
  }

  /** Inside a framed region another region's text can only start so that both end together. */
  lemma {:induction false} MatchInRegion(b: string, e: string, regions: seq<Region>, dangling: string, r: Region, p: nat)
    requires b != "" && BorderFree(b) && Unclosed(b, e, dangling) && FirstEnd(b, e, r)
    requires regions != [] && FramedRegions(b, e, regions)
    requires p < |Marked(b, e, regions[0])|
    requires OccursAt(Marked(b, e, regions[0]) + Behind(b, e, regions, dangling), Marked(b, e, r), p)
    ensures p + |Marked(b, e, r)| == |Marked(b, e, regions[0])|
  {
    var s := regions[0];
    var x, rest := Marked(b, e, s), Behind(b, e, regions, dangling);
    RegionStartsWithTag(b, e, r, x + rest, p);
    TagStaysInPlainText(b, e, x, s.after, regions[1..], dangling, p);
    MatchEndsWithRegion(b, e, s, rest, r, p);
  }

  // ---------- what one round does ----------

  /** The region's text without `key` at its end. */
  function Shortened(x: string, key: string): string {
    if EndsWith(x, key) then x[..|x| - |key|] else x
  }

  /** The marked text in which every region that ends with `key` has lost it. */
  function CutFrom(b: string, e: string, regions: seq<Region>, dangling: string, key: string): string {
    if regions == [] then dangling
    else
      Shortened(Marked(b, e, regions[0]), key)
      + (regions[0].after + CutFrom(b, e, regions[1..], dangling, key))
  }

  /** Replacing a region's text by nothing takes it away from the end of every region that
      ends with it, and touches nothing else. */
  lemma {:induction false} ScanCuts(b: string, e: string, before: string, regions: seq<Region>, dangling: string, r: Region)
    requires b != "" && BorderFree(b)
    requires FramedRegions(b, e, regions) && Unclosed(b, e, dangling) && FirstEnd(b, e, r)
    requires !Contains(Joined(before, regions), b)
    ensures ReplaceKey(before + RenderFrom(b, e, regions, dangling), Marked(b, e, r), "")
         == before + CutFrom(b, e, regions, dangling, Marked(b, e, r))
    decreases |regions|
  {
    PlainTextIsCopied(b, e, before, regions, dangling, r);
    if regions == [] {
      DanglingIsCopied(b, e, dangling, r);
    } else {
      JoinedHasNoTag(b, before, regions);
      ScanCuts(b, e, regions[0].after, regions[1..], dangling, r);
      RegionIsCut(b, e, regions, dangling, r);
    }
  }

  /** No region matches where only plain text starts. */
  lemma PlainTextIsCopied(b: string, e: string, before: string, regions: seq<Region>, dangling: string, r: Region)
    requires b != "" && BorderFree(b) && Unclosed(b, e, dangling)
    requires !Contains(Joined(before, regions), b)
    ensures var rest := RenderFrom(b, e, regions, dangling);
            ReplaceKey(before + rest, Marked(b, e, r), "") == before + ReplaceKey(rest, Marked(b, e, r), "")
  {
    var key, rest := Marked(b, e, r), RenderFrom(b, e, regions, dangling);
    forall p | 0 <= p < |before| ensures !OccursAt(before + rest, key, p) {
      if OccursAt(before + rest, key, p) {
        RegionStartsWithTag(b, e, r, before + rest, p);
        assert "" + (before + rest) == before + rest && "" + Joined(before, regions) == Joined(before, regions);
        TagStaysInPlainText(b, e, "", before, regions, dangling, p);
      }
    }
    CopyPrefix(before, rest, key, "");
  }

  /** The scan over a region takes the key from its end, if it is there. */
  lemma {:induction false} RegionIsCut(b: string, e: string, regions: seq<Region>, dangling: string, r: Region)
    requires b != "" && BorderFree(b) && Unclosed(b, e, dangling) && FirstEnd(b, e, r)
    requires regions != [] && FramedRegions(b, e, regions)
    ensures ReplaceKey(Marked(b, e, regions[0]) + Behind(b, e, regions, dangling), Marked(b, e, r), "")
         == Shortened(Marked(b, e, regions[0]), Marked(b, e, r))
            + ReplaceKey(Behind(b, e, regions, dangling), Marked(b, e, r), "")
  {
    var key, x, rest := Marked(b, e, r), Marked(b, e, regions[0]), Behind(b, e, regions, dangling);
    forall p | 0 <= p < |x| && OccursAt(x + rest, key, p) ensures p + |key| == |x| {
      MatchInRegion(b, e, regions, dangling, r, p);
    }
    ScanOverRegion(x, rest, key);
  }

  lemma ScanOverRegion(x: string, rest: string, key: string)
    requires key != ""
    requires forall p | 0 <= p < |x| && OccursAt(x + rest, key, p) :: p + |key| == |x|
    ensures ReplaceKey(x + rest, key, "") == Shortened(x, key) + ReplaceKey(rest, key, "")
  {
    if EndsWith(x, key) {
      var lead := x[..|x| - |key|];
      assert x == lead + key;
      ConcatAssociative(lead, key, rest);
      CopyPrefix(lead, key + rest, key, "");
      ScanMatches(key, rest, "");
      assert "" + ReplaceKey(rest, key, "") == ReplaceKey(rest, key, "");
    } else {
      forall p | 0 <= p < |x| ensures !OccursAt(x + rest, key, p) {
        if OccursAt(x + rest, key, p) {
          OccursInPrefix(x, rest, key, p);
        }
      }
      CopyPrefix(x, rest, key, "");
    }
  }

  /** An unclosed tail holds no complete region. */
  lemma DanglingIsCopied(b: string, e: string, dangling: string, r: Region)
    requires b != "" && Unclosed(b, e, dangling)
    ensures ReplaceKey(dangling, Marked(b, e, r), "") == dangling
  {
    var key := Marked(b, e, r);
    forall p | OccursAt(dangling, key, p) ensures false {
      var end := p + |b| + |r.body|;
      assert dangling[p..p + |key|][|b| + |r.body|..] == e;
      assert dangling[end..end + |e|] == dangling[p..p + |key|][|b| + |r.body|..];
      assert OccursAt(dangling, e, end);
    }
    CopyAll(dangling, key, "");
  }

  lemma JoinedHasNoTag(b: string, before: string, regions: seq<Region>)
    requires regions != [] && !Contains(Joined(before, regions), b)
    ensures !Contains(Joined(regions[0].after, regions[1..]), b)
  {
    var tail := Joined(regions[0].after, regions[1..]);
    forall p | OccursAt(tail, b, p) ensures false {
      OccursInSuffix(before, tail, b, p);
    }
  }

  lemma {:induction false} NoTagInFront(b: string, e: string, m: Markup)
    requires BorderFree(b) && Unclosed(b, e, m.dangling)
    requires !Contains(Joined(m.before, m.regions), b)
    ensures TagFree(b, m.before, RenderFrom(b, e, m.regions, m.dangling))
  {
    var rest := RenderFrom(b, e, m.regions, m.dangling);
    forall p | 0 <= p < |m.before| ensures !OccursAt(m.before + rest, b, p) {
      if OccursAt(m.before + rest, b, p) {
        assert "" + (m.before + rest) == m.before + rest;
        assert "" + Joined(m.before, m.regions) == Joined(m.before, m.regions);
        TagStaysInPlainText(b, e, "", m.before, m.regions, m.dangling, p);
      }
    }
  }

  /** One round on framed markup, exactly: the first region's text goes from the end of every
      region that ends with it. */
  lemma RoundCuts(b: string, e: string, m: Markup)
    requires b != "" && BorderFree(b) && Framed(b, e, m)
    requires m.regions != [] && !Contains(Joined(m.before, m.regions), b)
    ensures Round(Render(b, e, m), b, e)
         == Next(m.before + CutFrom(b, e, m.regions, m.dangling, Marked(b, e, m.regions[0])))
  {
    var x, rest := Marked(b, e, m.regions[0]), Behind(b, e, m.regions, m.dangling);
    NoTagInFront(b, e, m);
    LocateInReading(b, e, m);
    ScanCuts(b, e, m.before, m.regions, m.dangling, m.regions[0]);
    RoundOnPieces(b, e, m.before, x, rest);
  }

  lemma RoundOnPieces(b: string, e: string, lead: string, region: string, tail: string)
    requires |e| <= |region| && region != ""
    requires Locate(lead + (region + tail), b, e) == Found(|lead|, |lead| + |region| - |e|)
    ensures Round(lead + (region + tail), b, e) == Next(ReplaceKey(lead + (region + tail), region, ""))
  {
    assert (lead + (region + tail))[|lead|..|lead| + |region|] == region;
  }

  lemma RoundOnFound(text: string, b: string, e: string, begin: nat, end: nat, region: string)
    requires Locate(text, b, e) == Found(begin, end)
    requires region == text[begin..end + |e|] && region != ""
    ensures Round(text, b, e) == Next(ReplaceKey(text, region, ""))
  {
  }

  // ---------- what the round should do ----------

  /** The markup left when every region with the given body is taken out; the plain text on
      its two sides is joined. */
  function Drop(before: string, regions: seq<Region>, body: string): (string, seq<Region>)
    decreases |regions|
  {
    if regions == [] then (before, [])
    else if regions[0].body == body then Drop(before + regions[0].after, regions[1..], body)
    else
      var (after, rest) := Drop(regions[0].after, regions[1..], body);
      (before, [Region(regions[0].body, after)] + rest)
  }

  function WithoutFirst(m: Markup): Markup
    requires m.regions != []
  {
    var dropped := Drop(m.before, m.regions, m.regions[0].body);
    Markup(dropped.0, dropped.1, m.dangling)
  }

  lemma {:induction false} DropJoins(before: string, regions: seq<Region>, body: string)
    ensures var (before', regions') := Drop(before, regions, body);
            && Joined(before', regions') == Joined(before, regions)
            && |regions'| <= |regions|
            && (regions != [] && regions[0].body == body ==> |regions'| < |regions|)
            && |before| <= |before'| && before'[..|before|] == before
    decreases |regions|
  {
    if regions == [] {
    } else if regions[0].body == body {
      var next := before + regions[0].after;
      DropJoins(next, regions[1..], body);
      JoinedSplits(before, regions[0].after, regions[1..]);
      var (before', regions') := Drop(next, regions[1..], body);
      assert before'[..|before|] == before'[..|next|][..|before|];
    } else {
      DropJoins(regions[0].after, regions[1..], body);
      var (after, rest) := Drop(regions[0].after, regions[1..], body);
      assert ([Region(regions[0].body, after)] + rest)[1..] == rest;
    }
  }

  lemma JoinedSplits(x: string, y: string, regions: seq<Region>)
    ensures Joined(x + y, regions) == x + Joined(y, regions)
  {
    if regions != [] {
      var tail := Joined(regions[0].after, regions[1..]);
      assert x + y + tail == x + (y + tail);
    }
  }

  lemma {:induction false} DropExtends(x: string, y: string, regions: seq<Region>, body: string)
    ensures Drop(x + y, regions, body).0 == x + Drop(y, regions, body).0
    ensures Drop(x + y, regions, body).1 == Drop(y, regions, body).1
    decreases |regions|
  {
    if regions != [] && regions[0].body == body {
      assert x + y + regions[0].after == x + (y + regions[0].after);
      DropExtends(x, y + regions[0].after, regions[1..], body);
    }
  }

  lemma {:induction false} DropKeepsFramed(b: string, e: string, before: string, regions: seq<Region>, body: string)
    requires FramedRegions(b, e, regions)
    ensures FramedRegions(b, e, Drop(before, regions, body).1)
    decreases |regions|
  {
    if regions == [] {
    } else if regions[0].body == body {
      DropKeepsFramed(b, e, before + regions[0].after, regions[1..], body);
    } else {
      DropKeepsFramed(b, e, regions[0].after, regions[1..], body);
      DropJoins(regions[0].after, regions[1..], body);
      var (after, rest) := Drop(regions[0].after, regions[1..], body);
      var r := Region(regions[0].body, after);
      assert Marked(b, e, r) == Marked(b, e, regions[0]);
      assert ([r] + rest)[1..] == rest;
    }
  }

  lemma RenderCons(b: string, e: string, r: Region, regions: seq<Region>, dangling: string)
    ensures RenderFrom(b, e, [r] + regions, dangling)
         == Marked(b, e, r) + (r.after + RenderFrom(b, e, regions, dangling))
  {
    assert ([r] + regions)[1..] == regions;
  }

  /** The region's text is longer than `key` and ends with it. */
  predicate EndsProperly(x: string, key: string) {
    |key| < |x| && EndsWith(x, key)
  }

  predicate NoneEndsProperly(b: string, e: string, regions: seq<Region>, key: string) {
    forall s | s in regions :: !EndsProperly(Marked(b, e, s), key)
  }

  lemma EqualTexts(b: string, e: string, r: Region, s: Region)
    ensures Marked(b, e, r) == Marked(b, e, s) <==> r.body == s.body
    ensures EndsWith(Marked(b, e, s), Marked(b, e, r)) <==>
              r.body == s.body || EndsProperly(Marked(b, e, s), Marked(b, e, r))
  {
    var x, y := Marked(b, e, r), Marked(b, e, s);
    assert x[|b|..|x| - |e|] == r.body && y[|b|..|y| - |e|] == s.body;
    assert |x| == |y| && EndsWith(y, x) ==> x == y;
  }

  /** The marked text without the regions equal to `r`. */
  function Dropped(b: string, e: string, before: string, regions: seq<Region>, dangling: string, r: Region): string {
    Drop(before, regions, r.body).0 + RenderFrom(b, e, Drop(before, regions, r.body).1, dangling)
  }

  lemma DroppedEqual(b: string, e: string, before: string, regions: seq<Region>, dangling: string, r: Region)
    requires regions != [] && regions[0].body == r.body
    ensures Dropped(b, e, before, regions, dangling, r)
         == before + Dropped(b, e, regions[0].after, regions[1..], dangling, r)
  {
    DropExtends(before, regions[0].after, regions[1..], r.body);
    var dropped := Drop(regions[0].after, regions[1..], r.body);
    ConcatAssociative(before, dropped.0, RenderFrom(b, e, dropped.1, dangling));
  }

  lemma DroppedOther(b: string, e: string, before: string, regions: seq<Region>, dangling: string, r: Region)
    requires regions != [] && regions[0].body != r.body
    ensures Dropped(b, e, before, regions, dangling, r)
         == before + (Marked(b, e, regions[0]) + Dropped(b, e, regions[0].after, regions[1..], dangling, r))
  {
    var dropped := Drop(regions[0].after, regions[1..], r.body);
    RenderCons(b, e, Region(regions[0].body, dropped.0), dropped.1, dangling);
  }

  /** Cutting is dropping when no region ends properly with the key. */
  lemma {:induction false} CutIsDrop(b: string, e: string, before: string, regions: seq<Region>, dangling: string, r: Region)
    requires NoneEndsProperly(b, e, regions, Marked(b, e, r))
    ensures before + CutFrom(b, e, regions, dangling, Marked(b, e, r)) == Dropped(b, e, before, regions, dangling, r)
    decreases |regions|
  {
    if regions == [] {
    } else {
      var s, rest := regions[0], regions[1..];
      CutIsDrop(b, e, s.after, rest, dangling, r);
      EqualTexts(b, e, r, s);
      if s.body == r.body {
        DroppedEqual(b, e, before, regions, dangling, r);
        assert Shortened(Marked(b, e, s), Marked(b, e, r)) == "";
        assert "" + Dropped(b, e, s.after, rest, dangling, r) == Dropped(b, e, s.after, rest, dangling, r);
      } else {
        DroppedOther(b, e, before, regions, dangling, r);
      }
    }
  }

  /** Otherwise cutting leaves less text than dropping. */
  lemma {:induction false} CutIsShorter(b: string, e: string, before: string, regions: seq<Region>, dangling: string, r: Region)
    requires b != ""
    ensures |before + CutFrom(b, e, regions, dangling, Marked(b, e, r))| <= |Dropped(b, e, before, regions, dangling, r)|
    ensures !NoneEndsProperly(b, e, regions, Marked(b, e, r)) ==>
              |before + CutFrom(b, e, regions, dangling, Marked(b, e, r))| < |Dropped(b, e, before, regions, dangling, r)|
    decreases |regions|
  {
    if regions == [] {
    } else {
      var s, rest := regions[0], regions[1..];
      CutIsShorter(b, e, s.after, rest, dangling, r);
      EqualTexts(b, e, r, s);
      if s.body == r.body {
        DroppedEqual(b, e, before, regions, dangling, r);
      } else {
        DroppedOther(b, e, before, regions, dangling, r);
      }
      assert forall t | t in regions :: t == s || t in rest;
    }
  }

  /** The exact condition for one round: it takes out the regions equal to the first one, and
      nothing else, if and only if no other region ends with the first one's text. */
  lemma RoundTakesOutExactly(b: string, e: string, m: Markup)
    requires b != "" && BorderFree(b) && Framed(b, e, m)
    requires m.regions != [] && !Contains(Joined(m.before, m.regions), b)
    ensures Round(Render(b, e, m), b, e) == Next(Render(b, e, WithoutFirst(m)))
       <==> NoneEndsProperly(b, e, m.regions, Marked(b, e, m.regions[0]))
  {
    RoundCuts(b, e, m);
    CutIsShorter(b, e, m.before, m.regions, m.dangling, m.regions[0]);
    if NoneEndsProperly(b, e, m.regions, Marked(b, e, m.regions[0])) {
      CutIsDrop(b, e, m.before, m.regions, m.dangling, m.regions[0]);
    }
  }

  // ---------- whole runs ----------

  /** Taking the regions in the order in which the run takes them, no region still there ends
      with the text of the one whose turn it is. */
  predicate Free(b: string, e: string, regions: seq<Region>)
    decreases |regions|
  {
    regions == [] ||
    (DropJoins("", regions, regions[0].body);
     && NoneEndsProperly(b, e, regions, Marked(b, e, regions[0]))
     && Free(b, e, Drop("", regions, regions[0].body).1))
  }

  /** No region ends with the text of an earlier one: the pairwise condition. */
  predicate NoneEndsWithEarlier(b: string, e: string, regions: seq<Region>) {
    regions == [] ||
    (NoneEndsProperly(b, e, regions[1..], Marked(b, e, regions[0])) && NoneEndsWithEarlier(b, e, regions[1..]))
  }

  lemma {:induction false} DropKeepsOrder(b: string, e: string, before: string, regions: seq<Region>, body: string, key: string)
    ensures NoneEndsProperly(b, e, regions, key) ==> NoneEndsProperly(b, e, Drop(before, regions, body).1, key)
    ensures NoneEndsWithEarlier(b, e, regions) ==> NoneEndsWithEarlier(b, e, Drop(before, regions, body).1)
    decreases |regions|
  {
    if regions == [] {
    } else if regions[0].body == body {
      DropKeepsOrder(b, e, before + regions[0].after, regions[1..], body, key);
    } else {
      var s, rest := regions[0], Drop(regions[0].after, regions[1..], body);
      DropKeepsOrder(b, e, s.after, regions[1..], body, key);
      DropKeepsOrder(b, e, s.after, regions[1..], body, Marked(b, e, s));
      assert Marked(b, e, Region(s.body, rest.0)) == Marked(b, e, s) && s in regions;
      assert ([Region(s.body, rest.0)] + rest.1)[1..] == rest.1;
    }
  }

  /** The pairwise condition suffices. */
  lemma {:induction false} PairwiseIsFree(b: string, e: string, regions: seq<Region>)
    requires NoneEndsWithEarlier(b, e, regions)
    ensures Free(b, e, regions)
    decreases |regions|
  {
    if regions == [] {
    } else {
      DropJoins("", regions, regions[0].body);
      DropKeepsOrder(b, e, "", regions, regions[0].body, Marked(b, e, regions[0]));
      PairwiseIsFree(b, e, Drop("", regions, regions[0].body).1);
      assert forall s | s in regions :: s == regions[0] || s in regions[1..];
    }
  }

  /** Every round takes out the first region and those equal to it, and nothing else. */
  ghost predicate RunsAsRead(b: string, e: string, m: Markup)
    decreases |m.regions|
  {
    m.regions == [] ||
    (DropJoins(m.before, m.regions, m.regions[0].body);
     && Round(Render(b, e, m), b, e) == Next(Render(b, e, WithoutFirst(m)))
     && RunsAsRead(b, e, WithoutFirst(m)))
  }

  lemma WithoutFirstKeeps(b: string, e: string, m: Markup)
    requires Framed(b, e, m) && m.regions != []
    ensures var next := WithoutFirst(m);
            && Framed(b, e, next) && |next.regions| < |m.regions|
            && Joined(next.before, next.regions) == Joined(m.before, m.regions)
            && next.regions == Drop("", m.regions, m.regions[0].body).1
  {
    DropJoins(m.before, m.regions, m.regions[0].body);
    DropKeepsFramed(b, e, m.before, m.regions, m.regions[0].body);
    assert m.before + "" == m.before;
    DropExtends(m.before, "", m.regions, m.regions[0].body);
  }

  /** The exact condition for all rounds of a run. */
  lemma {:induction false} RunsAsReadExactly(b: string, e: string, m: Markup)
    requires b != "" && BorderFree(b) && Framed(b, e, m)
    requires !Contains(Joined(m.before, m.regions), b)
    ensures RunsAsRead(b, e, m) <==> Free(b, e, m.regions)
    decreases |m.regions|
  {
    if m.regions == [] {
    } else {
      RoundTakesOutExactly(b, e, m);
      WithoutFirstKeeps(b, e, m);
      RunsAsReadExactly(b, e, WithoutFirst(m));
    }
  }

  /** A run that takes out region by region returns the joined plain text, or reports the begin
      tag that is left unclosed. */
  lemma {:induction false} StripTakesOutRegions(b: string, e: string, m: Markup)
    requires b != "" && BorderFree(b) && Framed(b, e, m) && Free(b, e, m.regions)
    requires !Contains(Joined(m.before, m.regions), b)
    ensures Strip(Render(b, e, m), b, e) == Intended(b, e, m)
    decreases |m.regions|
  {
    if m.regions == [] {
      NoTagInFront(b, e, m);
      LocateInReading(b, e, m);
    } else {
      RoundTakesOutExactly(b, e, m);
      RoundShortens(Render(b, e, m), b, e);
      WithoutFirstKeeps(b, e, m);
      StripTakesOutRegions(b, e, WithoutFirst(m));
    }
  }

  /** Framed markup that is free loses exactly its regions if and only if no begin tag is left
      unclosed and the joined plain text forms no begin tag. */
  lemma StripMeetsIntentExactly(b: string, e: string, m: Markup)
    requires b != "" && BorderFree(b) && Framed(b, e, m) && Free(b, e, m.regions)
    ensures Strip(Render(b, e, m), b, e) == Rewritten(Joined(m.before, m.regions))
       <==> m.dangling == "" && !Contains(Joined(m.before, m.regions), b)
  {
    StripGuarantees(Render(b, e, m), b, e);
    if !Contains(Joined(m.before, m.regions), b) {
      StripTakesOutRegions(b, e, m);
    }
  }

  // ---------- contents ----------

  /** The content without the regions of its left-to-right reading. */
  ghost function Plain(b: string, e: string, content: string): string
    requires b != ""
  {
    Joined(Parse(b, e, content).before, Parse(b, e, content).regions)
  }

  /** What was promised: the regions go and nothing else, round by round. */
  ghost predicate KeepsPromise(b: string, e: string, content: string)
    requires b != ""
  {
    Strip(content, b, e) == Rewritten(Plain(b, e, content)) && RunsAsRead(b, e, Parse(b, e, content))
  }

  /** The exact condition for every content with tags that cannot overlap: the promise is kept
      if and only if every region is closed, the text without the regions forms no begin tag,
      and no region ends with the text of one whose turn comes before it. */
  lemma {:induction false} PromiseExactly(b: string, e: string, content: string)
    requires b != "" && BorderFree(b) && Apart(b, e)
    ensures KeepsPromise(b, e, content)
       <==> Parse(b, e, content).dangling == ""
            && !Contains(Plain(b, e, content), b)
            && Free(b, e, Parse(b, e, content).regions)
  {
    var m := Parse(b, e, content);
    ApartTagsFrame(b, e, content);
    StripGuarantees(content, b, e);
    if !Contains(Plain(b, e, content), b) {
      RunsAsReadExactly(b, e, m);
      if Free(b, e, m.regions) {
        StripTakesOutRegions(b, e, m);
      } else {
        assert !RunsAsRead(b, e, m);
      }
    }
  }

  /** For every content whose reading is framed and free: if the text without the regions forms
      no begin tag, the run returns it, or reports the begin tag that is left unclosed. */
  lemma {:induction false} StripContentAsIntended(b: string, e: string, content: string)
    requires b != "" && BorderFree(b)
    requires Framed(b, e, Parse(b, e, content)) && Free(b, e, Parse(b, e, content).regions)
    ensures !Contains(Plain(b, e, content), b) ==> Strip(content, b, e) == Intended(b, e, Parse(b, e, content))
  {
    if !Contains(Plain(b, e, content), b) {
      StripTakesOutRegions(b, e, Parse(b, e, content));
    }
  }

  /** For the same contents the run returns the text without the regions if and only if every
      region is closed and that text forms no begin tag. */
  lemma {:induction false} StripContentExactly(b: string, e: string, content: string)
    requires b != "" && BorderFree(b)
    requires Framed(b, e, Parse(b, e, content)) && Free(b, e, Parse(b, e, content).regions)
    ensures Strip(content, b, e) == Rewritten(Plain(b, e, content))
       <==> Parse(b, e, content).dangling == "" && !Contains(Plain(b, e, content), b)
  {
    StripMeetsIntentExactly(b, e, Parse(b, e, content));
  }

  // ---------- which contents are framed ----------

  lemma ApartIsClear(b: string, e: string, r: Region, plain: string)
    requires Apart(b, e)
    ensures Clear(b, e, r, plain)
  {
    var x := Marked(b, e, r);
    EndTagEnds(b, e, r);
    OccursInPrefix(x, plain, e, |x| - |e|);
    forall p | 1 <= p < |x| && |x| - |e| < p + |b| ensures !OccursAt(x + plain, b, p) {
      if OccursAt(x + plain, b, p) {
        OverlapAgrees(x + plain, b, e, p, |x| - |e|);
      }
    }
  }

  lemma {:induction false} ApartRegionsFrame(b: string, e: string, before: string, regions: seq<Region>, dangling: string)
    requires Apart(b, e) && LeftToRight(b, e, before, regions, dangling)
    ensures FramedRegions(b, e, regions)
    decreases |regions|
  {
    if regions == [] {
    } else {
      ApartIsClear(b, e, regions[0], Joined(regions[0].after, regions[1..]));
      ApartRegionsFrame(b, e, regions[0].after, regions[1..], dangling);
    }
  }

  /** With tags that cannot overlap the reading of every content is framed. */
  lemma ApartTagsFrame(b: string, e: string, content: string)
    requires b != "" && Apart(b, e)
    ensures Framed(b, e, Parse(b, e, content))
  {
    var m := Parse(b, e, content);
    ApartRegionsFrame(b, e, m.before, m.regions, m.dangling);
  }

  /** No begin tag can start in an end tag, or around one, and reach beyond it. */
  ghost predicate Independent(b: string, e: string) {
    && BorderFree(b)
    && (forall n | 0 < n < |b| && n <= |e| :: b[..n] != e[|e| - n..])
    && (forall p | 1 <= p && p + |e| < |b| :: !OccursAt(b, e, p))
  }

  /** The region's own text holds no second begin tag. */
  ghost predicate SingleTag(b: string, e: string, r: Region) {
    forall p :: 1 <= p ==> !OccursAt(Marked(b, e, r), b, p)
  }

  /** A begin tag that starts in a region and reaches beyond it overlaps the end tag. */
  lemma TagCutByRegion(b: string, e: string, r: Region, plain: string, p: nat)
    requires p < |Marked(b, e, r)| < p + |b| && OccursAt(Marked(b, e, r) + plain, b, p)
    ensures var n := |Marked(b, e, r)| - p;
            if n <= |e| then b[..n] == e[|e| - n..] else OccursAt(b, e, n - |e|)
  {
    var x := Marked(b, e, r);
    var n := |x| - p;
    assert (x + plain)[p..p + |b|][..n] == x[p..];
    if n <= |e| {
      assert x[p..] == e[|e| - n..];
    } else {
      assert b[n - |e|..n] == x[p..][n - |e|..];
      assert x[p..][n - |e|..] == e;
    }
  }

  /** With independent tags, no begin tag gets across the end of a region with a single one. */
  lemma SingleTagIsClear(b: string, e: string, r: Region, plain: string)
    requires Independent(b, e) && SingleTag(b, e, r)
    ensures Clear(b, e, r, plain)
  {
    var x := Marked(b, e, r);
    forall p | 1 <= p < |x| && |x| - |e| < p + |b| ensures !OccursAt(x + plain, b, p) {
      if OccursAt(x + plain, b, p) {
        if p + |b| <= |x| {
          OccursInPrefix(x, plain, b, p);
        } else {
          TagCutByRegion(b, e, r, plain, p);
        }
      }
    }
  }

  lemma {:induction false} SingleTagsFrame(b: string, e: string, before: string, regions: seq<Region>, dangling: string)
    requires Independent(b, e) && LeftToRight(b, e, before, regions, dangling)
    requires forall r | r in regions :: SingleTag(b, e, r)
    ensures FramedRegions(b, e, regions)
    decreases |regions|
  {
    if regions == [] {
    } else {
      SingleTagIsClear(b, e, regions[0], Joined(regions[0].after, regions[1..]));
      SingleTagsFrame(b, e, regions[0].after, regions[1..], dangling);
    }
  }

  lemma SingleTagEndsAlone(b: string, e: string, r: Region, s: Region)
    requires SingleTag(b, e, s)
    ensures !EndsProperly(Marked(b, e, s), Marked(b, e, r))
  {
    var x, key := Marked(b, e, s), Marked(b, e, r);
    if EndsProperly(x, key) {
      assert OccursAt(x, key, |x| - |key|);
      RegionStartsWithTag(b, e, r, x, |x| - |key|);
    }
  }

  lemma {:induction false} SingleTagsAreFree(b: string, e: string, regions: seq<Region>)
    requires forall r | r in regions :: SingleTag(b, e, r)
    ensures Free(b, e, regions)
    decreases |regions|
  {
    if regions == [] {
    } else {
      forall s | s in regions ensures !EndsProperly(Marked(b, e, s), Marked(b, e, regions[0])) {
        SingleTagEndsAlone(b, e, regions[0], s);
      }
      DropJoins("", regions, regions[0].body);
      DropKeepsSingle(b, e, "", regions, regions[0].body);
      SingleTagsAreFree(b, e, Drop("", regions, regions[0].body).1);
    }
  }

  lemma {:induction false} DropKeepsSingle(b: string, e: string, before: string, regions: seq<Region>, body: string)
    requires forall r | r in regions :: SingleTag(b, e, r)
    ensures forall r | r in Drop(before, regions, body).1 :: SingleTag(b, e, r)
    decreases |regions|
  {
    if regions == [] {
    } else if regions[0].body == body {
      DropKeepsSingle(b, e, before + regions[0].after, regions[1..], body);
    } else {
      DropKeepsSingle(b, e, regions[0].after, regions[1..], body);
      var after := Drop(regions[0].after, regions[1..], body).0;
      assert Marked(b, e, Region(regions[0].body, after)) == Marked(b, e, regions[0]);
      assert SingleTag(b, e, regions[0]);
    }
  }

  /** Contents with independent tags and no second begin tag in a region are framed and free. */
  lemma SingleTagsAreFramedAndFree(b: string, e: string, content: string)
    requires b != "" && Independent(b, e)
    requires forall r | r in Parse(b, e, content).regions :: SingleTag(b, e, r)
    ensures Framed(b, e, Parse(b, e, content)) && Free(b, e, Parse(b, e, content).regions)
  {
    var m := Parse(b, e, content);
    SingleTagsFrame(b, e, m.before, m.regions, m.dangling);
    SingleTagsAreFree(b, e, m.regions);
  }

  lemma LtsTagLines()
    ensures IsHashLine("# absl:lts-remove-begin") && IsHashLine("# absl:lts-remove-end")
  {
  }

  /** The tags the release script uses meet the hypotheses. */
  lemma LtsTagsAreApart()
    ensures BorderFree("# absl:lts-remove-begin")
    ensures Apart("# absl:lts-remove-begin", "# absl:lts-remove-end")
  {
    LtsTagLines();
    HashLineIsBorderFree("# absl:lts-remove-begin");
    HashLinesAreApart("# absl:lts-remove-begin", "# absl:lts-remove-end", 18);
  }

  // ---------- contents that break the promise ----------

  /** One-character patterns occur where the character stands. */
  lemma OneCharacter(text: string, c: char, i: nat)
    requires i < |text|
    ensures OccursAt(text, [c], i) <==> text[i] == c
  {
    assert text[i..i + 1] == [text[i]];
    assert [text[i]][0] == text[i];
  }

  lemma BracketsAreApart()
    ensures BorderFree("[") && Apart("[", "]")
  {
    forall shift | -1 < shift < 1 ensures !AgreeAt("[", "]", shift) {
      assert "["[0] != "]"[0 - shift];
    }
  }

  lemma BracketRegion(body: string, after: string)
    requires forall i | 0 <= i < |body| :: body[i] != ']'
    ensures FirstEnd("[", "]", Region(body, after))
  {
    var x := "[" + body + "]";
    assert Marked("[", "]", Region(body, after)) == x;
    forall i | 0 <= i < |x| ensures OccursAt(x, "]", i) <==> i == |body| + 1 {
      OneCharacter(x, ']', i);
      assert 1 <= i <= |body| ==> x[i] == body[i - 1];
    }
    assert OccursAt(x, "]", |body| + 1);
    var found := Find(x, "]", 1);
    assert found == |body| + 1;
  }

  /** Regions with no text around them are read as they stand. */
  lemma {:induction false} BareRegionsRead(b: string, e: string, regions: seq<Region>)
    requires forall r | r in regions :: FirstEnd(b, e, r) && r.after == ""
    ensures LeftToRight(b, e, "", regions, "") && Joined("", regions) == ""
    decreases |regions|
  {
    if regions == [] {
    } else {
      BareRegionsRead(b, e, regions[1..]);
    }
  }

  const FIRST := Region("x", "")
  const SECOND := Region("[x", "")
  const THIRD := Region("z", "")

  const NESTED := "[x][[x]"
  const LUCKY := "[x][[x][z]"

  lemma BracketTexts()
    ensures Marked("[", "]", FIRST) == "[x]"
    ensures Marked("[", "]", SECOND) == "[[x]"
    ensures Marked("[", "]", THIRD) == "[z]"
  {
  }

  lemma BracketCuts()
    ensures Shortened("[x]", "[x]") == ""
    ensures Shortened("[[x]", "[x]") == "["
    ensures Shortened("[z]", "[x]") == "[z]"
    ensures EndsProperly("[[x]", "[x]")
  {
    assert "[x]"[0..] == "[x]" && "[[x]"[1..] == "[x]" && "[[x]"[..1] == "[";
    assert "[z]"[0..][1] != "[x]"[1];
  }

  lemma BracketParse(regions: seq<Region>, text: string)
    requires forall r | r in regions :: r == FIRST || r == SECOND || r == THIRD
    requires text == RenderFrom("[", "]", regions, "")
    ensures Parse("[", "]", text) == Markup("", regions, "") && Joined("", regions) == ""
    ensures Framed("[", "]", Markup("", regions, ""))
  {
    BracketRegion("x", "");
    BracketRegion("[x", "");
    BracketRegion("z", "");
    BareRegionsRead("[", "]", regions);
    assert "" + text == text;
    ParseIsTheReading("[", "]", text, Markup("", regions, ""));
    BracketsAreApart();
    ApartTagsFrame("[", "]", text);
  }

  lemma BracketRound(regions: seq<Region>, text: string)
    requires forall r | r in regions :: r == FIRST || r == SECOND || r == THIRD
    requires regions != [] && regions[0] == FIRST && text == RenderFrom("[", "]", regions, "")
    ensures Round(text, "[", "]") == Next(CutFrom("[", "]", regions, "", "[x]"))
  {
    BracketParse(regions, text);
    BracketTexts();
    BracketsAreApart();
    assert "" + text == text;
    RoundCuts("[", "]", Markup("", regions, ""));
    assert "" + CutFrom("[", "]", regions, "", "[x]") == CutFrom("[", "]", regions, "", "[x]");
  }

  lemma NestedIsNotFree(regions: seq<Region>)
    requires |regions| > 1 && regions[0] == FIRST && regions[1] == SECOND
    ensures !Free("[", "]", regions)
  {
    BracketTexts();
    BracketCuts();
    assert regions[1] in regions;
  }

  lemma NestedText()
    ensures RenderFrom("[", "]", [FIRST, SECOND], "") == NESTED
    ensures CutFrom("[", "]", [FIRST, SECOND], "", "[x]") == "["
  {
    BracketTexts();
    BracketCuts();
    assert [FIRST, SECOND][1..] == [SECOND] && [SECOND][1..] == [];
    assert RenderFrom("[", "]", [SECOND], "") == "[[x]";
    assert CutFrom("[", "]", [SECOND], "", "[x]") == "[";
  }

  /** A region that ends with an earlier one's text: both regions are closed, they are the whole
      file, and still the run ends in the exception, because deleting the first region also
      deletes part of the second one. */
  lemma NestedTagBreaksThePromise()
    ensures Intended("[", "]", Parse("[", "]", NESTED)) == Rewritten("")
    ensures Strip(NESTED, "[", "]") == Failed(ImbalancedTags("[", "]"))
    ensures !Free("[", "]", Parse("[", "]", NESTED).regions)
  {
    var regions := [FIRST, SECOND];
    NestedText();
    BracketParse(regions, NESTED);
    BracketRound(regions, NESTED);
    NestedIsNotFree(regions);
    RoundShortens(NESTED, "[", "]");
    LoneTagFails("[", "]");
  }

  lemma LuckyText()
    ensures RenderFrom("[", "]", [FIRST, SECOND, THIRD], "") == LUCKY
    ensures CutFrom("[", "]", [FIRST, SECOND, THIRD], "", "[x]") == "[[z]"
  {
    BracketTexts();
    BracketCuts();
    assert [FIRST, SECOND, THIRD][1..] == [SECOND, THIRD] && [SECOND, THIRD][1..] == [THIRD] && [THIRD][1..] == [];
    assert RenderFrom("[", "]", [THIRD], "") == "[z]" && CutFrom("[", "]", [THIRD], "", "[x]") == "[z]";
    assert RenderFrom("[", "]", [SECOND, THIRD], "") == "[[x]" + "[z]";
    assert CutFrom("[", "]", [SECOND, THIRD], "", "[x]") == "[" + "[z]";
  }

  /** A content that is one region is deleted. */
  lemma LoneRegionGoes(b: string, e: string, r: Region)
    requires b != "" && BorderFree(b) && Apart(b, e) && FirstEnd(b, e, r) && r.after == ""
    ensures Strip(Marked(b, e, r), b, e) == Rewritten("")
  {
    var m := Markup("", [r], "");
    assert [r][1..] == [] && RenderFrom(b, e, [], "") == "";
    assert RenderFrom(b, e, [r], "") == Marked(b, e, r) + ("" + "");
    assert Marked(b, e, r) + ("" + "") == Marked(b, e, r);
    assert "" + Marked(b, e, r) == Marked(b, e, r);
    BareRegionsRead(b, e, [r]);
    ParseIsTheReading(b, e, Marked(b, e, r), m);
    ApartTagsFrame(b, e, Marked(b, e, r));
    assert Drop("", [r], r.body) == ("", []);
    assert Free(b, e, [r]);
    StripTakesOutRegions(b, e, m);
  }

  lemma LuckyRest()
    ensures Strip("[[z]", "[", "]") == Rewritten("")
  {
    BracketsAreApart();
    BracketRegion("[z", "");
    assert Marked("[", "]", Region("[z", "")) == "[[z]";
    LoneRegionGoes("[", "]", Region("[z", ""));
  }

  lemma LuckyRun()
    ensures Strip(LUCKY, "[", "]") == Rewritten("")
  {
    LuckyText();
    BracketRound([FIRST, SECOND, THIRD], LUCKY);
    RoundShortens(LUCKY, "[", "]");
    LuckyRest();
  }

  /** A run can leave the right text although a round cut into another region: what remains of
      that region swallows the next one. So `PromiseExactly` speaks of every round. */
  lemma RightTextByLuck()
    ensures Strip(LUCKY, "[", "]") == Rewritten(Plain("[", "]", LUCKY))
    ensures !KeepsPromise("[", "]", LUCKY)
  {
    LuckyText();
    LuckyRun();
    BracketParse([FIRST, SECOND, THIRD], LUCKY);
    NestedIsNotFree([FIRST, SECOND, THIRD]);
    BracketsAreApart();
    PromiseExactly("[", "]", LUCKY);
  }

  lemma LoneTagFails(b: string, e: string)
    requires b != "" && e != ""
    ensures Strip(b, b, e) == Failed(ImbalancedTags(b, e))
  {
    assert OccursAt(b, b, 0);
    assert Locate(b, b, e) == NoEnd(0);
  }

  const JOINING := "aabcb"

  lemma JoiningParse()
    ensures Parse("ab", "c", JOINING) == Markup("a", [Region("", "b")], "")
    ensures Joined("a", [Region("", "b")]) == "ab"
  {
    var regions := [Region("", "b")];
    var m := Markup("a", regions, "");
    assert regions[1..] == [];
    assert Marked("ab", "c", regions[0]) == "abc";
    OneCharacter("abc", 'c', 2);
    assert RenderFrom("ab", "c", regions, "") == "abcb";
    assert Render("ab", "c", m) == JOINING && JOINING[0..2][1] == 'a';
    assert "b"[0..1] == "b";
    assert LeftToRight("ab", "c", "b", [], "");
    ParseIsTheReading("ab", "c", JOINING, m);
    assert Joined("b", []) == "b";
  }

  lemma JoiningRound()
    ensures Round(JOINING, "ab", "c") == Next("ab")
  {
    assert JOINING[0..2][1] == 'a' && JOINING[1..3] == "ab";
    assert OccursAt(JOINING, "ab", 1) && !OccursAt(JOINING, "ab", 0);
    OneCharacter(JOINING, 'c', 3);
    var rest := "abcb";
    assert JOINING[1..4] == "abc" && JOINING[1..] == rest && JOINING[0..3][1] != "abc"[1];
    ScanPasses(JOINING, "abc", "");
    assert rest == "abc" + "b";
    ScanMatches("abc", "b", "");
    CopyShort("b", "abc", "");
    RoundOnFound(JOINING, "ab", "c", 1, 3, "abc");
  }

  /** Text that joins to a begin tag: the only region is closed, and still the run ends in the
      exception. */
  lemma JoinedTextBreaksThePromise()
    ensures Intended("ab", "c", Parse("ab", "c", JOINING)) == Rewritten("ab")
    ensures Strip(JOINING, "ab", "c") == Failed(ImbalancedTags("ab", "c"))
  {
    JoiningParse();
    JoiningRound();
    LoneTagFails("ab", "c");
    RoundShortens(JOINING, "ab", "c");
  }
}
