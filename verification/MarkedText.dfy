/** Text with marked regions, as `StripContentBetweenTags` sees it: plain text, then regions
    from a begin tag to the next end tag, read from left to right. */
module MarkedText {
  import opened TextSearch
  import opened TextFiles
  import opened TagStripping

  /** A marked region `beginTag + body + endTag` and the plain text up to the next one. */
  datatype Region = Region(body: string, after: string)

  /** Plain text, then regions; `dangling` is empty or a begin tag that is never closed. */
  datatype Markup = Markup(before: string, regions: seq<Region>, dangling: string)

  function Marked(b: string, e: string, r: Region): string {
    b + r.body + e
  }

  function RenderFrom(b: string, e: string, regions: seq<Region>, dangling: string): string {
    if regions == [] then dangling
    else Marked(b, e, regions[0]) + (regions[0].after + RenderFrom(b, e, regions[1..], dangling))
  }

  function Render(b: string, e: string, m: Markup): string {
    m.before + RenderFrom(b, e, m.regions, m.dangling)
  }

  /** The plain text with every region taken out. */
  function Joined(before: string, regions: seq<Region>): string
    decreases |regions|
  {
    if regions == [] then before else before + Joined(regions[0].after, regions[1..])
  }

  /** What the documentation promises: the regions go, an unclosed begin tag is an error. */
  function Intended(b: string, e: string, m: Markup): Outcome {
    if m.dangling == "" then Rewritten(Joined(m.before, m.regions)) else Failed(ImbalancedTags(b, e))
  }

  /** The region ends at the first end tag behind its begin tag. */
  predicate FirstEnd(b: string, e: string, r: Region) {
    Find(Marked(b, e, r), e, |b|) == |b| + |r.body|
  }

  predicate Unclosed(b: string, e: string, dangling: string) {
    dangling != "" ==> OccursAt(dangling, b, 0) && Find(dangling, e, |b|) == -1
  }

  /** No begin tag starts in the plain text in front of the rest. */
  predicate TagFree(b: string, plain: string, rest: string) {
    forall p | 0 <= p < |plain| :: !OccursAt(plain + rest, b, p)
  }

  /** Every region starts at the next begin tag and ends at the first end tag behind it. */
  predicate LeftToRight(b: string, e: string, before: string, regions: seq<Region>, dangling: string)
    decreases |regions|
  {
    && TagFree(b, before, RenderFrom(b, e, regions, dangling))
    && (regions == [] ||
        (FirstEnd(b, e, regions[0]) && LeftToRight(b, e, regions[0].after, regions[1..], dangling)))
  }

  /** `m` is the left-to-right reading of `content`. */
  predicate Reads(b: string, e: string, content: string, m: Markup) {
    && Render(b, e, m) == content
    && LeftToRight(b, e, m.before, m.regions, m.dangling)
    && Unclosed(b, e, m.dangling)
  }

  // ---------- every content has exactly one reading ----------

  /** The pieces around the first region. */
  lemma FirstRegion(b: string, e: string, content: string) returns (lead: string, body: string, tail: string)
    requires |b| + |e| > 0 && Locate(content, b, e).Found?
    ensures content == lead + (Marked(b, e, Region(body, "")) + tail)
    ensures Find(content, b, 0) == |lead| && FirstEnd(b, e, Region(body, "")) && |tail| < |content|
  {
    var begin, end := Locate(content, b, e).begin, Locate(content, b, e).end;
    lead, body, tail := content[..begin], content[begin + |b|..end], content[end + |e|..];
    RegionEndsFirst(b, e, content, begin, end, Region(body, ""));
  }

  lemma RegionEndsFirst(b: string, e: string, content: string, begin: nat, end: nat, r: Region)
    requires OccursAt(content, b, begin) && Find(content, e, begin + |b|) == end
    requires r.body == content[begin + |b|..end]
    ensures FirstEnd(b, e, r)
    ensures content == content[..begin] + (Marked(b, e, r) + content[end + |e|..])
  {
    SliceOff(content, 0, begin);
    FindInSuffix(content[..begin], content[begin..], e, |b|);
    SliceRegion(b, e, content, begin, end);
    FindInPiece(Marked(b, e, r), content[end + |e|..], e, |b|, end - begin);
  }

  lemma SliceRegion(b: string, e: string, content: string, begin: nat, end: nat)
    requires OccursAt(content, b, begin) && begin + |b| <= end && OccursAt(content, e, end)
    ensures content[begin..] == b + content[begin + |b|..end] + e + content[end + |e|..]
  {
    SliceOff(content, begin, begin + |b|);
    SliceOff(content, begin + |b|, end);
    SliceOff(content, end, end + |e|);
    var body, tail := content[begin + |b|..end], content[end + |e|..];
    ConcatAssociative(b, body, e + tail);
    ConcatAssociative(b + body, e, tail);
  }

  lemma SliceOff(text: string, i: nat, j: nat)
    requires i <= j <= |text|
    ensures text[i..] == text[i..j] + text[j..]
  {
  }

  lemma {:induction false} ReadingExists(b: string, e: string, content: string) returns (m: Markup)
    requires b != ""
    ensures Reads(b, e, content, m)
    decreases |content|
  {
    var found := Locate(content, b, e);
    if found.Found? {
      var lead, body, tail := FirstRegion(b, e, content);
      var rest := ReadingExists(b, e, tail);
      m := ReadsRegion(b, e, lead, body, tail, rest);
    } else if found.NoEnd? {
      m := ReadsUnclosed(b, e, content, found.begin);
    } else {
      m := Markup(content, [], "");
      ReadsPlain(b, e, content);
    }
  }

  lemma ReadsPlain(b: string, e: string, content: string)
    requires !Contains(content, b)
    ensures Reads(b, e, content, Markup(content, [], ""))
  {
    assert content + "" == content;
  }

  lemma ReadsUnclosed(b: string, e: string, content: string, begin: nat) returns (m: Markup)
    requires Find(content, b, 0) == begin && Find(content, e, begin + |b|) == -1
    ensures Reads(b, e, content, m)
  {
    m := Markup(content[..begin], [], content[begin..]);
    SliceOff(content, 0, begin);
    FindInSuffix(content[..begin], content[begin..], e, |b|);
    OccursInSuffix(content[..begin], content[begin..], b, 0);
  }

  lemma ReadsRegion(b: string, e: string, lead: string, body: string, tail: string, rest: Markup) returns (m: Markup)
    requires Reads(b, e, tail, rest) && FirstEnd(b, e, Region(body, ""))
    requires Find(lead + (Marked(b, e, Region(body, "")) + tail), b, 0) == |lead|
    ensures Reads(b, e, lead + (Marked(b, e, Region(body, "")) + tail), m)
  {
    var r := Region(body, rest.before);
    var regions := [r] + rest.regions;
    m := Markup(lead, regions, rest.dangling);
    assert regions[1..] == rest.regions && regions[0] == r;
    assert RenderFrom(b, e, regions, rest.dangling) == Marked(b, e, r) + tail;
  }

  lemma FindInSuffix(x: string, rest: string, pattern: string, start: nat)
    ensures var i := Find(x + rest, pattern, |x| + start);
            Find(rest, pattern, start) == if i == -1 then -1 else i - |x|
  {
    var i := Find(x + rest, pattern, |x| + start);
    var j := Find(rest, pattern, start);
    if j != -1 {
      OccursInSuffix(x, rest, pattern, j);
    }
    if i != -1 {
      OccursInSuffix(x, rest, pattern, i - |x|);
    }
  }

  /** A match that lies within the first piece is also the first match of that piece. */
  lemma FindInPiece(x: string, rest: string, pattern: string, start: nat, i: nat)
    requires Find(x + rest, pattern, start) == i && i + |pattern| <= |x|
    ensures Find(x, pattern, start) == i
  {
    OccursInPrefix(x, rest, pattern, i);
    var j := Find(x, pattern, start);
    if j != -1 {
      OccursInPrefix(x, rest, pattern, j);
    }
  }

  lemma FindExtends(x: string, rest: string, pattern: string, start: nat)
    requires Find(x, pattern, start) != -1
    ensures Find(x + rest, pattern, start) == Find(x, pattern, start)
  {
    var i, j := Find(x, pattern, start), Find(x + rest, pattern, start);
    OccursInPrefix(x, rest, pattern, i);
    assert j != -1 && j <= i;
    OccursInPrefix(x, rest, pattern, j);
  }

  lemma RenderStarts(b: string, e: string, regions: seq<Region>, dangling: string)
    requires Unclosed(b, e, dangling)
    ensures var text := RenderFrom(b, e, regions, dangling);
            text == "" || OccursAt(text, b, 0)
  {
    if regions != [] {
      var text := RenderFrom(b, e, regions, dangling);
      assert text[0..|b|] == b;
    }
  }

  /** The two searches find the first region of a reading. */
  lemma LocateInReading(b: string, e: string, m: Markup)
    requires b != "" && Unclosed(b, e, m.dangling)
    requires TagFree(b, m.before, RenderFrom(b, e, m.regions, m.dangling))
    requires m.regions != [] ==> FirstEnd(b, e, m.regions[0])
    ensures Locate(Render(b, e, m), b, e)
         == if m.regions != [] then Found(|m.before|, |m.before| + |b| + |m.regions[0].body|)
            else if m.dangling != "" then NoEnd(|m.before|)
            else NoBegin
  {
    var rest := RenderFrom(b, e, m.regions, m.dangling);
    RenderStarts(b, e, m.regions, m.dangling);
    OccursInSuffix(m.before, rest, b, 0);
    FindInSuffix(m.before, rest, e, |b|);
    if m.regions != [] {
      FindExtends(Marked(b, e, m.regions[0]), Behind(b, e, m.regions, m.dangling), e, |b|);
    }
  }

  /** The text behind the first region. */
  function Behind(b: string, e: string, regions: seq<Region>, dangling: string): string
    requires regions != []
  {
    regions[0].after + RenderFrom(b, e, regions[1..], dangling)
  }

  lemma SameSplit(x: string, y: string, x': string, y': string)
    requires |x| == |x'| && x + y == x' + y'
    ensures x == x' && y == y'
  {
    assert (x + y)[..|x|] == x && (x' + y')[..|x'|] == x';
    assert (x + y)[|x|..] == y && (x' + y')[|x'|..] == y';
  }

  /** Two left-to-right readings of a content are the same. */
  lemma {:induction false} ReadingIsUnique(b: string, e: string, content: string, m: Markup, n: Markup)
    requires b != "" && Reads(b, e, content, m) && Reads(b, e, content, n)
    ensures m == n
    decreases |m.regions|
  {
    LocateInReading(b, e, m);
    LocateInReading(b, e, n);
    var rest, rest' := RenderFrom(b, e, m.regions, m.dangling), RenderFrom(b, e, n.regions, n.dangling);
    if Locate(content, b, e).NoBegin? {
      SameSplit(m.before, "", n.before, "");
    } else {
      SameSplit(m.before, rest, n.before, rest');
      if Locate(content, b, e).Found? {
        SameFirstRegion(b, e, m, n);
        var tail := Behind(b, e, m.regions, m.dangling);
        var m' := Markup(m.regions[0].after, m.regions[1..], m.dangling);
        var n' := Markup(n.regions[0].after, n.regions[1..], n.dangling);
        ReadingIsUnique(b, e, tail, m', n');
        assert m.regions == [m.regions[0]] + m'.regions && n.regions == [n.regions[0]] + n'.regions;
      }
    }
  }

  lemma SameFirstRegion(b: string, e: string, m: Markup, n: Markup)
    requires m.regions != [] && n.regions != [] && |m.regions[0].body| == |n.regions[0].body|
    requires RenderFrom(b, e, m.regions, m.dangling) == RenderFrom(b, e, n.regions, n.dangling)
    ensures m.regions[0].body == n.regions[0].body
    ensures Behind(b, e, m.regions, m.dangling) == Behind(b, e, n.regions, n.dangling)
  {
    var x, y := Marked(b, e, m.regions[0]), Marked(b, e, n.regions[0]);
    SameSplit(x, Behind(b, e, m.regions, m.dangling), y, Behind(b, e, n.regions, n.dangling));
    SameSplit(b + m.regions[0].body, e, b + n.regions[0].body, e);
    SameSplit(b, m.regions[0].body, b, n.regions[0].body);
  }

  lemma OneReading(b: string, e: string, content: string)
    requires b != ""
    ensures exists m :: Reads(b, e, content, m)
    ensures forall m, n :: Reads(b, e, content, m) && Reads(b, e, content, n) ==> m == n
  {
    var m := ReadingExists(b, e, content);
    forall m, n | Reads(b, e, content, m) && Reads(b, e, content, n) ensures m == n {
      ReadingIsUnique(b, e, content, m, n);
    }
  }

  /** The left-to-right reading of a content. */
  ghost function Parse(b: string, e: string, content: string): (m: Markup)
    requires b != ""
    ensures Reads(b, e, content, m)
  {
    OneReading(b, e, content);
    var m :| Reads(b, e, content, m);
    m
  }

  /** Every content has one left-to-right reading, and `Parse` is it. */
  lemma ParseIsTheReading(b: string, e: string, content: string, m: Markup)
    requires b != ""
    ensures Reads(b, e, content, m) <==> m == Parse(b, e, content)
  {
    OneReading(b, e, content);
  }
}
