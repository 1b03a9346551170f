/** Searching and replacing in text, with the meaning Python gives to `str.find` and
    `str.replace`: the leftmost match wins, matches do not overlap, and replaced text is
    not scanned again. */
module TextSearch {

  predicate OccursAt(text: string, pattern: string, i: int) {
    && 0 <= i
    && i + |pattern| <= |text|
    && text[i..i + |pattern|] == pattern
  }

  ghost predicate Contains(text: string, pattern: string) {
    exists i :: OccursAt(text, pattern, i)
  }

  /** Index of the first occurrence at or after `start`, or -1. */
  function Find(text: string, pattern: string, start: nat): (index: int)
    ensures index == -1 || (start <= index && OccursAt(text, pattern, index))
    ensures forall j :: start <= j && (index == -1 || j < index) ==> !OccursAt(text, pattern, j)
    decreases |text| - start
  {
    if start + |pattern| > |text| then -1
    else if OccursAt(text, pattern, start) then start
    else Find(text, pattern, start + 1)
  }

  /** Leftmost non-overlapping replacement of a non-empty key. */
  function ReplaceKey(text: string, key: string, value: string): string
    requires key != ""
  {
    if |text| < |key| then text
    else if OccursAt(text, key, 0) then value + ReplaceKey(text[|key|..], key, value)
    else [text[0]] + ReplaceKey(text[1..], key, value)
  }

  /** The number of matches that `ReplaceKey` replaces. */
  function Count(text: string, key: string): nat
    requires key != ""
  {
    if |text| < |key| then 0
    else if OccursAt(text, key, 0) then 1 + Count(text[|key|..], key)
    else Count(text[1..], key)
  }

  /** What an empty key does: the value goes before, between and after all characters. */
  function Interleave(text: string, value: string): string {
    if text == "" then value else value + [text[0]] + Interleave(text[1..], value)
  }

  function Replace(text: string, key: string, value: string): string {
    if key == "" then Interleave(text, value) else ReplaceKey(text, key, value)
  }

  // ---------- occurrences in pieces of text ----------

  lemma OccursInSuffix(x: string, rest: string, pattern: string, i: int)
    requires 0 <= i
    ensures OccursAt(x + rest, pattern, |x| + i) <==> OccursAt(rest, pattern, i)
  {
    if i + |pattern| <= |rest| {
      assert (x + rest)[|x| + i..|x| + i + |pattern|] == rest[i..i + |pattern|];
    }
  }

  lemma OccursInPrefix(x: string, rest: string, pattern: string, i: int)
    requires i + |pattern| <= |x|
    ensures OccursAt(x + rest, pattern, i) <==> OccursAt(x, pattern, i)
  {
    if 0 <= i {
      assert (x + rest)[i..i + |pattern|] == x[i..i + |pattern|];
    }
  }

  // ---------- how a scan passes over text ----------

  /** Where no match starts, the scan copies one character. */
  lemma ScanPasses(text: string, key: string, value: string)
    requires key != "" && text != "" && !OccursAt(text, key, 0)
    ensures ReplaceKey(text, key, value) == [text[0]] + ReplaceKey(text[1..], key, value)
    ensures Count(text, key) == Count(text[1..], key)
  {
    if |text| < |key| {
      CopyShort(text[1..], key, value);
    }
  }

  /** Where a match starts, the scan writes the value and goes on behind the match. */
  lemma ScanMatches(key: string, rest: string, value: string)
    requires key != ""
    ensures ReplaceKey(key + rest, key, value) == value + ReplaceKey(rest, key, value)
    ensures Count(key + rest, key) == 1 + Count(rest, key)
  {
    assert (key + rest)[0..|key|] == key && (key + rest)[|key|..] == rest;
  }

  /** Text in which no match starts is copied. */
  lemma {:induction false} CopyPrefix(x: string, rest: string, key: string, value: string)
    requires key != ""
    requires forall p :: 0 <= p < |x| ==> !OccursAt(x + rest, key, p)
    ensures ReplaceKey(x + rest, key, value) == x + ReplaceKey(rest, key, value)
    ensures Count(x + rest, key) == Count(rest, key)
    decreases |x|
  {
    if x == "" {
      assert x + rest == rest;
    } else {
      var tail := x[1..];
      SplitHead(x, rest);
      forall p | 0 <= p < |tail| ensures !OccursAt(tail + rest, key, p) {
        OccursInSuffix([x[0]], tail + rest, key, p);
        assert !OccursAt(x + rest, key, p + 1);
      }
      CopyPrefix(tail, rest, key, value);
      ScanPasses(x + rest, key, value);
      SplitHead(x, ReplaceKey(rest, key, value));
    }
  }

  lemma SplitHead(x: string, rest: string)
    requires x != ""
    ensures x + rest == [x[0]] + (x[1..] + rest)
    ensures (x + rest)[0] == x[0] && (x + rest)[1..] == x[1..] + rest
  {
  }

  lemma CopyShort(text: string, key: string, value: string)
    requires |text| < |key|
    ensures ReplaceKey(text, key, value) == text && Count(text, key) == 0
  {
  }

  /** A text with no match is left alone. */
  lemma CopyAll(text: string, key: string, value: string)
    requires key != "" && !Contains(text, key)
    ensures ReplaceKey(text, key, value) == text && Count(text, key) == 0
  {
    assert text + "" == text;
    CopyPrefix(text, "", key, value);
  }

  /** A scan jumps to the first match. */
  lemma {:induction false} ReplaceAtFirst(text: string, key: string, value: string, i: nat)
    requires key != "" && OccursAt(text, key, i)
    requires forall p :: 0 <= p < i ==> !OccursAt(text, key, p)
    ensures ReplaceKey(text, key, value) == text[..i] + value + ReplaceKey(text[i + |key|..], key, value)
    ensures Count(text, key) == 1 + Count(text[i + |key|..], key)
  {
    var x, rest := text[..i], text[i + |key|..];
    SplitAround(text, key, i);
    CopyPrefix(x, key + rest, key, value);
    ScanMatches(key, rest, value);
    ConcatAssociative(x, value, ReplaceKey(rest, key, value));
  }

  lemma SplitAround(text: string, key: string, i: nat)
    requires OccursAt(text, key, i)
    ensures text == text[..i] + (key + text[i + |key|..])
  {
    assert text[i..] == text[i..i + |key|] + text[i + |key|..];
  }

  lemma ConcatAssociative(x: string, y: string, z: string)
    ensures x + (y + z) == (x + y) + z
  {
  }

  lemma CountDecidesContains(text: string, key: string)
    requires key != ""
    ensures Count(text, key) > 0 <==> Contains(text, key)
  {
    var i := Find(text, key, 0);
    if i == -1 {
      CopyAll(text, key, "");
    } else {
      ReplaceAtFirst(text, key, "", i);
    }
  }

  /** The length after a replacement. */
  lemma {:induction false} ReplaceLength(text: string, key: string, value: string)
    requires key != ""
    ensures |ReplaceKey(text, key, value)| == |text| + Count(text, key) * (|value| - |key|)
    decreases |text|
  {
    if |text| < |key| {
    } else if OccursAt(text, key, 0) {
      ReplaceLength(text[|key|..], key, value);
      OneMore(Count(text[|key|..], key), |value| - |key|);
    } else {
      ReplaceLength(text[1..], key, value);
    }
  }

  lemma {:induction false} InterleaveLength(text: string, value: string)
    ensures |Interleave(text, value)| == |text| + (|text| + 1) * |value|
    decreases |text|
  {
    if text == "" {
    } else {
      InterleaveLength(text[1..], value);
    }
  }

  /** A replacement is a no-op exactly when the key equals its value or is absent. */
  lemma ReplaceChangesNothing(text: string, key: string, value: string)
    ensures Replace(text, key, value) == text <==> key == value || !Contains(text, key)
  {
    if key == "" {
      InterleaveLength(text, value);
      assert OccursAt(text, key, 0);
      if value == "" {
        InterleaveNothing(text);
      }
    } else {
      var i := Find(text, key, 0);
      if i == -1 {
        CopyAll(text, key, value);
      } else {
        ReplaceAtFirst(text, key, value, i);
        ReplaceLength(text, key, value);
        if key == value {
          ReplaceBySelf(text, key);
        } else if |key| == |value| {
          assert Replace(text, key, value)[i..i + |key|] == value;
        } else {
          CountDecidesContains(text, key);
          NonZeroProduct(Count(text, key), |value| - |key|);
        }
      }
    }
  }

  lemma OneMore(n: nat, d: int)
    ensures (1 + n) * d == d + n * d
  {
  }

  lemma NonZeroProduct(n: nat, d: int)
    requires n > 0 && d != 0
    ensures n * d != 0
  {
  }

  /** Interleaving acts on both sides of every character; with nothing it is the value. */
  lemma {:induction false} InterleaveSplits(x: string, c: char, y: string, value: string)
    ensures Interleave(x + [c] + y, value) == Interleave(x, value) + [c] + Interleave(y, value)
    ensures Interleave("", value) == value
    decreases |x|
  {
    if x == "" {
      assert x + [c] + y == [c] + y && ([c] + y)[1..] == y;
    } else {
      InterleaveSplits(x[1..], c, y, value);
      assert (x + [c] + y)[1..] == x[1..] + [c] + y && (x + [c] + y)[0] == x[0];
    }
  }

  lemma {:induction false} InterleaveNothing(text: string)
    ensures Interleave(text, "") == text
    decreases |text|
  {
    if text == "" {
    } else {
      InterleaveNothing(text[1..]);
    }
  }

  lemma {:induction false} ReplaceBySelf(text: string, key: string)
    requires key != ""
    ensures ReplaceKey(text, key, key) == text
    decreases |text|
  {
    if |text| < |key| {
    } else if OccursAt(text, key, 0) {
      assert text == key + text[|key|..];
      ReplaceBySelf(text[|key|..], key);
    } else {
      ReplaceBySelf(text[1..], key);
    }
  }
}
