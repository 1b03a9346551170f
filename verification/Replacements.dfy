/** Applying a dictionary of textual replacements, as `ReplaceStringsInFile` in create_lts.py
    does: one key after another, each over the result of the previous ones. */
module Replacements {
  import opened TextSearch
  import opened TextFiles
  import opened Overlaps

  datatype Entry = Entry(key: string, value: string)

  /** The items of the dictionary in their order. */
  type Dictionary = seq<Entry>

  // ---------- the algorithm ----------

  /** One replacement after the other; a step that changes nothing raises. */
  function Sequential(content: string, entries: Dictionary): Outcome
    decreases |entries|
  {
    if entries == [] then Rewritten(content)
    else
      var replaced := Replace(content, entries[0].key, entries[0].value);
      if replaced == content then Failed(MissingKey(entries[0].key))
      else Sequential(replaced, entries[1..])
  }

  /** The file is rewritten only after every key has been replaced. */
  method ReplaceStringsInFile(file: TextFile, entries: Dictionary) returns (r: Outcome)
    modifies file
    ensures r == Sequential(old(file.content), entries)
    ensures file.content == if r.Rewritten? then r.content else old(file.content)
  {
    var content := file.content;
    for i := 0 to |entries|
      invariant Sequential(content, entries[i..]) == Sequential(file.content, entries)
      invariant file.content == old(file.content)
    {
      var original := content;
      content := Replace(content, entries[i].key, entries[i].value);
      assert entries[i..][1..] == entries[i + 1..];
      if content == original {
        return Failed(MissingKey(entries[i].key));
      }
    }
    file.content := content;
    r := Rewritten(content);
  }

  /** For every key and value, the empty ones included: a step raises exactly when the key is
      absent or equal to its value. */
  lemma StepRaisesExactly(content: string, entry: Entry, rest: Dictionary)
    ensures Sequential(content, [entry]).Failed? <==> entry.key == entry.value || !Contains(content, entry.key)
    ensures Sequential(content, [entry]).Failed? ==>
              Sequential(content, [entry] + rest) == Failed(MissingKey(entry.key))
  {
    ReplaceChangesNothing(content, entry.key, entry.value);
    assert ([entry] + rest)[0] == entry;
  }

  // ---------- keys and values that cannot interfere ----------

  /** No key can overlap a key or a value that comes before it. */
  ghost predicate NonInterfering(entries: Dictionary) {
    && (forall a | a in entries :: a.key != "")
    && (forall i, j | 0 <= i < j < |entries| ::
          Apart(entries[i].key, entries[j].key) && Apart(entries[i].value, entries[j].key))
  }

  // ---------- one step against the others ----------

  /** No occurrence of `other` starts in an occurrence of `x` that begins the text. */
  lemma NoneInside(x: string, rest: string, other: string)
    requires Apart(x, other) && other != ""
    ensures forall p :: 0 <= p < |x| ==> !OccursAt(x + rest, other, p)
  {
    assert OccursAt(x + rest, x, 0) by { assert (x + rest)[0..|x|] == x; }
    forall p | 0 <= p < |x| ensures !OccursAt(x + rest, other, p) {
      if OccursAt(x + rest, other, p) {
        OverlapAgrees(x + rest, x, other, 0, p);
      }
    }
  }

  lemma InsertedValueAgrees(text: string, a: Entry, other: string, i: int)
    requires 0 <= i && a.key != "" && OccursAt(text, a.key, i)
    requires forall p :: 0 <= p < i ==> !OccursAt(text, a.key, p)
    requires OccursAt(ReplaceKey(text, a.key, a.value), other, 0)
    ensures AgreeAt(a.value, other, -i)
    ensures |other| <= i ==> OccursAt(text, other, 0)
  {
    ReplaceAtFirst(text, a.key, a.value, i);
    var lead, tail := text[..i], ReplaceKey(text[i + |a.key|..], a.key, a.value);
    var replaced := lead + a.value + tail;
    assert replaced[i..i + |a.value|] == a.value;
    OverlapAgrees(replaced, a.value, other, i, 0);
    if |other| <= i {
      assert replaced[0..|other|] == text[0..|other|];
    }
  }

  /** The other key starts the replaced text only if it started the text before. */
  lemma NoneCreated(text: string, a: Entry, other: string)
    requires a.key != "" && other != "" && Apart(a.value, other)
    requires OccursAt(ReplaceKey(text, a.key, a.value), other, 0)
    requires !OccursAt(text, a.key, 0)
    ensures OccursAt(text, other, 0)
  {
    var i := Find(text, a.key, 0);
    if i == -1 {
      CopyAll(text, a.key, a.value);
    } else {
      InsertedValueAgrees(text, a, other, i);
    }
  }

  /** An occurrence of another key at the start of the text is copied. */
  lemma OtherIsCopied(text: string, a: Entry, other: string)
    requires a.key != "" && Apart(a.key, other) && OccursAt(text, other, 0)
    ensures ReplaceKey(text, a.key, a.value) == other + ReplaceKey(text[|other|..], a.key, a.value)
  {
    ApartSymmetric(a.key, other);
    assert text == other + text[|other|..];
    NoneInside(other, text[|other|..], a.key);
    CopyPrefix(other, text[|other|..], a.key, a.value);
  }

  lemma CountSkipsPrefix(x: string, rest: string, other: string)
    requires other != "" && Apart(x, other)
    ensures Count(x + rest, other) == Count(rest, other)
  {
    NoneInside(x, rest, other);
    CopyPrefix(x, rest, other, "");
  }

  /** Replacing one key neither creates nor destroys an occurrence of another one. */
  lemma {:induction false} CountIsKept(text: string, a: Entry, other: string)
    requires a.key != "" && other != "" && Apart(a.key, other) && Apart(a.value, other)
    ensures Count(ReplaceKey(text, a.key, a.value), other) == Count(text, other)
    decreases |text|
  {
    var replaced := ReplaceKey(text, a.key, a.value);
    if text == "" {
    } else if OccursAt(text, a.key, 0) {
      var rest := text[|a.key|..];
      CountIsKept(rest, a, other);
      assert text == a.key + rest;
      CountSkipsPrefix(a.key, rest, other);
      CountSkipsPrefix(a.value, ReplaceKey(rest, a.key, a.value), other);
    } else if OccursAt(text, other, 0) {
      var rest := text[|other|..];
      CountIsKept(rest, a, other);
      OtherIsCopied(text, a, other);
      assert text == other + rest;
      ScanMatches(other, rest, "");
      ScanMatches(other, ReplaceKey(rest, a.key, a.value), "");
    } else {
      CountIsKept(text[1..], a, other);
      ScanPasses(text, a.key, a.value);
      ScanPasses(text, other, "");
      if OccursAt(replaced, other, 0) {
        NoneCreated(text, a, other);
      }
      ScanPasses(replaced, other, "");
      assert replaced[1..] == ReplaceKey(text[1..], a.key, a.value);
    }
  }

  lemma PresenceIsKept(text: string, a: Entry, other: string)
    requires a.key != "" && other != "" && Apart(a.key, other) && Apart(a.value, other)
    ensures Contains(ReplaceKey(text, a.key, a.value), other) <==> Contains(text, other)
  {
    CountIsKept(text, a, other);
    CountDecidesContains(text, other);
    CountDecidesContains(ReplaceKey(text, a.key, a.value), other);
  }

  // ---------- simultaneous replacement ----------

  /** The first entry whose key starts the text. */
  function Match(text: string, entries: Dictionary): (i: int)
    ensures -1 <= i < |entries|
    ensures i >= 0 ==> OccursAt(text, entries[i].key, 0)
    ensures forall j :: 0 <= j < |entries| && (i < 0 || j < i) ==> !OccursAt(text, entries[j].key, 0)
    decreases |entries|
  {
    if entries == [] then -1
    else if OccursAt(text, entries[0].key, 0) then 0
    else
      var i := Match(text, entries[1..]);
      if i < 0 then -1 else i + 1
  }

  /** One pass over the text that replaces every key where it stands. */
  function Simultaneous(text: string, entries: Dictionary): string
    requires forall a | a in entries :: a.key != ""
    decreases |text|
  {
    if text == "" then ""
    else
      var i := Match(text, entries);
      if i >= 0 then entries[i].value + Simultaneous(text[|entries[i].key|..], entries)
      else [text[0]] + Simultaneous(text[1..], entries)
  }

  /** At most one key starts a text. */
  lemma OneMatch(text: string, entries: Dictionary, i: int, j: int)
    requires NonInterfering(entries) && 0 <= i < |entries| && 0 <= j < |entries|
    requires OccursAt(text, entries[i].key, 0) && OccursAt(text, entries[j].key, 0)
    ensures i == j
  {
    OverlapAgrees(text, entries[i].key, entries[j].key, 0, 0);
    OverlapAgrees(text, entries[j].key, entries[i].key, 0, 0);
  }

  lemma {:induction false} SimultaneousCopies(x: string, rest: string, entries: Dictionary)
    requires forall a | a in entries :: a.key != "" && Apart(x, a.key)
    ensures Simultaneous(x + rest, entries) == x + Simultaneous(rest, entries)
  {
    forall p, i | 0 <= p < |x| && 0 <= i < |entries| ensures !OccursAt(x + rest, entries[i].key, p) {
      assert entries[i] in entries;
      NoneInside(x, rest, entries[i].key);
    }
    CopiesFrom(x, rest, entries);
  }

  lemma {:induction false} CopiesFrom(x: string, rest: string, entries: Dictionary)
    requires forall a | a in entries :: a.key != ""
    requires forall p, i :: 0 <= p < |x| && 0 <= i < |entries| ==> !OccursAt(x + rest, entries[i].key, p)
    ensures Simultaneous(x + rest, entries) == x + Simultaneous(rest, entries)
    decreases |x|
  {
    if x == "" {
      assert x + rest == rest;
    } else {
      assert x + rest == [x[0]] + (x[1..] + rest) && (x + rest)[1..] == x[1..] + rest;
      forall p, i | 0 <= p < |x[1..]| && 0 <= i < |entries|
        ensures !OccursAt(x[1..] + rest, entries[i].key, p)
      {
        OccursInSuffix([x[0]], x[1..] + rest, entries[i].key, p);
        assert !OccursAt(x + rest, entries[i].key, p + 1);
      }
      CopiesFrom(x[1..], rest, entries);
    }
  }

  /** Doing the first entry on its own and the others in one pass is doing all in one pass. */
  lemma {:induction false} PeelFirst(text: string, entries: Dictionary)
    requires entries != [] && NonInterfering(entries)
    ensures var a := entries[0];
            Simultaneous(text, entries) == Simultaneous(ReplaceKey(text, a.key, a.value), entries[1..])
    decreases |text|
  {
    var a, rest := entries[0], entries[1..];
    var replaced := ReplaceKey(text, a.key, a.value);
    var i := Match(text, entries);
    if text == "" {
    } else if i == 0 {
      PeelFirst(text[|a.key|..], entries);
      SimultaneousCopies(a.value, ReplaceKey(text[|a.key|..], a.key, a.value), rest);
    } else if i > 0 {
      var b := entries[i];
      PeelFirst(text[|b.key|..], entries);
      OtherIsCopied(text, a, b.key);
      MatchOther(b.key, ReplaceKey(text[|b.key|..], a.key, a.value), rest, i - 1);
    } else {
      PeelFirst(text[1..], entries);
      ScanPasses(text, a.key, a.value);
      forall j | 0 <= j < |rest| ensures !OccursAt(replaced, rest[j].key, 0) {
        assert rest[j] == entries[j + 1];
        if OccursAt(replaced, rest[j].key, 0) {
          NoneCreated(text, a, rest[j].key);
        }
      }
      assert replaced[1..] == ReplaceKey(text[1..], a.key, a.value);
    }
  }

  lemma MatchOther(key: string, tail: string, entries: Dictionary, i: nat)
    requires NonInterfering(entries) && i < |entries| && key == entries[i].key
    ensures Simultaneous(key + tail, entries) == entries[i].value + Simultaneous(tail, entries)
  {
    var text := key + tail;
    assert text[0..|key|] == key && text[|key|..] == tail;
    OneMatch(text, entries, i, Match(text, entries));
  }

  lemma {:induction false} NoEntries(text: string)
    ensures Simultaneous(text, []) == text
    decreases |text|
  {
    if text == "" {
    } else {
      NoEntries(text[1..]);
    }
  }

  // ---------- sequential is simultaneous ----------

  /** The first entry that a run over this content must report: its key is absent or stays. */
  ghost function FirstUnusable(content: string, entries: Dictionary): (i: int)
    ensures -1 <= i < |entries|
    ensures forall j :: 0 <= j < |entries| && (i < 0 || j < i) ==> !Unusable(content, entries[j])
    ensures i >= 0 ==> Unusable(content, entries[i])
    decreases |entries|
  {
    if entries == [] then -1
    else if Unusable(content, entries[0]) then 0
    else
      var i := FirstUnusable(content, entries[1..]);
      if i < 0 then -1 else i + 1
  }

  ghost predicate Unusable(content: string, a: Entry) {
    a.key == a.value || !Contains(content, a.key)
  }

  /** For entries that do not interfere, the run raises exactly when some key is absent from the
      original content (or equals its value), it reports the first such key, and otherwise its
      result is the simultaneous replacement. */
  lemma {:induction false} SequentialIsSimultaneous(content: string, entries: Dictionary)
    requires NonInterfering(entries)
    ensures Sequential(content, entries)
         == var i := FirstUnusable(content, entries);
            if i < 0 then Rewritten(Simultaneous(content, entries)) else Failed(MissingKey(entries[i].key))
    decreases |entries|
  {
    if entries == [] {
      NoEntries(content);
    } else {
      var a, rest := entries[0], entries[1..];
      ReplaceChangesNothing(content, a.key, a.value);
      if !Unusable(content, a) {
        var replaced := Replace(content, a.key, a.value);
        SequentialIsSimultaneous(replaced, rest);
        PeelFirst(content, entries);
        SameUnusable(content, a, rest);
      }
    }
  }

  lemma {:induction false} SameUnusable(content: string, a: Entry, rest: Dictionary)
    requires a.key != ""
    requires forall b | b in rest :: b.key != "" && Apart(a.key, b.key) && Apart(a.value, b.key)
    ensures FirstUnusable(ReplaceKey(content, a.key, a.value), rest) == FirstUnusable(content, rest)
    decreases |rest|
  {
    if rest == [] {
    } else {
      assert rest[0] in rest;
      PresenceIsKept(content, a, rest[0].key);
      SameUnusable(content, a, rest[1..]);
    }
  }

  // ---------- order of the dictionary ----------

  lemma {:induction false} SimultaneousIgnoresOrder(text: string, d: Dictionary, d': Dictionary)
    requires NonInterfering(d) && NonInterfering(d')
    requires forall a :: a in d <==> a in d'
    ensures Simultaneous(text, d) == Simultaneous(text, d')
    decreases |text|
  {
    if text == "" {
    } else {
      var i, j := Match(text, d), Match(text, d');
      if i >= 0 {
        assert d[i] in d';
        var k :| 0 <= k < |d'| && d'[k] == d[i];
        OneMatch(text, d', j, k);
        SimultaneousIgnoresOrder(text[|d[i].key|..], d, d');
      } else {
        forall k | 0 <= k < |d'| ensures !OccursAt(text, d'[k].key, 0) {
          assert d'[k] in d;
        }
        SimultaneousIgnoresOrder(text[1..], d, d');
      }
    }
  }

  /** Any two orders of the same entries either both fail or give the same content. */
  lemma SequentialIgnoresOrder(content: string, d: Dictionary, d': Dictionary)
    requires NonInterfering(d) && NonInterfering(d')
    requires multiset(d) == multiset(d')
    ensures Sequential(content, d).Failed? <==> Sequential(content, d').Failed?
    ensures Sequential(content, d).Rewritten? ==> Sequential(content, d) == Sequential(content, d')
  {
    forall a ensures a in d <==> a in d' {
      assert a in d <==> a in multiset(d);
      assert a in d' <==> a in multiset(d');
    }
    SequentialIsSimultaneous(content, d);
    SequentialIsSimultaneous(content, d');
    SimultaneousIgnoresOrder(content, d, d');
    var i, j := FirstUnusable(content, d), FirstUnusable(content, d');
    if i >= 0 {
      assert d[i] in d';
    }
    if j >= 0 {
      assert d'[j] in d;
    }
  }

  /** When a value can form another key, order matters: the promise needs its hypothesis. */
  lemma InterferenceShows()
    ensures var a, b := Entry("a", "b"), Entry("b", "c");
            Sequential("ab", [a, b]) == Rewritten("cc") && Sequential("ab", [b, a]) == Rewritten("bc")
  {
    var a, b := Entry("a", "b"), Entry("b", "c");
    assert ReplaceKey("ab", "a", "b") == "bb" && ReplaceKey("bb", "b", "c") == "cc" by {
      assert "ab"[1..] == "b" && "bb"[1..] == "b" && "bb"[0..1] == "b" && "ab"[0..1] == "a";
      assert ReplaceKey("b", "a", "b") == "b" && ReplaceKey("b", "b", "c") == "c";
    }
    assert ReplaceKey("ab", "b", "c") == "ac" && ReplaceKey("ac", "a", "b") == "bc";
    assert [a, b][1..] == [b] && [b, a][1..] == [a];
    assert Sequential("cc", []) == Rewritten("cc");
    assert Sequential("bb", [b]) == Rewritten("cc");
    assert Sequential("ac", [a]) == Rewritten("bc");
  }

  // ---------- what a run leaves behind ----------

  /** Where no value can overlap a key, replacing the key leaves none of it. */
  lemma {:induction false} KeyIsGone(text: string, a: Entry)
    requires a.key != "" && Apart(a.value, a.key)
    ensures Count(ReplaceKey(text, a.key, a.value), a.key) == 0
    decreases |text|
  {
    var replaced := ReplaceKey(text, a.key, a.value);
    if |text| < |a.key| {
    } else if OccursAt(text, a.key, 0) {
      KeyIsGone(text[|a.key|..], a);
      CountSkipsPrefix(a.value, ReplaceKey(text[|a.key|..], a.key, a.value), a.key);
    } else {
      KeyIsGone(text[1..], a);
      ScanPasses(text, a.key, a.value);
      if OccursAt(replaced, a.key, 0) {
        NoneCreated(text, a, a.key);
      }
      assert replaced[1..] == ReplaceKey(text[1..], a.key, a.value);
    }
  }

  /** No value can overlap any key. */
  ghost predicate KeysStayOut(entries: Dictionary) {
    forall a, b | a in entries && b in entries :: Apart(a.value, b.key)
  }

  lemma {:induction false} AbsentStaysAbsent(content: string, entries: Dictionary, key: string)
    requires key != "" && !Contains(content, key)
    requires forall a | a in entries :: a.key != "" && Apart(a.key, key) && Apart(a.value, key)
    ensures var r := Sequential(content, entries); r.Rewritten? ==> !Contains(r.content, key)
    decreases |entries|
  {
    if entries == [] {
    } else {
      assert entries[0] in entries;
      PresenceIsKept(content, entries[0], key);
      AbsentStaysAbsent(ReplaceKey(content, entries[0].key, entries[0].value), entries[1..], key);
    }
  }

  /** A successful run over such entries leaves no key in the file. */
  lemma {:induction false} SuccessLeavesNoKey(content: string, entries: Dictionary, i: nat)
    requires NonInterfering(entries) && KeysStayOut(entries) && i < |entries|
    ensures var r := Sequential(content, entries); r.Rewritten? ==> !Contains(r.content, entries[i].key)
    decreases |entries|
  {
    var a, rest := entries[0], entries[1..];
    var replaced := ReplaceKey(content, a.key, a.value);
    assert a in entries && forall b | b in rest :: b in entries;
    if i == 0 {
      KeyIsGone(content, a);
      CountDecidesContains(replaced, a.key);
      forall b | b in rest ensures Apart(b.key, a.key) {
        ApartSymmetric(a.key, b.key);
      }
      AbsentStaysAbsent(replaced, rest, a.key);
    } else {
      SuccessLeavesNoKey(replaced, rest, i - 1);
    }
  }

  /** No key starts in `x` when `rest` follows it. */
  ghost predicate NoKeyIn(x: string, rest: string, entries: Dictionary) {
    forall p, i :: 0 <= p < |x| && 0 <= i < |entries| ==> !OccursAt(x + rest, entries[i].key, p)
  }

  /** A file that holds each of two keys once: the values take their places. */
  lemma TwoKeys(a: Entry, b: Entry, x: string, y: string, z: string)
    requires NonInterfering([a, b]) && a.key != a.value && b.key != b.value
    requires NoKeyIn(x, a.key + (y + (b.key + z)), [a, b])
    requires NoKeyIn(y, b.key + z, [a, b]) && NoKeyIn(z, "", [a, b])
    ensures Sequential(x + (a.key + (y + (b.key + z))), [a, b]) == Rewritten(x + (a.value + (y + (b.value + z))))
  {
    var content := x + (a.key + (y + (b.key + z)));
    TwoKeysAtOnce(a, b, x, y, z);
    assert Contains(content, a.key) && Contains(content, b.key) by {
      ContainedInFront(a.key, y + (b.key + z));
      ContainedBehind(x, a.key + (y + (b.key + z)), a.key);
      ContainedInFront(b.key, z);
      ContainedBehind(y, b.key + z, b.key);
      ContainedBehind(a.key, y + (b.key + z), b.key);
      ContainedBehind(x, a.key + (y + (b.key + z)), b.key);
    }
    SequentialIsSimultaneous(content, [a, b]);
  }

  lemma TwoKeysAtOnce(a: Entry, b: Entry, x: string, y: string, z: string)
    requires NonInterfering([a, b])
    requires NoKeyIn(x, a.key + (y + (b.key + z)), [a, b])
    requires NoKeyIn(y, b.key + z, [a, b]) && NoKeyIn(z, "", [a, b])
    ensures Simultaneous(x + (a.key + (y + (b.key + z))), [a, b]) == x + (a.value + (y + (b.value + z)))
  {
    var entries := [a, b];
    assert entries[0] == a && entries[1] == b;
    assert Simultaneous(z, entries) == z by {
      CopiesFrom(z, "", entries);
      assert z + "" == z;
    }
    MatchOther(b.key, z, entries, 1);
    CopiesFrom(y, b.key + z, entries);
    MatchOther(a.key, y + (b.key + z), entries, 0);
    CopiesFrom(x, a.key + (y + (b.key + z)), entries);
  }

  lemma ContainedInFront(key: string, rest: string)
    ensures Contains(key + rest, key)
  {
    assert (key + rest)[0..|key|] == key;
    assert OccursAt(key + rest, key, 0);
  }

  lemma ContainedBehind(x: string, rest: string, key: string)
    requires Contains(rest, key)
    ensures Contains(x + rest, key)
  {
    var i :| OccursAt(rest, key, i);
    OccursInSuffix(x, rest, key, i);
  }

  // ---------- the dictionaries of the release script ----------

  const UNDEF := "#undef ABSL_LTS_RELEASE_"
  const DEFINE := "#define ABSL_LTS_RELEASE_"
  const OPTION := "#define ABSL_OPTION_"

  function ConfigEntries(datestamp: string): Dictionary {
    [Entry(UNDEF + "VERSION", DEFINE + "VERSION " + datestamp),
     Entry(UNDEF + "PATCH_LEVEL", DEFINE + "PATCH_LEVEL 0")]
  }

  function OptionsEntries(datestamp: string): Dictionary {
    [Entry(OPTION + "USE_INLINE_NAMESPACE 0", OPTION + "USE_INLINE_NAMESPACE 1"),
     Entry(OPTION + "INLINE_NAMESPACE_NAME head", OPTION + "INLINE_NAMESPACE_NAME lts_" + datestamp)]
  }

  ghost predicate NoHash(s: string) {
    forall i | 0 <= i < |s| :: s[i] != '#'
  }

  ghost predicate DifferAt(x: string, y: string, i: nat) {
    IsHashLine(x) && IsHashLine(y) && i < |x| && i < |y| && x[i] != y[i]
  }

  /** Lines that differ somewhere do not interfere. */
  lemma LinesDoNotInterfere(a: Entry, b: Entry, i: nat, j: nat)
    requires DifferAt(a.key, b.key, i) && DifferAt(a.value, b.key, j)
    ensures NonInterfering([a, b])
  {
    HashLinesAreApart(a.key, b.key, i);
    HashLinesAreApart(a.value, b.key, j);
    assert [a, b][0] == a && [a, b][1] == b;
  }

  lemma LinesStayOut(a: Entry, b: Entry, i: nat, j: nat, k: nat, l: nat)
    requires DifferAt(a.value, a.key, i) && DifferAt(a.value, b.key, j)
    requires DifferAt(b.value, a.key, k) && DifferAt(b.value, b.key, l)
    ensures KeysStayOut([a, b])
  {
    HashLinesAreApart(a.value, a.key, i);
    HashLinesAreApart(a.value, b.key, j);
    HashLinesAreApart(b.value, a.key, k);
    HashLinesAreApart(b.value, b.key, l);
  }

  lemma ConfigLines(datestamp: string)
    requires NoHash(datestamp)
    ensures var a, b := ConfigEntries(datestamp)[0], ConfigEntries(datestamp)[1];
            && DifferAt(a.key, b.key, 24)
            && DifferAt(a.value, a.key, 1) && DifferAt(a.value, b.key, 1)
            && DifferAt(b.value, a.key, 1) && DifferAt(b.value, b.key, 1)
  {
    HashLineExtends(UNDEF, "VERSION");
    HashLineExtends(UNDEF, "PATCH_LEVEL");
    HashLineExtends(DEFINE, "VERSION ");
    HashLineExtends(DEFINE, "PATCH_LEVEL 0");
    HashLineExtends(DEFINE + "VERSION ", datestamp);
  }

  /** For every datestamp without '#', and so for every datestamp of digits, the entries for
      config.h do not interfere and no value overlaps a key. */
  lemma ConfigDoesNotInterfere(datestamp: string)
    requires NoHash(datestamp)
    ensures NonInterfering(ConfigEntries(datestamp)) && KeysStayOut(ConfigEntries(datestamp))
  {
    var a, b := ConfigEntries(datestamp)[0], ConfigEntries(datestamp)[1];
    ConfigLines(datestamp);
    LinesDoNotInterfere(a, b, 24, 1);
    LinesStayOut(a, b, 1, 1, 1, 1);
    assert ConfigEntries(datestamp) == [a, b];
  }

  lemma OptionsKeys(datestamp: string)
    ensures var a, b := OptionsEntries(datestamp)[0], OptionsEntries(datestamp)[1];
            DifferAt(a.key, b.key, 20) && DifferAt(a.value, b.key, 20) && DifferAt(a.value, a.key, 41)
  {
    HashLineExtends(OPTION, "USE_INLINE_NAMESPACE 0");
    HashLineExtends(OPTION, "USE_INLINE_NAMESPACE 1");
    HashLineExtends(OPTION, "INLINE_NAMESPACE_NAME head");
  }

  lemma OptionsName(datestamp: string)
    requires NoHash(datestamp)
    ensures var a, b := OptionsEntries(datestamp)[0], OptionsEntries(datestamp)[1];
            DifferAt(b.value, a.key, 20) && DifferAt(b.value, b.key, 42)
  {
    OptionsKeys(datestamp);
    HashLineExtends(OPTION, "INLINE_NAMESPACE_NAME lts_");
    HashLineExtends(OPTION + "INLINE_NAMESPACE_NAME lts_", datestamp);
  }

  /** The same for options.h. For these entries order does not matter with any datestamp. */
  lemma OptionsDoNotInterfere(datestamp: string)
    ensures NonInterfering(OptionsEntries(datestamp))
    ensures NoHash(datestamp) ==> KeysStayOut(OptionsEntries(datestamp))
  {
    var a, b := OptionsEntries(datestamp)[0], OptionsEntries(datestamp)[1];
    OptionsKeys(datestamp);
    LinesDoNotInterfere(a, b, 20, 20);
    if NoHash(datestamp) {
      OptionsName(datestamp);
      LinesStayOut(a, b, 41, 20, 20, 42);
    }
    assert OptionsEntries(datestamp) == [a, b];
  }

  /** What the release script does to a config.h that holds each of the two lines once. */
  lemma ConfigIsRewritten(datestamp: string, x: string, y: string, z: string)
    requires NoHash(datestamp)
    requires var d := ConfigEntries(datestamp);
             && NoKeyIn(x, d[0].key + (y + (d[1].key + z)), d)
             && NoKeyIn(y, d[1].key + z, d) && NoKeyIn(z, "", d)
    ensures Sequential(x + (("#undef ABSL_LTS_RELEASE_" + "VERSION")
                            + (y + (("#undef ABSL_LTS_RELEASE_" + "PATCH_LEVEL") + z))), ConfigEntries(datestamp))
         == Rewritten(x + (("#define ABSL_LTS_RELEASE_" + "VERSION " + datestamp)
                           + (y + (("#define ABSL_LTS_RELEASE_" + "PATCH_LEVEL 0") + z))))
  {
    var a, b := ConfigEntries(datestamp)[0], ConfigEntries(datestamp)[1];
    ConfigLines(datestamp);
    ConfigDoesNotInterfere(datestamp);
    assert ConfigEntries(datestamp) == [a, b];
    TwoKeys(a, b, x, y, z);
  }

  /** What it does to such an options.h, for every datestamp. */
  lemma OptionsAreRewritten(datestamp: string, x: string, y: string, z: string)
    requires var d := OptionsEntries(datestamp);
             && NoKeyIn(x, d[0].key + (y + (d[1].key + z)), d)
             && NoKeyIn(y, d[1].key + z, d) && NoKeyIn(z, "", d)
    ensures Sequential(x + (("#define ABSL_OPTION_" + "USE_INLINE_NAMESPACE 0")
                            + (y + (("#define ABSL_OPTION_" + "INLINE_NAMESPACE_NAME head") + z))), OptionsEntries(datestamp))
         == Rewritten(x + (("#define ABSL_OPTION_" + "USE_INLINE_NAMESPACE 1")
                           + (y + (("#define ABSL_OPTION_" + "INLINE_NAMESPACE_NAME lts_" + datestamp) + z))))
  {
    var a, b := OptionsEntries(datestamp)[0], OptionsEntries(datestamp)[1];
    OptionsKeys(datestamp);
    OptionsDoNotInterfere(datestamp);
    assert OptionsEntries(datestamp) == [a, b];
    assert b.key != b.value by { NameChanges(datestamp); }
    TwoKeys(a, b, x, y, z);
  }

  lemma NameChanges(datestamp: string)
    ensures OPTION + "INLINE_NAMESPACE_NAME head" != OPTION + "INLINE_NAMESPACE_NAME lts_" + datestamp
  {
    assert (OPTION + "INLINE_NAMESPACE_NAME head")[42] == 'h';
    assert (OPTION + "INLINE_NAMESPACE_NAME lts_" + datestamp)[42] == 'l';
  }
}
