/** The generator of unique keys in NavPost.cpp: random hexadecimal strings of a requested
    length, drawn again while the string is already in use. */
module UniqueKeys {

  const HEX := "0123456789abcdef"

  type Nibble = n: int | 0 <= n < 16

  /** The random device yields 32 bits, and these seed a new engine for every attempt. */
  const SEED_COUNT := 0x1_0000_0000

  type Seed = s: int | 0 <= s < SEED_COUNT

  /** The seeds of the attempts: arbitrary. */
  type Seeds = nat -> Seed

  /** The nibbles that a seeded engine yields: some fixed function of the seed. */
  type Engine = (Seed, nat) -> Nibble

  function KeyFrom(engine: Engine, seed: Seed, length: nat): string {
    seq(length, i requires 0 <= i < length => HEX[engine(seed, i)])
  }

  /** A string of that many lower-case hexadecimal digits. */
  predicate IsKey(key: string, length: nat) {
    |key| == length && forall i | 0 <= i < |key| :: '0' <= key[i] <= '9' || 'a' <= key[i] <= 'f'
  }

  lemma DigitsAreHex(c: char)
    ensures c in HEX <==> '0' <= c <= '9' || 'a' <= c <= 'f'
    ensures c in HEX <==> exists n :: 0 <= n < 16 && HEX[n] == c
  {
    if '0' <= c <= '9' {
      assert HEX[c as int - '0' as int] == c;
    }
    if 'a' <= c <= 'f' {
      assert HEX[c as int - 'a' as int + 10] == c;
    }
  }

  // ---------- what a key says about its seed ----------

  /** The character is the digit that writes the nibble in lower-case hexadecimal. */
  predicate IsHexDigit(c: char, n: Nibble) {
    c as int == if n < 10 then '0' as int + n else 'a' as int + n - 10
  }

  /** The key writes the first `length` nibbles of a seed, in order. */
  predicate Spells(key: string, engine: Engine, seed: Seed, length: nat) {
    |key| == length && forall i | 0 <= i < length :: IsHexDigit(key[i], engine(seed, i))
  }

  lemma OneDigit(c: char, n: Nibble)
    ensures IsHexDigit(c, n) <==> c == HEX[n]
  {
    assert HEX[n] as int == if n < 10 then '0' as int + n else 'a' as int + n - 10;
  }

  /** `KeyFrom` is the one string that does so. */
  lemma SpellsExactly(key: string, engine: Engine, seed: Seed, length: nat)
    ensures Spells(key, engine, seed, length) <==> key == KeyFrom(engine, seed, length)
  {
    var k := KeyFrom(engine, seed, length);
    forall i | 0 <= i < length && |key| == length
      ensures IsHexDigit(key[i], engine(seed, i)) <==> key[i] == k[i]
    {
      OneDigit(key[i], engine(seed, i));
    }
    assert key == k <==> |key| == length && forall i | 0 <= i < length :: key[i] == k[i];
  }

  /** Two seeds give the same key of a length exactly when the engine yields the same nibbles
      for both at all positions up to it. */
  lemma SameKeyExactly(engine: Engine, s: Seed, t: Seed, length: nat)
    ensures KeyFrom(engine, s, length) == KeyFrom(engine, t, length)
       <==> forall i | 0 <= i < length :: engine(s, i) == engine(t, i)
  {
    var x, y := KeyFrom(engine, s, length), KeyFrom(engine, t, length);
    forall i | 0 <= i < length ensures x[i] == y[i] <==> engine(s, i) == engine(t, i) {
      OneDigit(x[i], engine(s, i));
      OneDigit(y[i], engine(t, i));
    }
    assert x == y <==> forall i | 0 <= i < length :: x[i] == y[i];
  }

  /** The attempt that a request made at attempt `start` ends with: the first one from there
      on whose key is not in use. */
  ghost predicate IsFirstFresh(engine: Engine, seeds: Seeds, start: nat, length: nat, used: set<string>, n: nat) {
    && start <= n
    && KeyFrom(engine, seeds(n), length) !in used
    && forall m | start <= m < n :: KeyFrom(engine, seeds(m), length) in used
  }

  /** Some attempt from `start` on offers a key that is not in use. */
  ghost predicate OffersFresh(engine: Engine, seeds: Seeds, start: nat, length: nat, used: set<string>) {
    exists n: nat :: start <= n && KeyFrom(engine, seeds(n), length) !in used
  }

  /** A request has an attempt to end with exactly when the seeds ever offer a fresh key, and
      then it is determined. */
  lemma RequestEndsExactly(engine: Engine, seeds: Seeds, start: nat, length: nat, used: set<string>)
    ensures OffersFresh(engine, seeds, start, length, used)
       <==> exists n: nat :: IsFirstFresh(engine, seeds, start, length, used, n)
    ensures forall n: nat, m: nat ::
              IsFirstFresh(engine, seeds, start, length, used, n) && IsFirstFresh(engine, seeds, start, length, used, m)
              ==> n == m
  {
    if n: nat :| start <= n && KeyFrom(engine, seeds(n), length) !in used {
      var m := FirstFresh(engine, seeds, start, length, used, n);
    }
  }

  lemma {:induction false} FirstFresh(engine: Engine, seeds: Seeds, start: nat, length: nat, used: set<string>, bound: nat)
    returns (n: nat)
    requires start <= bound && KeyFrom(engine, seeds(bound), length) !in used
    ensures IsFirstFresh(engine, seeds, start, length, used, n)
    decreases bound - start
  {
    if KeyFrom(engine, seeds(start), length) !in used {
      n := start;
    } else {
      n := FirstFresh(engine, seeds, start + 1, length, used, bound);
    }
  }

  // ---------- the object ----------

  class KeyGenerator {
    const engine: Engine
    const seeds: Seeds
    var attempts: nat
    var generatedKeys: set<string>

    constructor (engine: Engine, seeds: Seeds)
      ensures this.engine == engine && this.seeds == seeds
      ensures attempts == 0 && generatedKeys == {}
    {
      this.engine := engine;
      this.seeds := seeds;
      attempts := 0;
      generatedKeys := {};
    }

    /** The key depends on the one seed of the attempt only. */
    method GenerateRandomKey(length: nat) returns (key: string)
      modifies this`attempts
      ensures key == KeyFrom(engine, seeds(old(attempts)), length)
      ensures Spells(key, engine, seeds(old(attempts)), length)
      ensures attempts == old(attempts) + 1
    {
      var seed := seeds(attempts);
      attempts := attempts + 1;
      key := "";
      for i := 0 to length
        invariant key == KeyFrom(engine, seed, i)
      {
        key := key + [HEX[engine(seed, i)]];
      }
      SpellsExactly(key, engine, seed, length);
    }

    /** Without a fresh key to come the loop of the C++ code does not end. */
    method GenerateUniqueKey(length: nat) returns (key: string)
      requires OffersFresh(engine, seeds, attempts, length, generatedKeys)
      modifies this
      ensures attempts > 0
      ensures IsFirstFresh(engine, seeds, old(attempts), length, old(generatedKeys), attempts - 1)
      ensures key == KeyFrom(engine, seeds(attempts - 1), length)
      ensures Spells(key, engine, seeds(attempts - 1), length) && key !in old(generatedKeys)
      ensures generatedKeys == old(generatedKeys) + {key}
    {
      RequestEndsExactly(engine, seeds, attempts, length, generatedKeys);
      ghost var last: nat :| IsFirstFresh(engine, seeds, attempts, length, generatedKeys, last);
      key := GenerateRandomKey(length);
      while key in generatedKeys
        invariant old(attempts) < attempts <= last + 1
        invariant key == KeyFrom(engine, seeds(attempts - 1), length)
        invariant forall m | old(attempts) <= m < attempts - 1 :: KeyFrom(engine, seeds(m), length) in generatedKeys
        invariant generatedKeys == old(generatedKeys)
        decreases last + 1 - attempts
      {
        key := GenerateRandomKey(length);
      }
      SpellsExactly(key, engine, seeds(attempts - 1), length);
      generatedKeys := generatedKeys + {key};
    }
  }

  // ---------- how many keys there are ----------

  /** The nibble a hexadecimal digit stands for. */
  function Digit(c: char): (n: Nibble)
    ensures c in HEX ==> HEX[n] == c
  {
    if '0' <= c <= '9' then (c - '0') as int
    else if 'a' <= c <= 'f' then (c - 'a') as int + 10
    else 0
  }

  lemma DigitOfHex(n: Nibble)
    ensures Digit(HEX[n]) == n
  {
  }

  ghost function Pow16(length: nat): nat {
    if length == 0 then 1 else 16 * Pow16(length - 1)
  }

  ghost function Extend(keys: set<string>, n: Nibble): set<string> {
    set k | k in keys :: k + [HEX[n]]
  }

  ghost function ExtendBelow(keys: set<string>, m: nat): set<string>
    requires m <= 16
  {
    if m == 0 then {} else ExtendBelow(keys, m - 1) + Extend(keys, m - 1)
  }

  ghost function AllKeys(length: nat): set<string> {
    if length == 0 then {""} else ExtendBelow(AllKeys(length - 1), 16)
  }

  lemma {:induction false} InExtendBelow(keys: set<string>, m: nat, key: string)
    requires m <= 16
    ensures key in ExtendBelow(keys, m)
       <==> |key| > 0 && key[..|key| - 1] in keys && exists n :: 0 <= n < m && HEX[n] == key[|key| - 1]
    decreases m
  {
    if m == 0 {
    } else {
      InExtendBelow(keys, m - 1, key);
      InExtend(keys, m - 1, key);
    }
  }

  lemma InExtend(keys: set<string>, n: Nibble, key: string)
    ensures key in Extend(keys, n) <==> |key| > 0 && key[..|key| - 1] in keys && key[|key| - 1] == HEX[n]
  {
    if |key| > 0 {
      assert key == key[..|key| - 1] + [key[|key| - 1]];
    }
  }

  /** `AllKeys` holds exactly the hexadecimal strings of that length. */
  lemma {:induction false} AllKeysAreKeys(length: nat, key: string)
    ensures key in AllKeys(length) <==> IsKey(key, length)
    decreases length
  {
    if length == 0 {
    } else {
      InExtendBelow(AllKeys(length - 1), 16, key);
      if |key| > 0 {
        var init, last := key[..|key| - 1], key[|key| - 1];
        AllKeysAreKeys(length - 1, init);
        assert key == init + [last];
        DigitsAreHex(last);
      }
    }
  }

  lemma {:induction false} ExtendSize(keys: set<string>, n: Nibble)
    ensures |Extend(keys, n)| == |keys|
    decreases keys
  {
    if keys == {} {
    } else {
      var k :| k in keys;
      var c := [HEX[n]];
      ExtendSize(keys - {k}, n);
      assert k + c !in Extend(keys - {k}, n) by {
        InExtend(keys - {k}, n, k + c);
        assert (k + c)[..|k + c| - 1] == k;
      }
      assert Extend(keys, n) == Extend(keys - {k}, n) + {k + c};
    }
  }

  lemma {:induction false} ExtendBelowSize(keys: set<string>, m: nat)
    requires m <= 16
    ensures |ExtendBelow(keys, m)| == m * |keys|
    decreases m
  {
    if m == 0 {
    } else {
      ExtendBelowSize(keys, m - 1);
      ExtendSize(keys, m - 1);
      DifferentLastDigits(keys, m - 1);
      OneMore(m - 1, |keys|);
    }
  }

  lemma OneMore(n: nat, size: nat)
    ensures (n + 1) * size == n * size + size
  {
  }

  lemma DifferentLastDigits(keys: set<string>, n: Nibble)
    ensures ExtendBelow(keys, n) !! Extend(keys, n)
  {
    forall key ensures !(key in ExtendBelow(keys, n) && key in Extend(keys, n)) {
      if key in ExtendBelow(keys, n) && key in Extend(keys, n) {
        InExtendBelow(keys, n, key);
        InExtend(keys, n, key);
        var i: Nibble :| i < n && HEX[i] == key[|key| - 1];
        DigitOfHex(i);
        DigitOfHex(n);
      }
    }
  }

  /** There are exactly 16^length keys. */
  lemma {:induction false} KeyCount(length: nat)
    ensures |AllKeys(length)| == Pow16(length)
    decreases length
  {
    if length == 0 {
    } else {
      KeyCount(length - 1);
      ExtendBelowSize(AllKeys(length - 1), 16);
    }
  }

  // ---------- which keys an engine produces ----------

  ghost function ProducedBelow(engine: Engine, n: nat, length: nat): set<string>
    requires n <= SEED_COUNT
  {
    set s: int | 0 <= s < n :: KeyFrom(engine, s, length)
  }

  /** The keys of a length that some seed leads to. */
  ghost function Producible(engine: Engine, length: nat): set<string> {
    ProducedBelow(engine, SEED_COUNT, length)
  }

  lemma ProducedBySeed(engine: Engine, length: nat, key: string)
    ensures key in Producible(engine, length) <==> exists s: Seed :: key == KeyFrom(engine, s, length)
    ensures key in Producible(engine, length) ==> IsKey(key, length)
  {
    if s: Seed :| key == KeyFrom(engine, s, length) {
      assert 0 <= s < SEED_COUNT;
    }
  }

  lemma SubsetSize(a: set<string>, b: set<string>)
    requires a <= b
    ensures |a| <= |b|
    ensures |a| == |b| <==> a == b
  {
    assert b == a + (b - a);
  }

  lemma {:induction false} ProducedBelowSize(engine: Engine, n: nat, length: nat)
    requires n <= SEED_COUNT
    ensures |ProducedBelow(engine, n, length)| <= n
    decreases n
  {
    if n == 0 {
      assert ProducedBelow(engine, 0, length) == {};
    } else {
      ProducedBelowSize(engine, n - 1, length);
      var last := KeyFrom(engine, n - 1, length);
      assert ProducedBelow(engine, n, length) == ProducedBelow(engine, n - 1, length) + {last};
    }
  }

  /** An engine produces at most 16^length keys of a length, and never more than it has seeds. */
  lemma ProducibleBounds(engine: Engine, length: nat)
    ensures Producible(engine, length) <= AllKeys(length)
    ensures |Producible(engine, length)| <= Pow16(length)
    ensures |Producible(engine, length)| <= 0x1_0000_0000
  {
    forall key | key in Producible(engine, length) ensures key in AllKeys(length) {
      ProducedBySeed(engine, length, key);
      AllKeysAreKeys(length, key);
    }
    SubsetSize(Producible(engine, length), AllKeys(length));
    KeyCount(length);
    ProducedBelowSize(engine, SEED_COUNT, length);
  }

  // ---------- one request ----------

  /** Some seeds end a request for a key of this length. */
  ghost predicate CanReturn(engine: Engine, used: set<string>, length: nat) {
    exists seeds: Seeds, n: nat :: IsFirstFresh(engine, seeds, 0, length, used, n)
  }

  /** A request can return exactly when some producible key of its length is not stored. */
  lemma OneKeyExactly(engine: Engine, used: set<string>, length: nat)
    ensures CanReturn(engine, used, length) <==> !(Producible(engine, length) <= used)
  {
    if seeds: Seeds, n: nat :| IsFirstFresh(engine, seeds, 0, length, used, n) {
      ProducedBySeed(engine, length, KeyFrom(engine, seeds(n), length));
    }
    if key :| key in Producible(engine, length) && key !in used {
      ProducedBySeed(engine, length, key);
      var s: Seed :| key == KeyFrom(engine, s, length);
      var seeds: Seeds := (a: nat) => s;
      assert IsFirstFresh(engine, seeds, 0, length, used, 0);
    }
  }

  /** The stored keys of one length. */
  ghost function Stored(used: set<string>, length: nat): set<string> {
    used * AllKeys(length)
  }

  /** Every hexadecimal string of the length has a seed. */
  ghost predicate Onto(engine: Engine, length: nat) {
    Producible(engine, length) == AllKeys(length)
  }

  /** That a request can return as long as fewer than 16^length keys of its length are stored,
      whichever they are, holds exactly when the engine is onto for that length. */
  lemma {:induction false} AllKeysUsableExactly(engine: Engine, length: nat)
    ensures (forall used :: CanReturn(engine, used, length) <==> |Stored(used, length)| < Pow16(length))
       <==> Onto(engine, length)
  {
    KeyCount(length);
    ProducibleBounds(engine, length);
    forall used ensures CanReturn(engine, used, length) <==> !(Producible(engine, length) <= used) {
      OneKeyExactly(engine, used, length);
    }
    forall used ensures |Stored(used, length)| < Pow16(length) <==> !(AllKeys(length) <= used) {
      StoredAll(used, length);
    }
    var produced := Producible(engine, length);
    assert CanReturn(engine, produced, length) <==> !(produced <= produced);
    assert |Stored(produced, length)| < Pow16(length) <==> !(AllKeys(length) <= produced);
  }

  lemma StoredAll(used: set<string>, length: nat)
    ensures |Stored(used, length)| < Pow16(length) <==> !(AllKeys(length) <= used)
  {
    KeyCount(length);
    SubsetSize(Stored(used, length), AllKeys(length));
  }

  lemma {:induction false} Pow16Grows(length: nat)
    requires length >= 9
    ensures Pow16(length) > SEED_COUNT
    decreases length
  {
    if length == 9 {
      assert Pow16(8) == 16 * Pow16(7) && Pow16(7) == 16 * Pow16(6) && Pow16(6) == 16 * Pow16(5);
      assert Pow16(5) == 16 * Pow16(4) && Pow16(4) == 16 * Pow16(3) && Pow16(3) == 16 * Pow16(2);
      assert Pow16(2) == 16 * Pow16(1) && Pow16(1) == 16 * Pow16(0);
    } else {
      Pow16Grows(length - 1);
    }
  }

  /** From length 9 on no engine is onto: there is a store with room left by count from which
      no seeds ever end a request. */
  lemma LongKeysRunOut(engine: Engine, length: nat)
    requires length >= 9
    ensures !Onto(engine, length)
    ensures exists used :: |Stored(used, length)| < Pow16(length) && !CanReturn(engine, used, length)
  {
    var used := Producible(engine, length);
    ProducibleBounds(engine, length);
    Pow16Grows(length);
    KeyCount(length);
    OneKeyExactly(engine, used, length);
    assert Stored(used, length) == used;
  }

  // ---------- engines that produce every short key ----------

  /** The number without its last `i` hexadecimal digits. */
  ghost function Shift(v: nat, i: nat): nat
    decreases i
  {
    if i == 0 then v else Shift(v / 16, i - 1)
  }

  /** The number that a key writes, the last digit first. */
  ghost function NumberOf(key: string): nat {
    if key == "" then 0 else Digit(key[0]) + 16 * NumberOf(key[1..])
  }

  lemma {:induction false} NumberBound(key: string)
    ensures NumberOf(key) < Pow16(|key|)
    decreases |key|
  {
    if key == "" {
    } else {
      NumberBound(key[1..]);
    }
  }

  lemma {:induction false} ShiftToDigit(key: string, i: nat)
    requires i < |key|
    ensures Shift(NumberOf(key), i) % 16 == Digit(key[i])
    decreases i
  {
    if i == 0 {
    } else {
      assert NumberOf(key) / 16 == NumberOf(key[1..]);
      ShiftToDigit(key[1..], i - 1);
    }
  }

  /** An engine that yields the digits of its seed. */
  ghost function SeedDigits(): Engine {
    (s: Seed, i: nat) => Shift(s, i) % 16
  }

  lemma SeedDigitsProduce(key: string)
    requires |key| <= 8 && IsKey(key, |key|)
    ensures key in Producible(SeedDigits(), |key|)
  {
    NumberBound(key);
    Pow16Bound(|key|);
    var s: Seed := NumberOf(key);
    forall i | 0 <= i < |key| ensures IsHexDigit(key[i], SeedDigits()(s, i)) {
      ShiftToDigit(key, i);
    }
    SpellsExactly(key, SeedDigits(), s, |key|);
    ProducedBySeed(SeedDigits(), |key|, key);
  }

  lemma Pow16Bound(length: nat)
    requires length <= 8
    ensures Pow16(length) <= SEED_COUNT
  {
    assert Pow16(8) == 16 * Pow16(7) && Pow16(7) == 16 * Pow16(6) && Pow16(6) == 16 * Pow16(5);
    assert Pow16(5) == 16 * Pow16(4) && Pow16(4) == 16 * Pow16(3) && Pow16(3) == 16 * Pow16(2);
    assert Pow16(2) == 16 * Pow16(1) && Pow16(1) == 16 * Pow16(0);
  }

  /** An engine can produce every string of a length exactly up to length 8. */
  lemma OntoIsPossibleExactly(length: nat)
    ensures (exists engine: Engine :: Onto(engine, length)) <==> length <= 8
  {
    if length <= 8 {
      var engine := SeedDigits();
      ProducibleBounds(engine, length);
      forall key | key in AllKeys(length) ensures key in Producible(engine, length) {
        AllKeysAreKeys(length, key);
        SeedDigitsProduce(key);
      }
      assert Onto(engine, length);
    } else {
      forall engine: Engine ensures !Onto(engine, length) {
        LongKeysRunOut(engine, length);
      }
    }
  }

  // ---------- runs ----------

  /** A run of requests from attempt `start` on, with the keys they return. */
  ghost predicate IsRun(engine: Engine, seeds: Seeds, start: nat, used: set<string>, lengths: seq<nat>, keys: seq<string>)
    decreases |lengths|
  {
    && |keys| == |lengths|
    && (lengths != [] ==>
          exists n: nat ::
            && IsFirstFresh(engine, seeds, start, lengths[0], used, n)
            && keys[0] == KeyFrom(engine, seeds(n), lengths[0])
            && IsRun(engine, seeds, n + 1, used + {keys[0]}, lengths[1..], keys[1..]))
  }

  /** Producible keys of the requested lengths, each new. */
  ghost predicate FreshKeys(engine: Engine, used: set<string>, lengths: seq<nat>, keys: seq<string>)
    decreases |lengths|
  {
    && |keys| == |lengths|
    && (lengths != [] ==>
          && keys[0] in Producible(engine, lengths[0])
          && keys[0] !in used
          && FreshKeys(engine, used + {keys[0]}, lengths[1..], keys[1..]))
  }

  ghost function Elements(keys: seq<string>): set<string> {
    set k | k in keys
  }

  /** What fresh keys amount to: right lengths, new, pairwise distinct, as many as requests. */
  lemma {:induction false} FreshKeysAreDistinct(engine: Engine, used: set<string>, lengths: seq<nat>, keys: seq<string>)
    requires FreshKeys(engine, used, lengths, keys)
    ensures forall i | 0 <= i < |keys| :: IsKey(keys[i], lengths[i]) && keys[i] !in used
    ensures forall i, j | 0 <= i < j < |keys| :: keys[i] != keys[j]
    ensures |Elements(keys)| == |lengths|
    decreases |lengths|
  {
    if lengths == [] {
    } else {
      FreshKeysAreDistinct(engine, used + {keys[0]}, lengths[1..], keys[1..]);
      ProducedBySeed(engine, lengths[0], keys[0]);
      forall i | 0 <= i < |keys|
        ensures IsKey(keys[i], lengths[i]) && keys[i] !in used && (i > 0 ==> keys[i] != keys[0])
      {
        if i > 0 {
          assert keys[i] == keys[1..][i - 1] && lengths[i] == lengths[1..][i - 1];
        }
      }
      forall i, j | 0 <= i < j < |keys| ensures keys[i] != keys[j] {
        if i > 0 {
          assert keys[i] == keys[1..][i - 1] && keys[j] == keys[1..][j - 1];
        }
      }
      assert Elements(keys) == Elements(keys[1..]) + {keys[0]};
      assert keys[0] !in Elements(keys[1..]);
    }
  }

  /** Every run returns fresh keys. */
  lemma {:induction false} RunReturnsFreshKeys(engine: Engine, seeds: Seeds, start: nat, used: set<string>, lengths: seq<nat>, keys: seq<string>)
    requires IsRun(engine, seeds, start, used, lengths, keys)
    ensures FreshKeys(engine, used, lengths, keys)
    decreases |lengths|
  {
    if lengths == [] {
    } else {
      var n: nat :| && IsFirstFresh(engine, seeds, start, lengths[0], used, n)
               && keys[0] == KeyFrom(engine, seeds(n), lengths[0])
               && IsRun(engine, seeds, n + 1, used + {keys[0]}, lengths[1..], keys[1..]);
      ProducedBySeed(engine, lengths[0], keys[0]);
      RunReturnsFreshKeys(engine, seeds, n + 1, used + {keys[0]}, lengths[1..], keys[1..]);
    }
  }

  /** A seed that leads to the key. */
  ghost function SeedOf(engine: Engine, key: string): (s: Seed)
    ensures key in Producible(engine, |key|) ==> KeyFrom(engine, s, |key|) == key
  {
    if key in Producible(engine, |key|) then
      ProducedBySeed(engine, |key|, key);
      var s: Seed :| key == KeyFrom(engine, s, |key|);
      s
    else 0
  }

  /** Seeds that lead to the given keys, one per attempt. */
  ghost function SeedsOf(engine: Engine, keys: seq<string>): Seeds {
    (a: nat) => if a < |keys| then SeedOf(engine, keys[a]) else 0
  }

  /** Every sequence of fresh producible keys is returned with some seeds. */
  lemma {:induction false} FreshKeysAreARun(engine: Engine, all: seq<string>, start: nat, used: set<string>, lengths: seq<nat>)
    requires start <= |all| && FreshKeys(engine, used, lengths, all[start..])
    ensures IsRun(engine, SeedsOf(engine, all), start, used, lengths, all[start..])
    decreases |lengths|
  {
    if lengths == [] {
    } else {
      var keys := all[start..];
      assert keys[1..] == all[start + 1..];
      ProducedBySeed(engine, lengths[0], keys[0]);
      assert KeyFrom(engine, SeedsOf(engine, all)(start), lengths[0]) == keys[0];
      FreshKeysAreARun(engine, all, start + 1, used + {keys[0]}, lengths[1..]);
      assert IsFirstFresh(engine, SeedsOf(engine, all), start, lengths[0], used, start);
    }
  }

  // ---------- which requests can be met ----------

  ghost function Requests(lengths: seq<nat>, length: nat): nat {
    if lengths == [] then 0
    else (if lengths[0] == length then 1 else 0) + Requests(lengths[1..], length)
  }

  /** The producible keys of one length that are stored. */
  ghost function Spent(engine: Engine, used: set<string>, length: nat): set<string> {
    used * Producible(engine, length)
  }

  /** There is room for the requested keys of every length. */
  ghost predicate Fits(engine: Engine, used: set<string>, lengths: seq<nat>) {
    forall length: nat ::
      |Spent(engine, used, length)| + Requests(lengths, length) <= |Producible(engine, length)|
  }

  lemma SpentAfter(engine: Engine, used: set<string>, key: string, length: nat, other: nat)
    requires key in Producible(engine, length) && key !in used
    ensures |Spent(engine, used + {key}, other)| == |Spent(engine, used, other)| + if other == length then 1 else 0
  {
    ProducedBySeed(engine, length, key);
    ProducedBySeed(engine, other, key);
    if other == length {
      assert Spent(engine, used + {key}, other) == Spent(engine, used, other) + {key};
    } else {
      assert Spent(engine, used + {key}, other) == Spent(engine, used, other);
    }
  }

  lemma FreeKey(engine: Engine, used: set<string>, length: nat) returns (key: string)
    requires |Spent(engine, used, length)| < |Producible(engine, length)|
    ensures key in Producible(engine, length) && key !in used
  {
    RoomLeft(Spent(engine, used, length), Producible(engine, length));
    key :| key in Producible(engine, length) - Spent(engine, used, length);
  }

  lemma RoomLeft(a: set<string>, b: set<string>)
    requires a <= b && |a| < |b|
    ensures b - a != {}
  {
    assert b == a + (b - a);
  }

  lemma {:induction false} FreshKeysFit(engine: Engine, used: set<string>, lengths: seq<nat>, keys: seq<string>)
    requires FreshKeys(engine, used, lengths, keys)
    ensures Fits(engine, used, lengths)
    decreases |lengths|
  {
    if lengths == [] {
      forall length: nat ensures |Spent(engine, used, length)| <= |Producible(engine, length)| {
        SubsetSize(Spent(engine, used, length), Producible(engine, length));
      }
    } else {
      FreshKeysFit(engine, used + {keys[0]}, lengths[1..], keys[1..]);
      forall length: nat
        ensures |Spent(engine, used, length)| + Requests(lengths, length) <= |Producible(engine, length)|
      {
        SpentAfter(engine, used, keys[0], lengths[0], length);
      }
    }
  }

  lemma {:induction false} FittingKeysExist(engine: Engine, used: set<string>, lengths: seq<nat>) returns (keys: seq<string>)
    requires Fits(engine, used, lengths)
    ensures FreshKeys(engine, used, lengths, keys)
    decreases |lengths|
  {
    if lengths == [] {
      keys := [];
    } else {
      var length := lengths[0];
      assert Requests(lengths, length) > 0;
      var key := FreeKey(engine, used, length);
      forall other: nat
        ensures |Spent(engine, used + {key}, other)| + Requests(lengths[1..], other) <= |Producible(engine, other)|
      {
        SpentAfter(engine, used, key, length, other);
      }
      var rest := FittingKeysExist(engine, used + {key}, lengths[1..]);
      keys := [key] + rest;
      assert keys[1..] == rest;
    }
  }

  /** Some seeds complete the requests. */
  ghost predicate Completable(engine: Engine, used: set<string>, lengths: seq<nat>) {
    exists seeds: Seeds, keys :: IsRun(engine, seeds, 0, used, lengths, keys)
  }

  /** A sequence of requests can be completed exactly when, for every length, the stored
      producible keys and the requests together do not exceed the producible keys. */
  lemma CompletableExactly(engine: Engine, used: set<string>, lengths: seq<nat>)
    ensures Completable(engine, used, lengths) <==> Fits(engine, used, lengths)
  {
    if seeds: Seeds, keys :| IsRun(engine, seeds, 0, used, lengths, keys) {
      RunReturnsFreshKeys(engine, seeds, 0, used, lengths, keys);
      FreshKeysFit(engine, used, lengths, keys);
    }
    if Fits(engine, used, lengths) {
      var keys := FittingKeysExist(engine, used, lengths);
      assert keys[0..] == keys;
      FreshKeysAreARun(engine, keys, 0, used, lengths);
      assert IsRun(engine, SeedsOf(engine, keys), 0, used, lengths, keys);
    }
  }

  /** No run returns more than 16^length keys of a length, nor more than there are seeds. */
  lemma RunsAreBounded(engine: Engine, used: set<string>, lengths: seq<nat>, length: nat)
    requires Completable(engine, used, lengths)
    ensures Requests(lengths, length) <= Pow16(length) && Requests(lengths, length) <= 0x1_0000_0000
  {
    CompletableExactly(engine, used, lengths);
    ProducibleBounds(engine, length);
    assert |Spent(engine, used, length)| + Requests(lengths, length) <= |Producible(engine, length)|;
  }

  /** Every completed run: keys of the requested lengths, pairwise distinct, and one stored key
      for each request. */
  lemma {:induction false} RunIsUnique(engine: Engine, seeds: Seeds, lengths: seq<nat>, keys: seq<string>)
    requires IsRun(engine, seeds, 0, {}, lengths, keys)
    ensures forall i | 0 <= i < |keys| :: IsKey(keys[i], lengths[i])
    ensures forall i, j | 0 <= i < j < |keys| :: keys[i] != keys[j]
    ensures |Elements(keys)| == |lengths|
  {
    RunReturnsFreshKeys(engine, seeds, 0, {}, lengths, keys);
    FreshKeysAreDistinct(engine, {}, lengths, keys);
  }
}
