/** The converters between Qt variants and JSON in NavPost.cpp. They are no inverses of each
    other; this module says exactly what a round trip in either direction gives.

    A QString and the std::string it converts to are the same `string` here. */
module VariantJson {

  type Int32 = i: int | -0x8000_0000 <= i < 0x8000_0000

  /** A double, by its bit pattern: the converters only copy it. */
  datatype Double = Double(bits: bv64)

  datatype Variant =
    | VMap(entries: map<string, Variant>)
    | VList(items: seq<Variant>)
    | VString(s: string)
    | VInt(i: Int32)
    | VDouble(d: Double)
    | VBool(b: bool)
    | VInvalid
    | VOther(typeId: int)  // any type the converters do not know

  datatype Json =
    | JNull
    | JObject(members: map<string, Json>)
    | JArray(elements: seq<Json>)
    | JString(s: string)
    | JInteger(n: int)  // signed and unsigned
    | JFloat(d: Double)
    | JBoolean(b: bool)
    | JBinary(bytes: seq<bv8>)
    | JDiscarded

  /** The cast to `int` that `get<int>` makes. */
  function ToInt32(n: int): Int32 {
    (n + 0x8000_0000) % 0x1_0000_0000 - 0x8000_0000
  }

  // ---------- the converters as functions ----------

  /** A JSON value starts as null and becomes an object with its first member, so an empty map
      stays null. Unknown types become null. */
  function ToJson(v: Variant): Json {
    match v
    case VMap(entries) =>
      if entries == map[] then JNull else JObject(map k | k in entries :: ToJson(entries[k]))
    case VList(items) => JArray(seq(|items|, i requires 0 <= i < |items| => ToJson(items[i])))
    case VString(s) => JString(s)
    case VInt(i) => JInteger(i)
    case VDouble(d) => JFloat(d)
    case VBool(b) => JBoolean(b)
    case VInvalid => JNull
    case VOther(_) => JNull
  }

  function ToVariant(j: Json): Variant {
    match j
    case JObject(members) => VMap(map k | k in members :: ToVariant(members[k]))
    case JArray(elements) => VList(seq(|elements|, i requires 0 <= i < |elements| => ToVariant(elements[i])))
    case JBoolean(b) => VBool(b)
    case JInteger(n) => VInt(ToInt32(n))
    case JFloat(d) => VDouble(d)
    case JString(s) => VString(s)
    case JNull => VInvalid
    case JBinary(_) => VInvalid
    case JDiscarded => VInvalid
  }

  // ---------- what a conversion means ----------

  /** `j` is what a variant has to be written as. */
  predicate WrittenAs(v: Variant, j: Json)
    decreases v
  {
    match v
    case VMap(entries) =>
      if |entries| == 0 then j.JNull?
      else j.JObject? && j.members.Keys == entries.Keys && forall k | k in entries :: WrittenAs(entries[k], j.members[k])
    case VList(items) =>
      && j.JArray?
      && |j.elements| == |items|
      && forall i | 0 <= i < |items| :: WrittenAs(items[i], j.elements[i])
    case VString(s) => j.JString? && j.s == s
    case VInt(i) => j.JInteger? && j.n == i
    case VDouble(d) => j.JFloat? && j.d == d
    case VBool(b) => j.JBoolean? && j.b == b
    case VInvalid => j.JNull?
    case VOther(_) => j.JNull?
  }

  /** `v` is what a JSON value has to be read as; integers are cut to 32 bits. */
  predicate ReadAs(j: Json, v: Variant)
    decreases j
  {
    match j
    case JObject(members) =>
      v.VMap? && v.entries.Keys == members.Keys && forall k | k in members :: ReadAs(members[k], v.entries[k])
    case JArray(elements) =>
      && v.VList?
      && |v.items| == |elements|
      && forall i | 0 <= i < |elements| :: ReadAs(elements[i], v.items[i])
    case JString(s) => v.VString? && v.s == s
    case JInteger(n) => v.VInt? && (v.i - n) % 0x1_0000_0000 == 0
    case JFloat(d) => v.VDouble? && v.d == d
    case JBoolean(b) => v.VBool? && v.b == b
    case JNull => v.VInvalid?
    case JBinary(_) => v.VInvalid?
    case JDiscarded => v.VInvalid?
  }

  /** The conversion to JSON writes every variant as it has to be written, and nothing else is
      such a JSON value. */
  lemma {:induction false} WrittenExactly(v: Variant, j: Json)
    ensures WrittenAs(v, j) <==> j == ToJson(v)
    decreases v
  {
    match v
    case VMap(entries) =>
      if entries != map[] && j.JObject? && j.members.Keys == entries.Keys {
        forall k | k in entries ensures WrittenAs(entries[k], j.members[k]) <==> j.members[k] == ToJson(entries[k]) {
          WrittenExactly(entries[k], j.members[k]);
        }
        var all := map k | k in entries :: ToJson(entries[k]);
        assert j.members == all <==> forall k | k in entries :: j.members[k] == all[k];
      }
    case VList(items) =>
      if j.JArray? && |j.elements| == |items| {
        forall i | 0 <= i < |items| ensures WrittenAs(items[i], j.elements[i]) <==> j.elements[i] == ToJson(items[i]) {
          WrittenExactly(items[i], j.elements[i]);
        }
        var all := ToJson(v).elements;
        assert j.elements == all <==> forall i | 0 <= i < |items| :: j.elements[i] == all[i];
      }
    case _ =>
  }

  /** The same for the conversion from JSON. */
  lemma {:induction false} ReadExactly(j: Json, v: Variant)
    ensures ReadAs(j, v) <==> v == ToVariant(j)
    decreases j
  {
    match j
    case JObject(members) =>
      if v.VMap? && v.entries.Keys == members.Keys {
        forall k | k in members ensures ReadAs(members[k], v.entries[k]) <==> v.entries[k] == ToVariant(members[k]) {
          ReadExactly(members[k], v.entries[k]);
        }
        var all := map k | k in members :: ToVariant(members[k]);
        assert v.entries == all <==> forall k | k in members :: v.entries[k] == all[k];
      }
    case JArray(elements) =>
      if v.VList? && |v.items| == |elements| {
        forall i | 0 <= i < |elements| ensures ReadAs(elements[i], v.items[i]) <==> v.items[i] == ToVariant(elements[i]) {
          ReadExactly(elements[i], v.items[i]);
        }
        var all := ToVariant(j).items;
        assert v.items == all <==> forall i | 0 <= i < |elements| :: v.items[i] == all[i];
      }
    case JInteger(n) =>
      if v.VInt? {
        CutExactly(n, v.i);
      }
    case _ =>
  }

  /** Of the numbers that differ from `n` by a multiple of 2^32, the cast gives the one within
      32 bits. */
  lemma CutExactly(n: int, i: Int32)
    ensures (i - n) % 0x1_0000_0000 == 0 <==> i == ToInt32(n)
  {
  }

  // ---------- normal forms ----------

  /** What survives from variant to JSON and back. */
  function Normal(v: Variant): Variant {
    match v
    case VMap(entries) =>
      if entries == map[] then VInvalid else VMap(map k | k in entries :: Normal(entries[k]))
    case VList(items) => VList(seq(|items|, i requires 0 <= i < |items| => Normal(items[i])))
    case VOther(_) => VInvalid
    case _ => v
  }

  /** No empty map and no unsupported value at any depth. */
  predicate IsNormal(v: Variant) {
    match v
    case VMap(entries) => entries != map[] && forall k | k in entries :: IsNormal(entries[k])
    case VList(items) => forall i | 0 <= i < |items| :: IsNormal(items[i])
    case VOther(_) => false
    case _ => true
  }

  /** What survives from JSON to variant and back. */
  function NormalJson(j: Json): Json {
    match j
    case JObject(members) =>
      if members == map[] then JNull else JObject(map k | k in members :: NormalJson(members[k]))
    case JArray(elements) => JArray(seq(|elements|, i requires 0 <= i < |elements| => NormalJson(elements[i])))
    case JInteger(n) => JInteger(ToInt32(n))
    case JBinary(_) => JNull
    case JDiscarded => JNull
    case _ => j
  }

  /** No empty object, no binary or discarded value and no integer beyond 32 bits at any depth. */
  predicate IsNormalJson(j: Json) {
    match j
    case JObject(members) => members != map[] && forall k | k in members :: IsNormalJson(members[k])
    case JArray(elements) => forall i | 0 <= i < |elements| :: IsNormalJson(elements[i])
    case JInteger(n) => -0x8000_0000 <= n < 0x8000_0000
    case JBinary(_) => false
    case JDiscarded => false
    case _ => true
  }

  // ---------- round trips ----------

  lemma {:induction false} VariantRoundTrip(v: Variant)
    ensures ToVariant(ToJson(v)) == Normal(v)
  {
    match v
    case VMap(entries) =>
      forall k | k in entries ensures ToVariant(ToJson(entries[k])) == Normal(entries[k]) {
        VariantRoundTrip(entries[k]);
      }
    case VList(items) =>
      forall i | 0 <= i < |items| ensures ToVariant(ToJson(items[i])) == Normal(items[i]) {
        VariantRoundTrip(items[i]);
      }
    case _ =>
  }

  lemma {:induction false} JsonRoundTrip(j: Json)
    ensures ToJson(ToVariant(j)) == NormalJson(j)
  {
    match j
    case JObject(members) =>
      forall k | k in members ensures ToJson(ToVariant(members[k])) == NormalJson(members[k]) {
        JsonRoundTrip(members[k]);
      }
    case JArray(elements) =>
      forall i | 0 <= i < |elements| ensures ToJson(ToVariant(elements[i])) == NormalJson(elements[i]) {
        JsonRoundTrip(elements[i]);
      }
    case _ =>
  }

  /** Normalising keeps a variant exactly when it is normal, and its result always is. */
  lemma {:induction false} NormalIsExact(v: Variant)
    ensures Normal(v) == v <==> IsNormal(v)
    ensures IsNormal(Normal(v)) && Normal(Normal(v)) == Normal(v)
  {
    NormalisesToNormal(v);
    FixedIffNormal(v);
    FixedIffNormal(Normal(v));
  }

  lemma {:induction false} NormalisesToNormal(v: Variant)
    ensures IsNormal(Normal(v))
  {
    match v
    case VMap(entries) =>
      forall k | k in entries ensures IsNormal(Normal(entries[k])) {
        NormalisesToNormal(entries[k]);
      }
      if entries != map[] {
        var k :| k in entries;
        assert k in Normal(v).entries;
      }
    case VList(items) =>
      forall i | 0 <= i < |items| ensures IsNormal(Normal(items[i])) {
        NormalisesToNormal(items[i]);
      }
    case _ =>
  }

  lemma {:induction false} FixedIffNormal(v: Variant)
    ensures Normal(v) == v <==> IsNormal(v)
  {
    match v
    case VMap(entries) =>
      forall k | k in entries ensures Normal(entries[k]) == entries[k] <==> IsNormal(entries[k]) {
        FixedIffNormal(entries[k]);
      }
      if entries != map[] {
        var kept := map k | k in entries :: Normal(entries[k]);
        assert Normal(v) == VMap(kept);
        assert kept == entries <==> forall k | k in entries :: kept[k] == entries[k];
      }
    case VList(items) =>
      forall i | 0 <= i < |items| ensures Normal(items[i]) == items[i] <==> IsNormal(items[i]) {
        FixedIffNormal(items[i]);
      }
      var kept := Normal(v).items;
      assert kept == items <==> forall i | 0 <= i < |items| :: kept[i] == items[i];
    case _ =>
  }

  lemma {:induction false} JsonFixedIffNormal(j: Json)
    ensures NormalJson(j) == j <==> IsNormalJson(j)
  {
    match j
    case JObject(members) =>
      forall k | k in members ensures NormalJson(members[k]) == members[k] <==> IsNormalJson(members[k]) {
        JsonFixedIffNormal(members[k]);
      }
      if members != map[] {
        var kept := map k | k in members :: NormalJson(members[k]);
        assert NormalJson(j) == JObject(kept);
        assert kept == members <==> forall k | k in members :: kept[k] == members[k];
      }
    case JArray(elements) =>
      forall i | 0 <= i < |elements| ensures NormalJson(elements[i]) == elements[i] <==> IsNormalJson(elements[i]) {
        JsonFixedIffNormal(elements[i]);
      }
      var kept := NormalJson(j).elements;
      assert kept == elements <==> forall i | 0 <= i < |elements| :: kept[i] == elements[i];
    case _ =>
  }

  /** Converting from JSON and back is the identity exactly on normal JSON. */
  lemma {:induction false} JsonRoundTripIsIdentity(j: Json)
    ensures ToJson(ToVariant(j)) == j <==> IsNormalJson(j)
  {
    JsonRoundTrip(j);
    JsonFixedIffNormal(j);
  }

  /** Conversion from a variant only ever yields normal JSON. */
  lemma {:induction false} ToJsonIsNormal(v: Variant)
    ensures IsNormalJson(ToJson(v))
  {
    match v
    case VMap(entries) =>
      forall k | k in entries ensures IsNormalJson(ToJson(entries[k])) {
        ToJsonIsNormal(entries[k]);
      }
      if entries != map[] {
        var k :| k in entries;
        assert k in ToJson(v).members;
      }
    case VList(items) =>
      forall i | 0 <= i < |items| ensures IsNormalJson(ToJson(items[i])) {
        ToJsonIsNormal(items[i]);
      }
    case _ =>
  }

  /** Normal JSON is exactly what variants convert to. */
  lemma NormalJsonIsTheImage(j: Json)
    ensures IsNormalJson(j) <==> exists v :: ToJson(v) == j
  {
    JsonRoundTripIsIdentity(j);
    if v :| ToJson(v) == j {
      ToJsonIsNormal(v);
    }
  }

  /** Two variants become the same JSON exactly when their normal forms agree. */
  lemma ToJsonIdentifies(v: Variant, w: Variant)
    ensures ToJson(v) == ToJson(w) <==> Normal(v) == Normal(w)
  {
    NormalHasSameJson(v);
    NormalHasSameJson(w);
    VariantRoundTrip(v);
    VariantRoundTrip(w);
  }

  lemma NormalHasSameJson(v: Variant)
    ensures ToJson(Normal(v)) == ToJson(v)
  {
    VariantRoundTrip(v);
    ToJsonIsNormal(v);
    JsonRoundTripIsIdentity(ToJson(v));
  }

  // ---------- the converters and their loops ----------

  /** Assigning a member turns null into an object. */
  function Assign(j: Json, key: string, value: Json): Json
    requires j.JNull? || j.JObject?
  {
    JObject((if j.JObject? then j.members else map[])[key := value])
  }

  /** The object built when the keys in `done` have been assigned. */
  ghost function Built(entries: map<string, Variant>, done: set<string>): Json
    requires done <= entries.Keys
  {
    if done == {} then JNull else JObject(map k | k in done :: ToJson(entries[k]))
  }

  lemma BuiltOneMore(entries: map<string, Variant>, done: set<string>, k: string)
    requires done <= entries.Keys && k in entries
    ensures Assign(Built(entries, done), k, ToJson(entries[k])) == Built(entries, done + {k})
  {
    assert k in done + {k};
    var after := Assign(Built(entries, done), k, ToJson(entries[k]));
    assert after.members == map x | x in done + {k} :: ToJson(entries[x]);
  }

  lemma BuiltAll(entries: map<string, Variant>)
    ensures Built(entries, entries.Keys) == ToJson(VMap(entries))
  {
    assert entries.Keys == {} <==> entries == map[];
    assert (map k | k in entries.Keys :: ToJson(entries[k])) == map k | k in entries :: ToJson(entries[k]);
  }

  /** Both a map and a list are written member by member. */
  method VariantToJson(value: Variant) returns (j: Json)
    ensures j == ToJson(value) && WrittenAs(value, j)
    ensures value.VString? ==> j == JString(value.s)
    ensures value.VInt? ==> j == JInteger(value.i)
    ensures value.VDouble? ==> j == JFloat(value.d)
    ensures value.VBool? ==> j == JBoolean(value.b)
    ensures j == JNull <==> value == VMap(map[]) || value.VInvalid? || value.VOther?
    decreases value, 1
  {
    match value
    case VMap(entries) => j := VariantMapToJson(entries);
    case VList(items) => j := ItemsToJson(items);
    case VString(s) => j := JString(s);
    case VInt(i) => j := JInteger(i);
    case VDouble(d) => j := JFloat(d);
    case VBool(b) => j := JBoolean(b);
    case _ => j := JNull;
  }

  /** The loop over a list. */
  method ItemsToJson(items: seq<Variant>) returns (j: Json)
    ensures j == ToJson(VList(items)) && WrittenAs(VList(items), j)
    decreases VList(items), 0
  {
    var elements := [];
    for i := 0 to |items|
      invariant |elements| == i && forall n | 0 <= n < i :: elements[n] == ToJson(items[n])
    {
      var element := VariantToJson(items[i]);
      elements := elements + [element];
    }
    j := JArray(elements);
    WrittenExactly(VList(items), j);
  }

  /** The loop over a map, which the C++ code holds twice. The entries are visited in some
      order; the result does not depend on it. */
  method VariantMapToJson(entries: map<string, Variant>) returns (j: Json)
    ensures j == ToJson(VMap(entries)) && WrittenAs(VMap(entries), j)
    ensures if entries == map[] then j == JNull else j.JObject? && j.members.Keys == entries.Keys
    decreases VMap(entries), 0
  {
    j := JNull;
    var todo := entries.Keys;
    while todo != {}
      invariant todo <= entries.Keys && j == Built(entries, entries.Keys - todo)
      decreases todo
    {
      var k :| k in todo;
      var member := VariantToJson(entries[k]);
      BuiltOneMore(entries, entries.Keys - todo, k);
      assert entries.Keys - todo + {k} == entries.Keys - (todo - {k});
      j := Assign(j, k, member);
      todo := todo - {k};
    }
    assert entries.Keys - {} == entries.Keys;
    BuiltAll(entries);
    WrittenExactly(VMap(entries), j);
  }

  /** Agrees with `VariantToJson` on the list of wrapped maps. */
  method VariantListToJson(list: seq<map<string, Variant>>) returns (j: Json)
    ensures j == ToJson(VList(seq(|list|, i requires 0 <= i < |list| => VMap(list[i]))))
    ensures j.JArray? && |j.elements| == |list|
    ensures forall i | 0 <= i < |list| :: WrittenAs(VMap(list[i]), j.elements[i])
  {
    var elements := [];
    for i := 0 to |list|
      invariant |elements| == i
      invariant forall n | 0 <= n < i :: elements[n] == ToJson(VMap(list[n])) && WrittenAs(VMap(list[n]), elements[n])
    {
      var element := VariantMapToJson(list[i]);
      elements := elements + [element];
    }
    j := JArray(elements);
  }

  /** Reading members of anything but an object raises, unless there is nothing to read. */
  datatype MapResult = Converted(entries: map<string, Variant>) | NotAnObject

  function ToVariantMap(j: Json): MapResult {
    match j
    case JObject(members) => Converted(map k | k in members :: ToVariant(members[k]))
    case JNull => Converted(map[])
    case JArray(elements) => if elements == [] then Converted(map[]) else NotAnObject
    case _ => NotAnObject
  }

  method JsonToVariant(j: Json) returns (v: Variant)
    ensures v == ToVariant(j) && ReadAs(j, v)
    ensures v.VInvalid? <==> j.JNull? || j.JBinary? || j.JDiscarded?
    ensures j.JObject? ==> v.VMap? && v.entries.Keys == j.members.Keys
    ensures j.JInteger? ==> v.VInt? && (v.i - j.n) % 0x1_0000_0000 == 0
    ensures j.JString? ==> v == VString(j.s)
    ensures j.JFloat? ==> v == VDouble(j.d)
    ensures j.JBoolean? ==> v == VBool(j.b)
    decreases j, 1
  {
    ReadExactly(j, ToVariant(j));
    match j
    case JObject(_) =>
      var r := JsonToVariantMap(j);
      v := VMap(r.entries);
    case JArray(elements) =>
      var items := JsonToVariantList(j);
      v := VList(items);
    case JBoolean(b) => v := VBool(b);
    case JInteger(n) => v := VInt(ToInt32(n));
    case JFloat(d) => v := VDouble(d);
    case JString(s) => v := VString(s);
    case _ => v := VInvalid;
  }

  method JsonToVariantMap(j: Json) returns (r: MapResult)
    ensures r == ToVariantMap(j)
    ensures r.NotAnObject? <==> !j.JObject? && !j.JNull? && j != JArray([])
    ensures j.JObject? ==> ReadAs(j, VMap(r.entries))
    ensures j.JNull? || j == JArray([]) ==> r == Converted(map[])
    decreases j, 0
  {
    ReadExactly(j, ToVariant(j));
    if !j.JObject? {
      return if j.JNull? || (j.JArray? && j.elements == []) then Converted(map[]) else NotAnObject;
    }
    var members := j.members;
    var entries: map<string, Variant> := map[];
    var todo := members.Keys;
    while todo != {}
      invariant todo <= members.Keys
      invariant entries == map k | k in members.Keys - todo :: ToVariant(members[k])
      decreases todo
    {
      var k :| k in todo;
      var value := JsonToVariant(members[k]);
      entries := entries[k := value];
      todo := todo - {k};
    }
    r := Converted(entries);
  }

  // ---------- the order in which an object is visited ----------

  /** The order of a `std::map` on strings: a proper prefix first, then the first difference. */
  predicate Less(x: string, y: string)
    decreases |x|
  {
    y != "" && (x == "" || x[0] < y[0] || (x[0] == y[0] && Less(x[1..], y[1..])))
  }

  lemma {:induction false} LessIsTotal(x: string, y: string)
    ensures x == y || Less(x, y) || Less(y, x)
    ensures !(Less(x, y) && Less(y, x))
    decreases |x|
  {
    if x == "" || y == "" {
    } else {
      LessIsTotal(x[1..], y[1..]);
      assert x == [x[0]] + x[1..] && y == [y[0]] + y[1..];
    }
  }

  lemma {:induction false} LessIsTransitive(x: string, y: string, z: string)
    requires Less(x, y) && Less(y, z)
    ensures Less(x, z)
    decreases |x|
  {
    if x == "" {
    } else if x[0] == y[0] == z[0] {
      LessIsTransitive(x[1..], y[1..], z[1..]);
    }
  }

  /** The strings agree before `i`, where the first one ends or has the smaller character. */
  ghost predicate DecidesAt(x: string, y: string, i: nat) {
    && i <= |x| && i < |y|
    && (forall n | 0 <= n < i :: x[n] == y[n])
    && (i < |x| ==> x[i] < y[i])
  }

  lemma {:induction false} LessExactly(x: string, y: string)
    ensures Less(x, y) <==> exists i: nat :: DecidesAt(x, y, i)
    decreases |x|
  {
    if x == "" || y == "" || x[0] != y[0] {
      assert Less(x, y) ==> DecidesAt(x, y, 0);
    } else {
      LessExactly(x[1..], y[1..]);
      if i: nat :| DecidesAt(x, y, i) {
        assert DecidesAt(x[1..], y[1..], i - 1);
      }
      if i: nat :| DecidesAt(x[1..], y[1..], i) {
        assert DecidesAt(x, y, i + 1);
      }
    }
  }

  predicate IsLeast(k: string, keys: set<string>) {
    k in keys && forall x | x in keys :: x == k || Less(k, x)
  }

  lemma {:induction false} LeastExists(keys: set<string>)
    requires keys != {}
    ensures exists k :: IsLeast(k, keys)
    decreases keys
  {
    var x :| x in keys;
    if keys == {x} {
      assert IsLeast(x, keys);
    } else {
      LeastExists(keys - {x});
      var k :| IsLeast(k, keys - {x});
      LessIsTotal(k, x);
      if Less(x, k) {
        forall z | z in keys ensures z == x || Less(x, z) {
          if z != x && z != k {
            LessIsTransitive(x, k, z);
          }
        }
        assert IsLeast(x, keys);
      } else {
        assert IsLeast(k, keys);
      }
    }
  }

  lemma LeastIsUnique(k: string, k': string, keys: set<string>)
    requires IsLeast(k, keys) && IsLeast(k', keys)
    ensures k == k'
  {
    LessIsTotal(k, k');
  }

  /** The keys of an object in the order of an iteration. */
  ghost function InOrder(keys: set<string>): seq<string>
    decreases keys
  {
    if keys == {} then []
    else
      LeastExists(keys);
      var k :| IsLeast(k, keys);
      [k] + InOrder(keys - {k})
  }

  ghost predicate Ascending(s: seq<string>) {
    forall i, n | 0 <= i < n < |s| :: Less(s[i], s[n])
  }

  /** All keys, each once, in ascending order. */
  ghost predicate Lists(s: seq<string>, keys: set<string>) {
    Ascending(s) && forall k :: k in s <==> k in keys
  }

  lemma {:induction false} InOrderAscends(keys: set<string>)
    ensures Lists(InOrder(keys), keys)
    decreases keys
  {
    if keys == {} {
    } else {
      var k := InOrder(keys)[0];
      InOrderAscends(keys - {k});
      AscendsInFront(k, InOrder(keys - {k}), keys);
    }
  }

  lemma AscendsInFront(k: string, rest: seq<string>, keys: set<string>)
    requires IsLeast(k, keys) && Ascending(rest) && forall x :: x in rest <==> x in keys - {k}
    ensures Ascending([k] + rest)
    ensures forall x :: x in [k] + rest <==> x in keys
  {
    forall n | 0 <= n < |rest| ensures Less(k, rest[n]) {
      assert rest[n] in rest;
    }
  }

  ghost function Values(members: map<string, Json>, keys: seq<string>): seq<Json> {
    seq(|keys|, i requires 0 <= i < |keys| => if keys[i] in members then members[keys[i]] else JNull)
  }

  /** One step of the iteration. */
  lemma VisitLeast(members: map<string, Json>, visited: seq<string>, todo: set<string>, k: string)
    requires IsLeast(k, todo) && k in members
    ensures visited + InOrder(todo) == (visited + [k]) + InOrder(todo - {k})
    ensures Values(members, visited + [k]) == Values(members, visited) + [members[k]]
  {
    var first := InOrder(todo)[0];
    assert IsLeast(first, todo);
    LeastIsUnique(k, first, todo);
  }

  ghost predicate Converts(items: seq<Variant>, values: seq<Json>) {
    |items| == |values| && forall i | 0 <= i < |items| :: ReadAs(values[i], items[i])
  }

  /** Iterating over a JSON value visits an array's elements, an object's values by ascending
      key, nothing for null, and the value itself for a primitive. */
  method JsonToVariantList(j: Json) returns (items: seq<Variant>)
    ensures j.JArray? ==> VList(items) == ToVariant(j) && ReadAs(j, VList(items))
    ensures j.JObject? ==> exists keys :: Lists(keys, j.members.Keys) && Converts(items, Values(j.members, keys))
    ensures j.JNull? ==> items == []
    ensures !j.JArray? && !j.JObject? && !j.JNull? ==> |items| == 1 && ReadAs(j, items[0])
    decreases j, if j.JArray? then 0 else 2
  {
    items := [];
    ReadExactly(j, ToVariant(j));
    match j
    case JArray(elements) =>
      for i := 0 to |elements|
        invariant |items| == i
        invariant forall n | 0 <= n < i :: items[n] == ToVariant(elements[n]) && ReadAs(elements[n], items[n])
      {
        var item := JsonToVariant(elements[i]);
        items := items + [item];
      }
    case JObject(members) =>
      var todo := members.Keys;
      ghost var keys: seq<string> := [];
      while todo != {}
        invariant todo <= members.Keys
        invariant InOrder(members.Keys) == keys + InOrder(todo) && Converts(items, Values(members, keys))
        decreases todo
      {
        LeastExists(todo);
        var k :| IsLeast(k, todo);
        var item := JsonToVariant(members[k]);
        VisitLeast(members, keys, todo, k);
        items, keys, todo := items + [item], keys + [k], todo - {k};
      }
      InOrderAscends(members.Keys);
      assert keys == InOrder(members.Keys);
    case JNull =>
    case _ =>
      var item := JsonToVariant(j);
      items := [item];
  }

  /** The round trip of a top-level map keeps its keys, also when it is empty, and normalises
      its values. */
  lemma MapRoundTrip(entries: map<string, Variant>)
    ensures ToVariantMap(ToJson(VMap(entries))) == Converted(map k | k in entries :: Normal(entries[k]))
    ensures ToVariantMap(ToJson(VMap(entries))).entries.Keys == entries.Keys
  {
    forall k | k in entries ensures ToVariant(ToJson(entries[k])) == Normal(entries[k]) {
      VariantRoundTrip(entries[k]);
    }
  }
}
