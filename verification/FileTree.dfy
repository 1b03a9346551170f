/** The file tree of FileTreeDataController.cpp: five rows a level, each with a key made of its
    parent's key and its own index. */
module FileTree {

  /** The constant entries of every row. */
  datatype Properties = Properties(height: int, minimumHeight: int, maximumHeight: int, expanded: bool)

  /** The "children" entry is only set above the last level. */
  datatype Children = NoChildren | Children(rows: seq<Row>)

  datatype Row = Row(properties: Properties, key: string, children: Children)

  const ROW_PROPERTIES := Properties(36, 36, 36, true)

  function Digit(i: nat): char
    requires i < 5
  {
    "01234"[i]
  }

  function ChildKey(path: string, i: nat): string
    requires i < 5
  {
    path + "-" + [Digit(i)]
  }

  // ---------- the tree as a value ----------

  /** How many levels lie below a row: a level of zero or less gives leaves. */
  function Depth(level: int): nat {
    if level > 0 then level else 0
  }

  function Node(key: string, depth: nat): Row
    decreases depth, 0
  {
    Row(ROW_PROPERTIES, key, if depth > 0 then Children(Forest(key, depth - 1)) else NoChildren)
  }

  function Forest(path: string, depth: nat): (rows: seq<Row>)
    decreases depth, 1
  {
    seq(5, i requires 0 <= i < 5 => Node(ChildKey(path, i), depth))
  }

  // ---------- what a tree of a level is ----------

  /** The parent's key, a dash and the decimal digit of the index. */
  predicate IsChildKey(key: string, path: string, i: nat) {
    && |key| == |path| + 2
    && key[..|path|] == path
    && key[|path|] == '-'
    && key[|path| + 1] as int == '0' as int + i
  }

  /** Five rows with the constant entries and their keys; they have children, again a tree,
      exactly when the level is positive. */
  predicate IsTree(rows: seq<Row>, path: string, level: int)
    decreases rows
  {
    && |rows| == 5
    && forall i | 0 <= i < 5 ::
         && rows[i].properties == Properties(36, 36, 36, true)
         && IsChildKey(rows[i].key, path, i)
         && (rows[i].children.Children? <==> level > 0)
         && (rows[i].children.Children? ==> IsTree(rows[i].children.rows, rows[i].key, level - 1))
  }

  lemma ChildKeyExactly(key: string, path: string, i: nat)
    requires i < 5
    ensures IsChildKey(key, path, i) <==> key == ChildKey(path, i)
  {
    if IsChildKey(key, path, i) {
      assert key == key[..|path|] + [key[|path|], key[|path| + 1]];
      assert Digit(i) as int == '0' as int + i;
    }
  }

  /** There is exactly one such tree: the forest of the level's depth. */
  lemma {:induction false} TreeIsForest(rows: seq<Row>, path: string, level: int)
    ensures IsTree(rows, path, level) <==> rows == Forest(path, Depth(level))
    decreases Depth(level)
  {
    var forest := Forest(path, Depth(level));
    forall i | 0 <= i < 5 && |rows| == 5
      ensures rows[i] == forest[i] <==>
                && rows[i].properties == Properties(36, 36, 36, true)
                && IsChildKey(rows[i].key, path, i)
                && (rows[i].children.Children? <==> level > 0)
                && (rows[i].children.Children? ==> IsTree(rows[i].children.rows, rows[i].key, level - 1))
    {
      ChildKeyExactly(rows[i].key, path, i);
      if rows[i].children.Children? && level > 0 {
        TreeIsForest(rows[i].children.rows, rows[i].key, level - 1);
      }
    }
    assert rows == forest <==> |rows| == 5 && forall i | 0 <= i < 5 :: rows[i] == forest[i];
  }

  // ---------- the object ----------

  class FileTreeDataController {
    var data: seq<Row>

    constructor ()
      ensures data == []
    {
      data := [];
    }

    method GenerateRowData() returns (properties: Properties)
      ensures properties == ROW_PROPERTIES
    {
      properties := Properties(36, 36, 36, true);
    }

    method Dig(path: string, level: int) returns (list: seq<Row>)
      ensures list == Forest(path, Depth(level)) && IsTree(list, path, level)
      ensures level >= 0 ==> 4 * |Keys(list)| == Pow5(level + 2) - 5
      ensures level <= 0 ==> |list| == 5 && forall i | 0 <= i < 5 :: list[i].children == NoChildren
      ensures forall a: Address | a != [] && RowAt(list, a) != [] ::
                RowAt(list, a)[0].children.Children? <==> |a| <= level
      decreases Depth(level), 1
    {
      list := [];
      for i := 0 to 5
        invariant |list| == i
        invariant forall n | 0 <= n < i :: list[n] == Node(ChildKey(path, n), Depth(level))
      {
        var key := path + "-" + [Digit(i)];
        var row := DigRow(key, level);
        list := list + [row];
      }
      assert list == Forest(path, Depth(level));
      TreeOfLevel(list, path, level);
    }

    /** The row for one key and everything below it. */
    method DigRow(key: string, level: int) returns (row: Row)
      ensures row == Node(key, Depth(level))
      decreases Depth(level), 0
    {
      var properties := GenerateRowData();
      row := Row(properties, key, NoChildren);
      if level > 0 {
        var children := Dig(key, level - 1);
        row := row.(children := Children(children));
      }
    }

    method LoadData(path: string, level: int)
      modifies this
      ensures data == Forest(path, Depth(level)) && IsTree(data, path, level)
      ensures level >= 0 ==> 4 * |Keys(data)| == Pow5(level + 2) - 5
      ensures level <= 0 ==> |data| == 5 && forall i | 0 <= i < 5 :: data[i].children == NoChildren
      ensures forall a: Address | a != [] && RowAt(data, a) != [] ::
                RowAt(data, a)[0].children.Children? <==> |a| <= level
    {
      data := [];
      data := Dig(path, level);
    }
  }

  // ---------- addresses ----------

  /** A row's address: the child indices that lead to it. */
  type Address = seq<nat>

  predicate IsAddress(a: Address, depth: nat) {
    0 < |a| <= depth + 1 && forall i | 0 <= i < |a| :: a[i] < 5
  }

  predicate Indices(a: Address) {
    forall i | 0 <= i < |a| :: a[i] < 5
  }

  /** The key of the row at an address. */
  function KeyOf(path: string, a: Address): string
    requires Indices(a)
    decreases |a|
  {
    if a == [] then path else KeyOf(ChildKey(path, a[0]), a[1..])
  }

  function Below(row: Row): seq<Row> {
    if row.children.Children? then row.children.rows else []
  }

  /** The row at an address, if there is one. */
  function RowAt(rows: seq<Row>, a: Address): (r: seq<Row>)
    requires a != []
    ensures |r| <= 1
    decreases |a|
  {
    if a[0] >= |rows| then []
    else if |a| == 1 then [rows[a[0]]]
    else RowAt(Below(rows[a[0]]), a[1..])
  }

  /** The rows of a forest are exactly those at its addresses, each carries the key of its
      address, and it has children exactly when it is not on the last level. */
  lemma {:induction false} RowsAreAddressed(path: string, depth: nat, a: Address)
    requires a != []
    ensures RowAt(Forest(path, depth), a)
         == if IsAddress(a, depth) then [Node(KeyOf(path, a), depth + 1 - |a|)] else []
    decreases |a|
  {
    var rows := Forest(path, depth);
    if a[0] < 5 {
      if |a| == 1 {
        assert a[1..] == [];
      } else if depth > 0 {
        RowsAreAddressed(ChildKey(path, a[0]), depth - 1, a[1..]);
        assert IsAddress(a, depth) <==> IsAddress(a[1..], depth - 1) by {
          assert forall i | 1 <= i < |a| :: a[i] == a[1..][i - 1];
        }
      } else {
        NoRows(a[1..]);
      }
    } else {
      assert !Indices(a);
    }
  }

  lemma NoRows(a: Address)
    requires a != []
    ensures RowAt([], a) == []
  {
  }

  // ---------- keys ----------

  /** What an address adds to the key of the root. */
  function Suffix(a: Address): string
    requires Indices(a)
    decreases |a|
  {
    if a == [] then "" else "-" + [Digit(a[0])] + Suffix(a[1..])
  }

  lemma {:induction false} KeyIsSuffix(path: string, a: Address)
    requires Indices(a)
    ensures KeyOf(path, a) == path + Suffix(a)
    ensures |Suffix(a)| == 2 * |a|
    decreases |a|
  {
    if a == [] {
      assert path + "" == path;
    } else {
      KeyIsSuffix(ChildKey(path, a[0]), a[1..]);
      assert path + "-" + [Digit(a[0])] + Suffix(a[1..]) == path + ("-" + [Digit(a[0])] + Suffix(a[1..]));
    }
  }

  /** Reads the indices off what follows the root in a key. */
  function Decode(suffix: string): Address
    decreases |suffix|
  {
    if |suffix| < 2 then [] else [Value(suffix[1])] + Decode(suffix[2..])
  }

  function Value(c: char): nat {
    if '0' <= c <= '4' then (c - '0') as nat else 0
  }

  lemma {:induction false} DecodeInverts(a: Address)
    requires Indices(a)
    ensures Decode(Suffix(a)) == a
    decreases |a|
  {
    if a == [] {
    } else {
      DecodeInverts(a[1..]);
      assert Suffix(a)[2..] == Suffix(a[1..]);
      assert Value(Digit(a[0])) == a[0];
    }
  }

  /** A key decodes to its address, whatever the root string contains. */
  lemma KeyDecodes(path: string, a: Address)
    requires Indices(a)
    ensures |path| <= |KeyOf(path, a)| && Decode(KeyOf(path, a)[|path|..]) == a
  {
    KeyIsSuffix(path, a);
    DecodeInverts(a);
    assert (path + Suffix(a))[|path|..] == Suffix(a);
  }

  /** Keys identify rows. */
  lemma KeysIdentify(path: string, a: Address, b: Address)
    requires Indices(a) && Indices(b)
    ensures KeyOf(path, a) == KeyOf(path, b) <==> a == b
  {
    KeyDecodes(path, a);
    KeyDecodes(path, b);
  }

  ghost predicate StartsWith(s: string, t: string) {
    |t| <= |s| && s[..|t|] == t
  }

  lemma {:induction false} SuffixConcat(a: Address, b: Address)
    requires Indices(a) && Indices(b)
    ensures Indices(a + b) && Suffix(a + b) == Suffix(a) + Suffix(b)
    decreases |a|
  {
    if a == [] {
      assert a + b == b;
    } else {
      var head := "-" + [Digit(a[0])];
      SuffixConcat(a[1..], b);
      assert (a + b)[1..] == a[1..] + b && (a + b)[0] == a[0];
      assert Suffix(a + b) == head + Suffix(a[1..] + b);
      assert head + (Suffix(a[1..]) + Suffix(b)) == (head + Suffix(a[1..])) + Suffix(b);
    }
  }

  lemma {:induction false} DecodeConcat(s: string, t: string)
    requires |s| % 2 == 0
    ensures Decode(s + t) == Decode(s) + Decode(t)
    decreases |s|
  {
    if s == "" {
      assert s + t == t;
    } else {
      assert (s + t)[2..] == s[2..] + t;
      DecodeConcat(s[2..], t);
    }
  }

  /** One row's key followed by "-" starts another row's key exactly when the first row is a
      proper ancestor of the second. */
  lemma AncestorByKey(path: string, a: Address, b: Address)
    requires Indices(a) && Indices(b)
    ensures StartsWith(KeyOf(path, b), KeyOf(path, a) + "-") <==> a < b
  {
    KeyIsSuffix(path, a);
    KeyIsSuffix(path, b);
    CommonRoot(path, Suffix(a), Suffix(b));
    if a < b {
      DescendantStarts(a, b[|a|..]);
      assert a + b[|a|..] == b;
    }
    if StartsWith(Suffix(b), Suffix(a) + "-") {
      StartsDescendant(a, b);
    }
  }

  lemma CommonRoot(path: string, x: string, y: string)
    ensures StartsWith(path + y, (path + x) + "-") <==> StartsWith(y, x + "-")
  {
    assert (path + x) + "-" == path + (x + "-");
    var z := x + "-";
    if |z| <= |y| {
      assert (path + y)[..|path + z|] == path + y[..|z|];
      assert path + y[..|z|] == path + z ==> y[..|z|] == z by {
        assert (path + y[..|z|])[|path|..] == y[..|z|] && (path + z)[|path|..] == z;
      }
    }
  }

  lemma DescendantStarts(a: Address, rest: Address)
    requires Indices(a) && Indices(rest) && rest != []
    ensures Indices(a + rest) && StartsWith(Suffix(a + rest), Suffix(a) + "-")
  {
    SuffixConcat(a, rest);
    SuffixHead(rest);
    PrefixOfConcat(Suffix(a), "-", Suffix(rest));
  }

  lemma SuffixHead(a: Address)
    requires Indices(a) && a != []
    ensures StartsWith(Suffix(a), "-")
  {
  }

  lemma PrefixOfConcat(x: string, y: string, z: string)
    requires StartsWith(z, y)
    ensures StartsWith(x + z, x + y)
  {
    assert (x + z)[..|x + y|] == x + z[..|y|];
  }

  lemma StartsDescendant(a: Address, b: Address)
    requires Indices(a) && Indices(b) && StartsWith(Suffix(b), Suffix(a) + "-")
    ensures a < b
  {
    var x, rest := Suffix(a), Suffix(b)[|Suffix(a)| + 1..];
    assert Suffix(b) == (x + "-") + rest;
    assert (x + "-") + rest == x + ("-" + rest);
    KeyIsSuffix("", a);
    KeyIsSuffix("", b);
    DecodeConcat(x, "-" + rest);
    DecodeInverts(a);
    DecodeInverts(b);
    assert Decode("-" + rest) != [];
  }

  // ---------- all keys of a tree ----------

  /** The keys of all rows, parents before children. */
  function Keys(rows: seq<Row>): seq<string> {
    if rows == [] then []
    else
      [rows[0].key]
      + (if rows[0].children.Children? then Keys(rows[0].children.rows) else [])
      + Keys(rows[1..])
  }

  ghost predicate Distinct(keys: seq<string>) {
    forall i, j | 0 <= i < j < |keys| :: keys[i] != keys[j]
  }

  /** The key belongs to one of the subtrees from the `i`th on. */
  ghost predicate InSubtrees(key: string, path: string, i: nat) {
    exists n :: i <= n < 5 && StartsWith(key, ChildKey(path, n))
  }

  lemma KeysUnfold(path: string, depth: nat, i: nat)
    requires i < 5
    ensures Keys(Forest(path, depth)[i..])
         == [ChildKey(path, i)] + (if depth > 0 then Keys(Forest(ChildKey(path, i), depth - 1)) else [])
            + Keys(Forest(path, depth)[i + 1..])
  {
    var rows := Forest(path, depth);
    assert rows[i..][1..] == rows[i + 1..];
  }

  /** All keys of a tree differ from each other. */
  lemma {:induction false} KeysAreDistinct(path: string, depth: nat)
    ensures Distinct(Keys(Forest(path, depth)))
    ensures forall k | k in Keys(Forest(path, depth)) :: InSubtrees(k, path, 0)
    decreases depth, 6
  {
    KeysFromAreDistinct(path, depth, 0);
    assert Forest(path, depth)[0..] == Forest(path, depth);
  }

  lemma {:induction false} KeysFromAreDistinct(path: string, depth: nat, i: nat)
    requires i <= 5
    ensures Distinct(Keys(Forest(path, depth)[i..]))
    ensures forall k | k in Keys(Forest(path, depth)[i..]) :: InSubtrees(k, path, i)
    decreases depth, 5 - i
  {
    if i == 5 {
    } else {
      var key := ChildKey(path, i);
      var inner := if depth > 0 then Keys(Forest(key, depth - 1)) else [];
      KeysUnfold(path, depth, i);
      KeysFromAreDistinct(path, depth, i + 1);
      if depth > 0 {
        KeysAreDistinct(key, depth - 1);
      }
      JoinSubtrees(path, i, inner, Keys(Forest(path, depth)[i + 1..]));
    }
  }

  lemma JoinSubtrees(path: string, i: nat, inner: seq<string>, later: seq<string>)
    requires i < 5 && Distinct(inner) && Distinct(later)
    requires forall k | k in inner :: InSubtrees(k, ChildKey(path, i), 0)
    requires forall k | k in later :: InSubtrees(k, path, i + 1)
    ensures Distinct([ChildKey(path, i)] + inner + later)
    ensures forall k | k in [ChildKey(path, i)] + inner + later :: InSubtrees(k, path, i)
  {
    var key := ChildKey(path, i);
    forall k | k in inner ensures |key| < |k| && StartsWith(k, key) {
      InnerKey(key, k);
    }
    forall k | k in later ensures !StartsWith(k, key) && InSubtrees(k, path, i) {
      LaterKey(path, i, k);
    }
    DistinctConcat(key, inner, later);
    assert StartsWith(key, key);
  }

  lemma InnerKey(key: string, k: string)
    requires InSubtrees(k, key, 0)
    ensures |key| < |k| && StartsWith(k, key)
  {
    var n :| 0 <= n < 5 && StartsWith(k, ChildKey(key, n));
    assert k[..|key|] == ChildKey(key, n)[..|key|];
  }

  lemma LaterKey(path: string, i: nat, k: string)
    requires i < 5 && InSubtrees(k, path, i + 1)
    ensures !StartsWith(k, ChildKey(path, i)) && InSubtrees(k, path, i)
  {
    var n :| i + 1 <= n < 5 && StartsWith(k, ChildKey(path, n));
    assert k[..|path| + 2][|path| + 1] == Digit(n);
    assert Digit(n) != Digit(i) && ChildKey(path, i)[|path| + 1] == Digit(i);
  }

  lemma DistinctConcat(key: string, inner: seq<string>, later: seq<string>)
    requires Distinct(inner) && Distinct(later)
    requires forall k | k in inner :: |key| < |k| && StartsWith(k, key)
    requires forall k | k in later :: !StartsWith(k, key)
    ensures Distinct([key] + inner + later)
  {
    var all := [key] + inner + later;
    forall i, j | 0 <= i < j < |all| ensures all[i] != all[j] {
      var ni := |inner|;
      if j <= ni {
        assert all[j] == inner[j - 1];
        assert i > 0 ==> all[i] == inner[i - 1];
      } else {
        assert all[j] == later[j - 1 - ni];
        if i > ni {
          assert all[i] == later[i - 1 - ni];
        } else {
          assert i > 0 ==> all[i] == inner[i - 1];
          assert StartsWith(key, key);
        }
      }
    }
  }

  /** The keys that occur in the tree are exactly those of its addresses. */
  lemma KeysAreAddresses(path: string, depth: nat, k: string)
    ensures k in Keys(Forest(path, depth)) <==> exists a :: IsAddress(a, depth) && k == KeyOf(path, a)
  {
    assert Forest(path, depth)[0..] == Forest(path, depth);
    if k in Keys(Forest(path, depth)) {
      var a := AddressOfKey(path, depth, 0, k);
    }
    if a :| IsAddress(a, depth) && k == KeyOf(path, a) {
      KeyOfAddress(path, depth, 0, a);
    }
  }

  lemma {:induction false} AddressOfKey(path: string, depth: nat, i: nat, k: string) returns (a: Address)
    requires i <= 5 && k in Keys(Forest(path, depth)[i..])
    ensures IsAddress(a, depth) && k == KeyOf(path, a)
    decreases depth, 5 - i
  {
    var key := ChildKey(path, i);
    KeysUnfold(path, depth, i);
    if k == key {
      a := [i];
      assert a[1..] == [];
    } else if depth > 0 && k in Keys(Forest(key, depth - 1)) {
      assert Forest(key, depth - 1)[0..] == Forest(key, depth - 1);
      var rest := AddressOfKey(key, depth - 1, 0, k);
      a := [i] + rest;
      assert a[1..] == rest;
    } else {
      a := AddressOfKey(path, depth, i + 1, k);
    }
  }

  lemma {:induction false} KeyOfAddress(path: string, depth: nat, i: nat, a: Address)
    requires IsAddress(a, depth) && i <= a[0]
    ensures KeyOf(path, a) in Keys(Forest(path, depth)[i..])
    decreases depth, 5 - i
  {
    KeysUnfold(path, depth, i);
    if i < a[0] {
      KeyOfAddress(path, depth, i + 1, a);
    } else if |a| == 1 {
      assert a[1..] == [];
    } else {
      var key, rest := ChildKey(path, i), a[1..];
      assert forall n | 0 <= n < |rest| :: rest[n] == a[n + 1];
      KeyOfAddress(key, depth - 1, 0, rest);
      assert Forest(key, depth - 1)[0..] == Forest(key, depth - 1);
    }
  }

  // ---------- sizes ----------

  ghost function Pow5(n: nat): nat {
    if n == 0 then 1 else 5 * Pow5(n - 1)
  }

  /** (5^(depth + 2) - 5) / 4 */
  lemma {:induction false} ForestSize(path: string, depth: nat)
    ensures 4 * |Keys(Forest(path, depth))| == Pow5(depth + 2) - 5
    decreases depth, 6
  {
    ForestSizeFrom(path, depth, 0);
    assert Forest(path, depth)[0..] == Forest(path, depth);
    assert Pow5(depth + 2) == 5 * Pow5(depth + 1);
  }

  lemma {:induction false} ForestSizeFrom(path: string, depth: nat, i: nat)
    requires i <= 5
    ensures 4 * |Keys(Forest(path, depth)[i..])| == (5 - i) * (Pow5(depth + 1) - 1)
    decreases depth, 5 - i
  {
    if i == 5 {
    } else {
      KeysUnfold(path, depth, i);
      ForestSizeFrom(path, depth, i + 1);
      if depth > 0 {
        ForestSize(ChildKey(path, i), depth - 1);
      } else {
        assert Pow5(1) == 5 * Pow5(0);
      }
      OneMoreTree(i, Pow5(depth + 1) - 1);
    }
  }

  /** All rows `k` levels below the given ones. */
  function Level(rows: seq<Row>, k: nat): seq<Row>
    decreases k, |rows|
  {
    if k == 0 then rows
    else if rows == [] then []
    else Level(Below(rows[0]), k - 1) + Level(rows[1..], k)
  }

  /** There are 5^(k + 1) rows at each depth `k` of the tree and none further down. */
  lemma {:induction false} ForestLevelSize(path: string, depth: nat, k: nat)
    ensures |Level(Forest(path, depth), k)| == if k <= depth then Pow5(k + 1) else 0
    decreases k, 6
  {
    assert Forest(path, depth)[0..] == Forest(path, depth);
    if k == 0 {
      assert Pow5(1) == 5 * Pow5(0);
    } else {
      ForestLevelFrom(path, depth, k, 0);
    }
  }

  lemma {:induction false} ForestLevelFrom(path: string, depth: nat, k: nat, i: nat)
    requires i <= 5 && k > 0
    ensures |Level(Forest(path, depth)[i..], k)| == (5 - i) * if k <= depth then Pow5(k) else 0
    decreases k, 5 - i
  {
    if i == 5 {
      EmptyLevel(k);
    } else {
      var rows := Forest(path, depth)[i..];
      var size := if k <= depth then Pow5(k) else 0;
      assert rows[1..] == Forest(path, depth)[i + 1..] && rows[0] == Node(ChildKey(path, i), depth);
      ForestLevelFrom(path, depth, k, i + 1);
      assert |Level(Below(rows[0]), k - 1)| == size by {
        if depth > 0 {
          ForestLevelSize(ChildKey(path, i), depth - 1, k - 1);
        } else {
          EmptyLevel(k - 1);
        }
      }
      OneMoreTree(i, size);
    }
  }

  lemma OneMoreTree(i: nat, size: nat)
    requires i < 5
    ensures (5 - i) * size == size + (5 - (i + 1)) * size
  {
  }

  lemma EmptyLevel(k: nat)
    ensures Level([], k) == []
  {
  }

  // ---------- trees by their level ----------

  /** A tree of a level of zero or more has (5^(level + 2) - 5) / 4 rows; below, it has five. */
  lemma TreeSize(rows: seq<Row>, path: string, level: int)
    requires IsTree(rows, path, level)
    ensures level >= 0 ==> 4 * |Keys(rows)| == Pow5(level + 2) - 5
    ensures level < 0 ==> |Keys(rows)| == 5
  {
    TreeIsForest(rows, path, level);
    ForestSize(path, Depth(level));
    assert Pow5(2) == 5 * Pow5(1) && Pow5(1) == 5 * Pow5(0);
  }

  /** It has 5^(k + 1) rows `k` levels down as long as `k` does not exceed the level. */
  lemma LevelSize(rows: seq<Row>, path: string, level: int, k: nat)
    requires IsTree(rows, path, level)
    ensures |Level(rows, k)| == if k == 0 || k <= level then Pow5(k + 1) else 0
  {
    TreeIsForest(rows, path, level);
    ForestLevelSize(path, Depth(level), k);
  }

  /** Its rows are those at the addresses of up to `level + 1` indices; the row at an address
      of `n` indices has children exactly when `n` does not exceed the level. */
  lemma RowsByLevel(rows: seq<Row>, path: string, level: int, a: Address)
    requires IsTree(rows, path, level) && a != []
    ensures RowAt(rows, a) != [] <==> Indices(a) && (|a| == 1 || |a| <= level + 1)
    ensures RowAt(rows, a) != [] ==>
              && RowAt(rows, a)[0].key == KeyOf(path, a)
              && (RowAt(rows, a)[0].children.Children? <==> |a| <= level)
  {
    TreeIsForest(rows, path, level);
    RowsAreAddressed(path, Depth(level), a);
  }

  /** What `Dig` and `LoadData` promise of the tree they build. */
  lemma TreeOfLevel(rows: seq<Row>, path: string, level: int)
    requires rows == Forest(path, Depth(level))
    ensures IsTree(rows, path, level)
    ensures level >= 0 ==> 4 * |Keys(rows)| == Pow5(level + 2) - 5
    ensures level <= 0 ==> |rows| == 5 && forall i | 0 <= i < 5 :: rows[i].children == NoChildren
    ensures forall a: Address | a != [] && RowAt(rows, a) != [] ::
              RowAt(rows, a)[0].children.Children? <==> |a| <= level
  {
    TreeIsForest(rows, path, level);
    TreeSize(rows, path, level);
    forall a: Address | a != [] && RowAt(rows, a) != []
      ensures RowAt(rows, a)[0].children.Children? <==> |a| <= level
    {
      RowsByLevel(rows, path, level, a);
    }
  }
}
