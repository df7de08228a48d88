/** Sorting: the result of a total order depends only on the multiset of elements. */
module Sorting {

  ghost predicate TotalPreorder<T(!new)>(le: (T, T) -> bool) {
    && (forall x, y :: le(x, y) || le(y, x))
    && (forall x, y, z :: le(x, y) && le(y, z) ==> le(x, z))
  }

  ghost predicate TotalOrder<T(!new)>(le: (T, T) -> bool) {
    TotalPreorder(le) && forall x, y :: le(x, y) && le(y, x) ==> x == y
  }

  ghost predicate Sorted<T>(le: (T, T) -> bool, s: seq<T>) {
    forall i, j :: 0 <= i < j < |s| ==> le(s[i], s[j])
  }

  function Insert<T>(le: (T, T) -> bool, x: T, s: seq<T>): seq<T> {
    if s == [] || le(x, s[0]) then [x] + s else [s[0]] + Insert(le, x, s[1..])
  }

  function Sort<T>(le: (T, T) -> bool, s: seq<T>): seq<T> {
    if s == [] then [] else Insert(le, s[0], Sort(le, s[1..]))
  }

  lemma {:induction false} InsertMultiset<T>(le: (T, T) -> bool, x: T, s: seq<T>)
    ensures multiset(Insert(le, x, s)) == multiset(s) + multiset{x}
  {
    if s != [] && !le(x, s[0]) {
      InsertMultiset(le, x, s[1..]);
      assert s == [s[0]] + s[1..];
    }
  }

  lemma {:induction false} InsertFacts<T(!new)>(le: (T, T) -> bool, x: T, s: seq<T>)
    requires TotalPreorder(le) && Sorted(le, s)
    ensures Sorted(le, Insert(le, x, s))
  {
    if s == [] {
    } else if le(x, s[0]) {
      forall i | 0 <= i < |s| ensures le(x, s[i]) {
        assert le(s[0], s[i]);
      }
    } else {
      var r := Insert(le, x, s[1..]);
      InsertFacts(le, x, s[1..]);
      InsertMultiset(le, x, s[1..]);
      forall i | 0 <= i < |r| ensures le(s[0], r[i]) {
        assert r[i] in multiset(r);
        assert r[i] == x || r[i] in s[1..];
      }
    }
  }

  lemma {:induction false} SortMultiset<T>(le: (T, T) -> bool, s: seq<T>)
    ensures multiset(Sort(le, s)) == multiset(s)
  {
    if s != [] {
      SortMultiset(le, s[1..]);
      InsertMultiset(le, s[0], Sort(le, s[1..]));
      assert s == [s[0]] + s[1..];
    }
  }

  lemma {:induction false} SortIsSorted<T(!new)>(le: (T, T) -> bool, s: seq<T>)
    requires TotalPreorder(le)
    ensures Sorted(le, Sort(le, s))
  {
    if s != [] {
      SortIsSorted(le, s[1..]);
      InsertFacts(le, s[0], Sort(le, s[1..]));
    }
  }

  lemma {:induction false} SortFixesSorted<T>(le: (T, T) -> bool, s: seq<T>)
    requires Sorted(le, s)
    ensures Sort(le, s) == s
  {
    if s != [] {
      SortFixesSorted(le, s[1..]);
      assert |s| > 1 ==> le(s[0], s[1]);
      assert s == [s[0]] + s[1..];
    }
  }

  lemma HeadIsLeast<T(!new)>(le: (T, T) -> bool, s: seq<T>, x: T)
    requires TotalOrder(le) && Sorted(le, s) && x in s
    ensures le(s[0], x) && Sorted(le, s[1..])
  {
    var i :| 0 <= i < |s| && s[i] == x;
    assert i == 0 || le(s[0], s[i]);
  }

  lemma TailMultiset<T>(s: seq<T>)
    requires s != []
    ensures multiset(s[1..]) == multiset(s) - multiset{s[0]}
  {
    assert s == [s[0]] + s[1..];
  }

  lemma {:induction false} SortedIsUnique<T(!new)>(le: (T, T) -> bool, s: seq<T>, t: seq<T>)
    requires TotalOrder(le) && Sorted(le, s) && Sorted(le, t) && multiset(s) == multiset(t)
    ensures s == t
  {
    assert |s| == |multiset(s)| == |t|;
    if s != [] {
      assert s[0] == t[0] by {
        assert s[0] in multiset(t) && t[0] in multiset(s);
        HeadIsLeast(le, t, s[0]);
        HeadIsLeast(le, s, t[0]);
      }
      hide TotalOrder;
      HeadIsLeast(le, s, s[0]);
      HeadIsLeast(le, t, t[0]);
      hide Sorted;
      TailMultiset(s);
      TailMultiset(t);
      SortedIsUnique(le, s[1..], t[1..]);
      assert s == [s[0]] + s[1..] && t == [t[0]] + t[1..];
    }
  }

  lemma SortDependsOnMultiset<T(!new)>(le: (T, T) -> bool, s: seq<T>, t: seq<T>)
    requires TotalOrder(le)
    ensures Sort(le, s) == Sort(le, t) <==> multiset(s) == multiset(t)
  {
    SortMultiset(le, s);
    SortMultiset(le, t);
    SortIsSorted(le, s);
    SortIsSorted(le, t);
    if multiset(s) == multiset(t) {
      SortedIsUnique(le, Sort(le, s), Sort(le, t));
    }
  }

  // ---------- Lexicographic order of strings by code point ----------

  predicate LexLe(a: string, b: string) {
    a == "" || (b != "" && (a[0] < b[0] || (a[0] == b[0] && LexLe(a[1..], b[1..]))))
  }

  lemma {:induction false} LexTotal(a: string, b: string)
    ensures LexLe(a, b) || LexLe(b, a)
    ensures LexLe(a, b) && LexLe(b, a) ==> a == b
  {
    if a != "" && b != "" {
      LexTotal(a[1..], b[1..]);
      assert a == [a[0]] + a[1..] && b == [b[0]] + b[1..];
    }
  }

  lemma {:induction false} LexTransitive(a: string, b: string, c: string)
    requires LexLe(a, b) && LexLe(b, c)
    ensures LexLe(a, c)
  {
    if a != "" && a[0] == b[0] == c[0] {
      LexTransitive(a[1..], b[1..], c[1..]);
    }
  }

  /** Code-point order: a prefix, or the smaller character at the first difference. */
  ghost predicate CodeLe(a: string, b: string) {
    a <= b || exists i: nat :: SmallerAt(a, b, i)
  }

  predicate SmallerAt(a: string, b: string, i: nat) {
    i < |a| && i < |b| && a[..i] == b[..i] && a[i] < b[i]
  }

  lemma {:induction false} LexExactly(a: string, b: string)
    ensures LexLe(a, b) <==> CodeLe(a, b)
  {
    if a != "" && b != "" && a[0] == b[0] {
      LexExactly(a[1..], b[1..]);
      LexTail(a, b);
    } else if a != "" && b != "" {
      assert a[..0] == b[..0];
      assert SmallerAt(a, b, 0) <==> a[0] < b[0];
      forall i: nat | i > 0 ensures !SmallerAt(a, b, i) {
        assert i < |a| && i < |b| ==> a[..i][0] == a[0] && b[..i][0] == b[0];
      }
    }
  }

  lemma LexTail(a: string, b: string)
    requires a != "" && b != "" && a[0] == b[0]
    ensures CodeLe(a, b) <==> CodeLe(a[1..], b[1..])
  {
    var x, y := a[1..], b[1..];
    PrefixTail(a, b);
    hide *;
    if i: nat :| SmallerAt(a, b, i) {
      SmallerTail(a, b, i);
    }
    if i: nat :| SmallerAt(x, y, i) {
      SmallerTail(a, b, i + 1);
    }
    CodeLeIs(a, b);
    CodeLeIs(x, y);
  }

  lemma CodeLeIs(a: string, b: string)
    ensures CodeLe(a, b) <==> a <= b || exists i: nat :: SmallerAt(a, b, i)
  {
  }

  lemma PrefixTail(a: string, b: string)
    requires a != "" && b != "" && a[0] == b[0]
    ensures a <= b <==> a[1..] <= b[1..]
  {
    assert a == [a[0]] + a[1..] && b == [b[0]] + b[1..];
  }

  lemma SmallerTail(a: string, b: string, i: nat)
    requires a != "" && b != "" && a[0] == b[0]
    ensures SmallerAt(a, b, i) <==> i > 0 && SmallerAt(a[1..], b[1..], i - 1)
  {
    if 0 < i < |a| && i < |b| {
      assert a[..i] == [a[0]] + a[1..][..i - 1] && b[..i] == [b[0]] + b[1..][..i - 1];
      assert a[..i][1..] == a[1..][..i - 1] && b[..i][1..] == b[1..][..i - 1];
    }
  }

  lemma LexIsTotalOrder()
    ensures TotalOrder(LexLe)
  {
    forall a, b ensures (LexLe(a, b) || LexLe(b, a)) && (LexLe(a, b) && LexLe(b, a) ==> a == b) { LexTotal(a, b); }
    forall a, b, c | LexLe(a, b) && LexLe(b, c) ensures LexLe(a, c) { LexTransitive(a, b, c); }
  }
}

/**
 Canonical OpenAPI documents: dropping null members and sorting the arrays whose order means nothing.
 Objects are maps, since the documents are written with sorted keys.
 `dump` stands for json.dumps with sorted keys; canonicity assumes only that it is injective.
 */
module OpenApiCanon {
  import opened Sorting

  datatype Json =
    | Null
    | Bool(b: bool)
    | Num(n: int)
    | Str(s: string)
    | Arr(items: seq<Json>)
    | Obj(members: map<string, Json>)

  type Dump = Json -> string

  ghost predicate Injective(dump: Dump) {
    forall x, y :: dump(x) == dump(y) ==> x == y
  }

  // ---------- drop_null_values ----------

  function DropNull(v: Json): Json {
    match v
    case Obj(m) => Obj(map k | k in m && m[k] != Null :: DropNull(m[k]))
    case Arr(a) => Arr(seq(|a|, i requires 0 <= i < |a| => DropNull(a[i])))
    case _ => v
  }

  // ---------- sort_openapi_arrays ----------

  /** `item.get(key, "")` of an object; anything else sorts as "". */
  function Field(v: Json, key: string): string {
    if v.Obj? && key in v.members && v.members[key].Str? then v.members[key].s else ""
  }

  /** The order of the sort key (in, name, dump). */
  predicate ParameterLe(dump: Dump, x: Json, y: Json) {
    if Field(x, "in") != Field(y, "in") then LexLe(Field(x, "in"), Field(y, "in"))
    else if Field(x, "name") != Field(y, "name") then LexLe(Field(x, "name"), Field(y, "name"))
    else LexLe(dump(x), dump(y))
  }

  function ParameterOrder(dump: Dump): (Json, Json) -> bool {
    (x, y) => ParameterLe(dump, x, y)
  }

  predicate StringSetKey(key: string) {
    key == "enum" || key == "required" || key == "schemes" || key == "tags"
  }

  predicate AllStrings(items: seq<Json>) {
    forall i :: 0 <= i < |items| ==> items[i].Str?
  }

  function Unwrap(items: seq<Json>): seq<string>
    requires AllStrings(items)
  {
    seq(|items|, i requires 0 <= i < |items| => items[i].s)
  }

  function Wrap(strings: seq<string>): seq<Json> {
    seq(|strings|, i requires 0 <= i < |strings| => Str(strings[i]))
  }

  /** What happens to the already sorted items of an array found under a key. */
  function Arrange(dump: Dump, items: seq<Json>, key: string): seq<Json> {
    if key == "parameters" then Sort(ParameterOrder(dump), items)
    else if StringSetKey(key) && AllStrings(items) then Wrap(Sort(LexLe, Unwrap(items)))
    else items
  }

  /** `key` is the member name under which the value was found, passed through nested arrays. */
  function SortArrays(dump: Dump, v: Json, key: string): Json {
    match v
    case Obj(m) => Obj(map k | k in m :: SortArrays(dump, m[k], k))
    case Arr(a) => Arr(Arrange(dump, seq(|a|, i requires 0 <= i < |a| => SortArrays(dump, a[i], key)), key))
    case _ => v
  }

  function Normalize(dump: Dump, v: Json, key: string): Json {
    SortArrays(dump, DropNull(v), key)
  }

  function NormalizeAll(dump: Dump, items: seq<Json>, key: string): seq<Json> {
    seq(|items|, i requires 0 <= i < |items| => Normalize(dump, items[i], key))
  }

  lemma NormalizeArr(dump: Dump, a: seq<Json>, key: string)
    ensures Normalize(dump, Arr(a), key) == Arr(Arrange(dump, NormalizeAll(dump, a, key), key))
  {
    var dropped := DropNull(Arr(a)).items;
    assert seq(|dropped|, i requires 0 <= i < |dropped| => SortArrays(dump, dropped[i], key))
        == NormalizeAll(dump, a, key);
  }

  function Live(m: map<string, Json>): set<string> {
    set k | k in m && m[k] != Null
  }

  lemma LiveKeys(m: map<string, Json>)
    ensures Live(m) <= m.Keys
  {
  }

  lemma NormalizeObj(dump: Dump, m: map<string, Json>, key: string)
    ensures Normalize(dump, Obj(m), key).Obj?
    ensures Normalize(dump, Obj(m), key).members.Keys == Live(m)
    ensures forall k :: k in Live(m) ==> Normalize(dump, Obj(m), key).members[k] == Normalize(dump, m[k], k)
  {
  }

  // ---------- Arranging ----------

  lemma ParameterOrderIsTotal(dump: Dump)
    ensures TotalPreorder(ParameterOrder(dump))
    ensures Injective(dump) ==> TotalOrder(ParameterOrder(dump))
  {
    var le := ParameterOrder(dump);
    LexIsTotalOrder();
    forall x, y ensures (le(x, y) || le(y, x)) && (Injective(dump) && le(x, y) && le(y, x) ==> x == y) {
      LexTotal(dump(x), dump(y));
    }
    forall x, y, z | le(x, y) && le(y, z) ensures le(x, z) {
      ParameterTransitive(dump, x, y, z);
    }
  }

  lemma ParameterTransitive(dump: Dump, x: Json, y: Json, z: Json)
    requires ParameterLe(dump, x, y) && ParameterLe(dump, y, z)
    ensures ParameterLe(dump, x, z)
  {
    LexIsTotalOrder();
  }

  lemma WrapUnwrap(items: seq<Json>)
    requires AllStrings(items)
    ensures Wrap(Unwrap(items)) == items
  {
  }

  lemma {:induction false} WrapMultiset(s: seq<string>, x: string)
    ensures multiset(Wrap(s))[Str(x)] == multiset(s)[x]
  {
    if s != [] {
      WrapMultiset(s[1..], x);
      assert s == [s[0]] + s[1..];
      assert Wrap(s) == [Str(s[0])] + Wrap(s[1..]);
    }
  }

  lemma WrapKeepsMultiset(s: seq<string>, t: seq<string>)
    requires multiset(s) == multiset(t)
    ensures multiset(Wrap(s)) == multiset(Wrap(t))
  {
    forall v ensures multiset(Wrap(s))[v] == multiset(Wrap(t))[v] {
      if v.Str? {
        WrapMultiset(s, v.s);
        WrapMultiset(t, v.s);
      }
    }
  }

  lemma UnwrapKeepsMultiset(s: seq<Json>, t: seq<Json>)
    requires AllStrings(s) && AllStrings(t) && multiset(s) == multiset(t)
    ensures multiset(Unwrap(s)) == multiset(Unwrap(t))
  {
    WrapUnwrap(s);
    WrapUnwrap(t);
    forall x ensures multiset(Unwrap(s))[x] == multiset(Unwrap(t))[x] {
      WrapMultiset(Unwrap(s), x);
      WrapMultiset(Unwrap(t), x);
    }
  }

  lemma ArrangeKeepsItems(dump: Dump, items: seq<Json>, key: string)
    ensures multiset(Arrange(dump, items, key)) == multiset(items)
    ensures |Arrange(dump, items, key)| == |items|
  {
    var r := Arrange(dump, items, key);
    if key == "parameters" {
      SortMultiset(ParameterOrder(dump), items);
    } else if StringSetKey(key) && AllStrings(items) {
      SortMultiset(LexLe, Unwrap(items));
      WrapUnwrap(items);
      WrapKeepsMultiset(Sort(LexLe, Unwrap(items)), Unwrap(items));
    }
    assert |r| == |multiset(r)| == |multiset(items)| == |items|;
  }

  /** Arranged items stay as they are, whatever the dump. */
  lemma ArrangeIsIdempotent(dump: Dump, items: seq<Json>, key: string)
    ensures Arrange(dump, Arrange(dump, items, key), key) == Arrange(dump, items, key)
  {
    if key == "parameters" {
      var le := ParameterOrder(dump);
      ParameterOrderIsTotal(dump);
      SortIsSorted(le, items);
      SortFixesSorted(le, Sort(le, items));
    } else if StringSetKey(key) && AllStrings(items) {
      var sorted := Sort(LexLe, Unwrap(items));
      LexIsTotalOrder();
      SortIsSorted(LexLe, Unwrap(items));
      SortFixesSorted(LexLe, sorted);
      assert Unwrap(Wrap(sorted)) == sorted;
    }
  }

  lemma SameMultisetSameStrings(s: seq<Json>, t: seq<Json>)
    requires multiset(s) == multiset(t) && AllStrings(s)
    ensures AllStrings(t)
  {
    forall i | 0 <= i < |t| ensures t[i].Str? {
      assert t[i] in multiset(t);
      assert t[i] in s;
    }
  }

  /** Whether the order of an array under this key is forgotten. */
  predicate Unordered(items: seq<Json>, key: string) {
    key == "parameters" || (StringSetKey(key) && AllStrings(items))
  }

  lemma ArrangeIsCanonical(dump: Dump, s: seq<Json>, t: seq<Json>, key: string)
    requires Injective(dump)
    ensures Arrange(dump, s, key) == Arrange(dump, t, key)
            <==> if Unordered(s, key) then multiset(s) == multiset(t) else s == t
  {
    ArrangeKeepsItems(dump, s, key);
    ArrangeKeepsItems(dump, t, key);
    if key == "parameters" {
      ParameterOrderIsTotal(dump);
      SortDependsOnMultiset(ParameterOrder(dump), s, t);
    } else if StringSetKey(key) {
      if multiset(s) == multiset(t) {
        if AllStrings(s) {
          SameMultisetSameStrings(s, t);
          UnwrapKeepsMultiset(s, t);
          LexIsTotalOrder();
          SortDependsOnMultiset(LexLe, Unwrap(s), Unwrap(t));
        } else if AllStrings(t) {
          SameMultisetSameStrings(t, s);
        }
      }
    }
  }

  // ---------- Documents that mean the same ----------

  /** Equal but for null members and for the order of parameters arrays and all-string enum,
      required, schemes and tags arrays, at any depth. */
  ghost predicate Same(a: Json, b: Json, key: string)
    decreases a
  {
    match a
    case Obj(m) => b.Obj? && Live(m) == Live(b.members) && forall k :: k in Live(m) ==> Same(m[k], b.members[k], k)
    case Arr(x) =>
      b.Arr? &&
      if key == "parameters" then
        exists p: seq<Json> :: multiset(p) == multiset(b.items) && |p| == |x|
                               && forall i :: 0 <= i < |x| ==> Same(x[i], p[i], key)
      else if StringSetKey(key) && AllStrings(x) then
        multiset(x) == multiset(b.items)
      else
        |x| == |b.items| && forall i :: 0 <= i < |x| ==> Same(x[i], b.items[i], key)
    case _ => a == b
  }

  lemma SameObjects(m: map<string, Json>, n: map<string, Json>, key: string)
    ensures Same(Obj(m), Obj(n), key) <==>
              Live(m) == Live(n) && forall k :: k in Live(m) ==> Same(m[k], n[k], k)
  {
  }

  ghost predicate SamePermuted(x: seq<Json>, y: seq<Json>, p: seq<Json>, key: string) {
    multiset(p) == multiset(y) && SamePointwise(x, p, key)
  }

  ghost predicate SamePointwise(x: seq<Json>, y: seq<Json>, key: string) {
    |x| == |y| && forall i :: 0 <= i < |x| ==> Same(x[i], y[i], key)
  }

  lemma SameArrays(x: seq<Json>, y: seq<Json>, key: string)
    ensures Same(Arr(x), Arr(y), key) <==>
              if key == "parameters" then exists p :: SamePermuted(x, y, p, key)
              else if StringSetKey(key) && AllStrings(x) then multiset(x) == multiset(y)
              else SamePointwise(x, y, key)
  {
    if key == "parameters" {
      if Same(Arr(x), Arr(y), key) {
        var p: seq<Json> :| multiset(p) == multiset(y) && |p| == |x|
                            && forall i :: 0 <= i < |x| ==> Same(x[i], p[i], key);
        assert SamePermuted(x, y, p, key);
      }
    }
  }

  lemma NormalizeKeepsKind(dump: Dump, v: Json, key: string)
    ensures var r := Normalize(dump, v, key);
            (v.Obj? <==> r.Obj?) && (v.Arr? <==> r.Arr?) && (!v.Obj? && !v.Arr? ==> r == v)
  {
  }

  lemma NormalizeAllStrings(dump: Dump, items: seq<Json>, key: string)
    ensures AllStrings(NormalizeAll(dump, items, key)) <==> AllStrings(items)
    ensures AllStrings(items) ==> NormalizeAll(dump, items, key) == items
  {
    var r := NormalizeAll(dump, items, key);
    forall i | 0 <= i < |items| ensures r[i].Str? <==> items[i].Str? {
      assert r[i] == Normalize(dump, items[i], key);
      NormalizeKeepsKind(dump, items[i], key);
    }
  }

  function Without<T>(s: seq<T>, j: nat): (r: seq<T>)
    requires j < |s|
    ensures |r| == |s| - 1
  {
    s[..j] + s[j + 1..]
  }

  lemma WithoutMultiset<T>(s: seq<T>, j: nat)
    requires j < |s|
    ensures multiset(s) == multiset(Without(s, j)) + multiset{s[j]}
    ensures multiset(Without(s, j)) == multiset(s) - multiset{s[j]}
  {
    assert s == s[..j] + [s[j]] + s[j + 1..];
  }

  lemma NormalizeWithout(dump: Dump, s: seq<Json>, j: nat, key: string)
    requires j < |s|
    ensures |NormalizeAll(dump, s, key)| == |s|
    ensures NormalizeAll(dump, Without(s, j), key) == Without(NormalizeAll(dump, s, key), j)
    ensures NormalizeAll(dump, s, key)[j] == Normalize(dump, s[j], key)
  {
    hide Normalize;
  }

  lemma {:induction false} NormalizeAllMultiset(dump: Dump, s: seq<Json>, t: seq<Json>, key: string)
    requires multiset(s) == multiset(t)
    ensures multiset(NormalizeAll(dump, s, key)) == multiset(NormalizeAll(dump, t, key))
    decreases |s|
  {
    assert |s| == |multiset(s)| == |t|;
    assert s == [] ==> NormalizeAll(dump, s, key) == NormalizeAll(dump, t, key);
    hide Normalize, NormalizeAll, Without;
    if s != [] {
      assert s[0] in multiset(t);
      var j :| 0 <= j < |t| && t[j] == s[0];
      WithoutMultiset(s, 0);
      WithoutMultiset(t, j);
      NormalizeAllMultiset(dump, Without(s, 0), Without(t, j), key);
      NormalizeWithout(dump, s, 0, key);
      NormalizeWithout(dump, t, j, key);
      WithoutMultiset(NormalizeAll(dump, s, key), 0);
      WithoutMultiset(NormalizeAll(dump, t, key), j);
    }
  }

  /** If two lists normalise to the same multiset, one can be reordered to match the other item by item. */
  lemma {:induction false} Realign(dump: Dump, s: seq<Json>, t: seq<Json>, key: string) returns (p: seq<Json>)
    requires multiset(NormalizeAll(dump, s, key)) == multiset(NormalizeAll(dump, t, key))
    ensures multiset(p) == multiset(t) && NormalizeAll(dump, p, key) == NormalizeAll(dump, s, key)
    decreases |s|
  {
    hide Normalize;
    var f, g := NormalizeAll(dump, s, key), NormalizeAll(dump, t, key);
    assert |f| == |multiset(f)| == |g|;
    if s == [] {
      p := [];
      assert t == [];
    } else {
      assert f[0] in multiset(g);
      var j :| 0 <= j < |g| && g[j] == f[0];
      p := RealignStep(dump, s, t, j, key);
    }
  }

  lemma {:induction false} RealignStep(dump: Dump, s: seq<Json>, t: seq<Json>, j: nat, key: string)
    returns (p: seq<Json>)
    requires s != [] && j < |t| && Normalize(dump, s[0], key) == Normalize(dump, t[j], key)
    requires multiset(NormalizeAll(dump, s, key)) == multiset(NormalizeAll(dump, t, key))
    ensures multiset(p) == multiset(t) && NormalizeAll(dump, p, key) == NormalizeAll(dump, s, key)
    decreases |s|, 0
  {
    hide Normalize, NormalizeAll, Without;
    NormalizeWithout(dump, s, 0, key);
    NormalizeWithout(dump, t, j, key);
    WithoutMultiset(NormalizeAll(dump, s, key), 0);
    WithoutMultiset(NormalizeAll(dump, t, key), j);
    var q := Realign(dump, Without(s, 0), Without(t, j), key);
    p := [t[j]] + q;
    WithoutMultiset(t, j);
    NormalizeCons(dump, s, p, key);
  }

  lemma NormalizeCons(dump: Dump, s: seq<Json>, p: seq<Json>, key: string)
    requires s != [] && p != [] && Normalize(dump, s[0], key) == Normalize(dump, p[0], key)
    requires NormalizeAll(dump, p[1..], key) == NormalizeAll(dump, Without(s, 0), key)
    ensures NormalizeAll(dump, p, key) == NormalizeAll(dump, s, key)
  {
    hide Normalize;
    var f, g := NormalizeAll(dump, p[1..], key), NormalizeAll(dump, Without(s, 0), key);
    assert |f| == |g|;
    forall i | 0 < i < |s| ensures Normalize(dump, p[i], key) == Normalize(dump, s[i], key) {
      assert f[i - 1] == g[i - 1];
    }
  }

  /** Normal forms are canonical: two documents have the same one if and only if they mean the same. */
  lemma {:induction false} NormalizeIsCanonical(dump: Dump, a: Json, b: Json, key: string)
    requires Injective(dump)
    ensures Normalize(dump, a, key) == Normalize(dump, b, key) <==> Same(a, b, key)
    decreases a
  {
    NormalizeKeepsKind(dump, a, key);
    NormalizeKeepsKind(dump, b, key);
    if a.Obj? && b.Obj? {
      CanonicalObjects(dump, a, b, key);
    } else if a.Arr? && b.Arr? {
      CanonicalArrays(dump, a, b, key);
    }
  }

  lemma {:induction false} CanonicalObjects(dump: Dump, a: Json, b: Json, key: string)
    requires Injective(dump) && a.Obj? && b.Obj?
    ensures Normalize(dump, a, key) == Normalize(dump, b, key) <==> Same(a, b, key)
    decreases a, 0
  {
    hide Same, Normalize, Live;
    var m, n := a.members, b.members;
    NormalizeObj(dump, m, key);
    NormalizeObj(dump, n, key);
    SameObjects(m, n, key);
    assert a == Obj(m) && b == Obj(n);
    LiveKeys(m);
    LiveKeys(n);
    if Live(m) == Live(n) {
      forall k | k in Live(m)
        ensures Normalize(dump, m[k], k) == Normalize(dump, n[k], k) <==> Same(m[k], n[k], k)
      {
        NormalizeIsCanonical(dump, m[k], n[k], k);
      }
      var na, nb := Normalize(dump, a, key).members, Normalize(dump, b, key).members;
      assert na == nb <==> forall k :: k in Live(m) ==> na[k] == nb[k];
    }
  }

  lemma {:induction false} CanonicalArrays(dump: Dump, a: Json, b: Json, key: string)
    requires Injective(dump) && a.Arr? && b.Arr?
    ensures Normalize(dump, a, key) == Normalize(dump, b, key) <==> Same(a, b, key)
    decreases a, 0
  {
    hide Same, Normalize, NormalizeAll, Arrange, Injective;
    var x, y := a.items, b.items;
    var f, g := NormalizeAll(dump, x, key), NormalizeAll(dump, y, key);
    NormalizeArr(dump, x, key);
    NormalizeArr(dump, y, key);
    ArrangeIsCanonical(dump, f, g, key);
    SameArrays(x, y, key);
    assert a == Arr(x) && b == Arr(y);
    NormalizeAllStrings(dump, x, key);
    NormalizeAllStrings(dump, y, key);
    if key == "parameters" {
      if multiset(f) == multiset(g) {
        var p := Realign(dump, x, y, key);
        Pointwise(dump, a, p, key);
        assert SamePermuted(x, y, p, key);
      }
      if Same(a, b, key) {
        var p :| SamePermuted(x, y, p, key);
        Pointwise(dump, a, p, key);
        NormalizeAllMultiset(dump, p, y, key);
      }
    } else if StringSetKey(key) && AllStrings(x) {
      if multiset(x) == multiset(y) {
        SameMultisetSameStrings(x, y);
      }
      if multiset(f) == multiset(g) {
        SameMultisetSameStrings(f, g);
      }
    } else {
      Pointwise(dump, a, y, key);
    }
  }

  lemma {:induction false} Pointwise(dump: Dump, a: Json, p: seq<Json>, key: string)
    requires Injective(dump) && a.Arr?
    ensures NormalizeAll(dump, a.items, key) == NormalizeAll(dump, p, key) <==> SamePointwise(a.items, p, key)
    decreases a, -1
  {
    hide Normalize, Same;
    var x := a.items;
    var f, g := NormalizeAll(dump, x, key), NormalizeAll(dump, p, key);
    if |x| == |p| {
      forall i | 0 <= i < |x| ensures f[i] == g[i] <==> Same(x[i], p[i], key) {
        NormalizeIsCanonical(dump, x[i], p[i], key);
      }
      assert f == g <==> forall i :: 0 <= i < |f| ==> f[i] == g[i];
    }
  }

  // ---------- Idempotence and absence of nulls ----------

  lemma {:induction false} NormalizeIsIdempotent(dump: Dump, v: Json, key: string)
    ensures Normalize(dump, Normalize(dump, v, key), key) == Normalize(dump, v, key)
    decreases v
  {
    var r := Normalize(dump, v, key);
    NormalizeKeepsKind(dump, v, key);
    match v
    case Obj(m) =>
      NormalizeObj(dump, m, key);
      NormalizeObj(dump, r.members, key);
      forall k | k in Live(m) ensures r.members[k] != Null && Normalize(dump, r.members[k], k) == r.members[k] {
        NormalizeIsIdempotent(dump, m[k], k);
        NormalizeKeepsKind(dump, m[k], k);
      }
      assert Normalize(dump, r, key).members == r.members;
    case Arr(a) =>
      var f := NormalizeAll(dump, a, key);
      NormalizeArr(dump, a, key);
      NormalizeArr(dump, r.items, key);
      ArrangeKeepsItems(dump, f, key);
      forall i | 0 <= i < |r.items| ensures Normalize(dump, r.items[i], key) == r.items[i] {
        assert r.items[i] in multiset(r.items);
        assert r.items[i] in f;
        var j :| 0 <= j < |f| && f[j] == r.items[i];
        NormalizeIsIdempotent(dump, a[j], key);
      }
      assert NormalizeAll(dump, r.items, key) == r.items;
      ArrangeIsIdempotent(dump, f, key);
    case _ =>
  }

  /** No member of any object is null, at any depth. */
  ghost predicate NoNullMembers(v: Json) {
    match v
    case Obj(m) => forall k :: k in m ==> m[k] != Null && NoNullMembers(m[k])
    case Arr(a) => forall i :: 0 <= i < |a| ==> NoNullMembers(a[i])
    case _ => true
  }

  lemma {:induction false} NormalizeLeavesNoNullMember(dump: Dump, v: Json, key: string)
    ensures NoNullMembers(Normalize(dump, v, key))
    decreases v
  {
    var r := Normalize(dump, v, key);
    match v
    case Obj(m) =>
      NormalizeObj(dump, m, key);
      forall k | k in r.members ensures r.members[k] != Null && NoNullMembers(r.members[k]) {
        NormalizeLeavesNoNullMember(dump, m[k], k);
        NormalizeKeepsKind(dump, m[k], k);
      }
    case Arr(a) =>
      var f := NormalizeAll(dump, a, key);
      NormalizeArr(dump, a, key);
      ArrangeKeepsItems(dump, f, key);
      forall i | 0 <= i < |r.items| ensures NoNullMembers(r.items[i]) {
        assert r.items[i] in multiset(r.items);
        assert r.items[i] in f;
        var j :| 0 <= j < |f| && f[j] == r.items[i];
        NormalizeLeavesNoNullMember(dump, a[j], key);
      }
    case _ =>
  }

  // ---------- What normalising does, read off the document ----------

  /** The string member of an object, or "". */
  function TextAt(v: Json, key: string): string {
    if v.Obj? && key in v.members && v.members[key].Str? then v.members[key].s else ""
  }

  /** Ordered by "in", then "name", then the dump. */
  ghost predicate ParameterBefore(dump: Dump, x: Json, y: Json) {
    && CodeLe(TextAt(x, "in"), TextAt(y, "in"))
    && (TextAt(x, "in") == TextAt(y, "in") ==>
          && CodeLe(TextAt(x, "name"), TextAt(y, "name"))
          && (TextAt(x, "name") == TextAt(y, "name") ==> CodeLe(dump(x), dump(y))))
  }

  ghost predicate StringBefore(x: Json, y: Json) {
    x.Str? && y.Str? && CodeLe(x.s, y.s)
  }

  /** How the normalised items of an array come out, by the key it was found under. */
  ghost predicate Arranged(dump: Dump, items: seq<Json>, key: string, result: seq<Json>) {
    if key == "parameters" then
      multiset(result) == multiset(items)
      && forall i, j :: 0 <= i < j < |result| ==> ParameterBefore(dump, result[i], result[j])
    else if (key == "enum" || key == "required" || key == "schemes" || key == "tags")
            && forall i :: 0 <= i < |items| ==> items[i].Str? then
      multiset(result) == multiset(items)
      && forall i, j :: 0 <= i < j < |result| ==> StringBefore(result[i], result[j])
    else
      result == items
  }

  /** r is v with null members dropped and order-free arrays sorted, at every depth. */
  ghost predicate Normalized(dump: Dump, v: Json, key: string, r: Json)
    decreases v
  {
    match v
    case Obj(m) =>
      && r.Obj? && (forall k :: k in r.members <==> k in m && m[k] != Null)
      && forall k :: k in r.members ==> Normalized(dump, m[k], k, r.members[k])
    case Arr(a) =>
      r.Arr? && exists items: seq<Json> ::
        && |items| == |a| && (forall i :: 0 <= i < |a| ==> Normalized(dump, a[i], key, items[i]))
        && Arranged(dump, items, key, r.items)
    case _ => r == v
  }

  lemma ParameterLeExactly(dump: Dump, x: Json, y: Json)
    requires ParameterLe(dump, x, y)
    ensures ParameterBefore(dump, x, y)
  {
    LexExactly(Field(x, "in"), Field(y, "in"));
    LexExactly(Field(x, "name"), Field(y, "name"));
    LexExactly(dump(x), dump(y));
    LexTotal(Field(x, "in"), Field(y, "in"));
    LexTotal(Field(x, "name"), Field(y, "name"));
  }

  lemma ArrangeExactly(dump: Dump, items: seq<Json>, key: string)
    ensures Arranged(dump, items, key, Arrange(dump, items, key))
  {
    ArrangeKeepsItems(dump, items, key);
    var r := Arrange(dump, items, key);
    if key == "parameters" {
      var le := ParameterOrder(dump);
      ParameterOrderIsTotal(dump);
      SortIsSorted(le, items);
      forall i, j | 0 <= i < j < |r| ensures ParameterBefore(dump, r[i], r[j]) {
        assert le(r[i], r[j]);
        ParameterLeExactly(dump, r[i], r[j]);
      }
    } else if StringSetKey(key) && AllStrings(items) {
      LexIsTotalOrder();
      var strings := Sort(LexLe, Unwrap(items));
      SortIsSorted(LexLe, Unwrap(items));
      forall i, j | 0 <= i < j < |r| ensures StringBefore(r[i], r[j]) {
        assert LexLe(strings[i], strings[j]);
        LexExactly(strings[i], strings[j]);
      }
    }
  }

  /** Normalising drops exactly the null members and sorts exactly the arrays whose order means nothing. */
  lemma {:induction false} NormalizeExactly(dump: Dump, v: Json, key: string)
    ensures Normalized(dump, v, key, Normalize(dump, v, key))
    decreases v
  {
    var r := Normalize(dump, v, key);
    NormalizeKeepsKind(dump, v, key);
    hide Normalize, Arranged, Arrange;
    match v
    case Obj(m) =>
      NormalizeObj(dump, m, key);
      forall k | k in r.members ensures Normalized(dump, m[k], k, r.members[k]) {
        NormalizeExactly(dump, m[k], k);
      }
    case Arr(a) =>
      NormalizeArr(dump, a, key);
      var items := NormalizeAll(dump, a, key);
      ArrangeExactly(dump, items, key);
      forall i | 0 <= i < |a| ensures Normalized(dump, a[i], key, items[i]) {
        NormalizeExactly(dump, a[i], key);
      }
    case _ =>
  }

  // ---------- _replace_legacy_refs ----------

  const LEGACY := "#/definitions/"
  const MODERN := "#/components/schemas/"

  predicate IsLegacyRef(key: string, v: Json) {
    key == "$ref" && v.Str? && LEGACY <= v.s
  }

  /** A rewritten member. A value that starts with the legacy prefix has its first occurrence right there. */
  function RewrittenMember(key: string, v: Json): Json {
    if IsLegacyRef(key, v) then Str(MODERN + v.s[|LEGACY|..]) else ReplaceRefs(v)
  }

  function ReplaceRefs(v: Json): Json {
    match v
    case Obj(m) =>
      Obj(map k | k in m :: if IsLegacyRef(k, m[k]) then Str(MODERN + m[k].s[|LEGACY|..]) else ReplaceRefs(m[k]))
    case Arr(a) => Arr(seq(|a|, i requires 0 <= i < |a| => ReplaceRefs(a[i])))
    case _ => v
  }

  /** The recursive code, which fills a dict member by member. */
  method ReplaceLegacyRefs(v: Json) returns (r: Json)
    ensures r == ReplaceRefs(v) && Rewritten(v, r)
    decreases v
  {
    ReplaceExactly(v, ReplaceRefs(v));
    hide Rewritten;
    match v {
      case Obj(m) =>
        var replaced: map<string, Json> := map[];
        var todo := m.Keys;
        while todo != {}
          invariant todo <= m.Keys && replaced.Keys == m.Keys - todo
          invariant forall k :: k in replaced ==> replaced[k] == RewrittenMember(k, m[k])
          decreases todo
        {
          var key :| key in todo;
          todo := todo - {key};
          if IsLegacyRef(key, m[key]) {
            replaced := replaced[key := Str(MODERN + m[key].s[|LEGACY|..])];
          } else {
            var item := ReplaceLegacyRefs(m[key]);
            replaced := replaced[key := item];
          }
        }
        r := Obj(replaced);
        assert replaced == ReplaceRefs(v).members;
      case Arr(a) =>
        var items: seq<Json> := [];
        for i := 0 to |a|
          invariant |items| == i && forall j :: 0 <= j < i ==> items[j] == ReplaceRefs(a[j])
        {
          var item := ReplaceLegacyRefs(a[i]);
          items := items + [item];
        }
        r := Arr(items);
        assert items == ReplaceRefs(v).items;
      case _ => r := v;
    }
  }

  ghost predicate NoLegacyRefs(v: Json) {
    match v
    case Obj(m) => forall k :: k in m ==> !IsLegacyRef(k, m[k]) && NoLegacyRefs(m[k])
    case Arr(a) => forall i :: 0 <= i < |a| ==> NoLegacyRefs(a[i])
    case _ => true
  }

  lemma {:induction false} ReplaceLeavesNoLegacyRef(v: Json)
    ensures NoLegacyRefs(ReplaceRefs(v))
  {
    match v
    case Obj(m) =>
      forall k | k in m ensures !IsLegacyRef(k, ReplaceRefs(v).members[k]) && NoLegacyRefs(ReplaceRefs(v).members[k]) {
        if IsLegacyRef(k, m[k]) {
          assert (MODERN + m[k].s[|LEGACY|..])[2] == 'c' && LEGACY[2] == 'd';
        } else {
          ReplaceLeavesNoLegacyRef(m[k]);
        }
      }
    case Arr(a) => forall i | 0 <= i < |a| { ReplaceLeavesNoLegacyRef(a[i]); }
    case _ =>
  }

  /** Documents without legacy references are left exactly as they are. */
  lemma {:induction false} ReplaceFixesClean(v: Json)
    ensures NoLegacyRefs(v) <==> ReplaceRefs(v) == v
  {
    if !NoLegacyRefs(v) {
      ReplaceLeavesNoLegacyRef(v);
    } else {
      match v
      case Obj(m) =>
        forall k | k in m ensures ReplaceRefs(v).members[k] == m[k] { ReplaceFixesClean(m[k]); }
        assert ReplaceRefs(v).members == m;
      case Arr(a) =>
        forall i | 0 <= i < |a| ensures ReplaceRefs(v).items[i] == a[i] { ReplaceFixesClean(a[i]); }
        assert ReplaceRefs(v).items == a;
      case _ =>
    }
  }

  lemma ReplaceIsIdempotent(v: Json)
    ensures ReplaceRefs(ReplaceRefs(v)) == ReplaceRefs(v)
  {
    ReplaceLeavesNoLegacyRef(v);
    ReplaceFixesClean(ReplaceRefs(v));
  }

  // ---------- What rewriting does, read off the document ----------

  /** The value is a reference of the legacy form with this name. */
  predicate RefersTo(key: string, v: Json, name: string) {
    key == "$ref" && v == Str("#/definitions/" + name)
  }

  /** r is v with every legacy reference pointing to the same name in its new place, and nothing else changed. */
  ghost predicate Rewritten(v: Json, r: Json)
    decreases v
  {
    match v
    case Obj(m) =>
      && r.Obj? && r.members.Keys == m.Keys
      && forall k :: k in m ==>
           && (forall name :: RefersTo(k, m[k], name) ==> r.members[k] == Str("#/components/schemas/" + name))
           && ((forall name :: !RefersTo(k, m[k], name)) ==> Rewritten(m[k], r.members[k]))
    case Arr(a) => r.Arr? && |r.items| == |a| && forall i :: 0 <= i < |a| ==> Rewritten(a[i], r.items[i])
    case _ => r == v
  }

  lemma LegacyExactly(key: string, v: Json)
    ensures IsLegacyRef(key, v) <==> exists name :: RefersTo(key, v, name)
    ensures forall name :: RefersTo(key, v, name) ==>
              IsLegacyRef(key, v) && Str(MODERN + v.s[|LEGACY|..]) == Str("#/components/schemas/" + name)
  {
    if IsLegacyRef(key, v) {
      assert v.s == "#/definitions/" + v.s[|LEGACY|..];
      assert RefersTo(key, v, v.s[|LEGACY|..]);
    }
    forall name | RefersTo(key, v, name)
      ensures IsLegacyRef(key, v) && MODERN + v.s[|LEGACY|..] == "#/components/schemas/" + name
    {
      assert v.s[|LEGACY|..] == name;
    }
  }

  /** The rewrite is the only document so related to its input. */
  lemma {:induction false} ReplaceExactly(v: Json, r: Json)
    ensures r == ReplaceRefs(v) <==> Rewritten(v, r)
    decreases v
  {
    match v
    case Obj(m) =>
      if r.Obj? && r.members.Keys == m.Keys {
        forall k | k in m
          ensures r.members[k] == RewrittenMember(k, m[k]) <==>
                    && (forall name :: RefersTo(k, m[k], name) ==> r.members[k] == Str("#/components/schemas/" + name))
                    && ((forall name :: !RefersTo(k, m[k], name)) ==> Rewritten(m[k], r.members[k]))
        {
          ReplaceExactly(m[k], r.members[k]);
          LegacyExactly(k, m[k]);
        }
        ObjectReplaced(m, r.members);
      }
    case Arr(a) =>
      if r.Arr? && |r.items| == |a| {
        forall i | 0 <= i < |a| ensures r.items[i] == ReplaceRefs(a[i]) <==> Rewritten(a[i], r.items[i]) {
          ReplaceExactly(a[i], r.items[i]);
        }
        ArrayReplaced(a, r.items);
      }
    case _ =>
  }

  lemma ObjectReplaced(m: map<string, Json>, members: map<string, Json>)
    requires members.Keys == m.Keys
    ensures Obj(members) == ReplaceRefs(Obj(m)) <==> forall k :: k in m ==> members[k] == RewrittenMember(k, m[k])
  {
    var r := ReplaceRefs(Obj(m)).members;
    assert r.Keys == m.Keys && forall k :: k in m ==> r[k] == RewrittenMember(k, m[k]);
    hide ReplaceRefs, RewrittenMember;
    assert members == r <==> forall k :: k in m ==> members[k] == r[k];
  }

  lemma ArrayReplaced(a: seq<Json>, items: seq<Json>)
    requires |items| == |a|
    ensures Arr(items) == ReplaceRefs(Arr(a)) <==> forall i :: 0 <= i < |a| ==> items[i] == ReplaceRefs(a[i])
  {
    var r := ReplaceRefs(Arr(a)).items;
    assert |r| == |a| && forall i :: 0 <= i < |a| ==> r[i] == ReplaceRefs(a[i]);
  }
}
