/** Sorting and de-duplication of integrations in integrations/gen_integrations.py. */
module Integrations {

  /** An integration: its id, the parts of its source path, its index in that file, and the rest of it. */
  datatype Item = Item(id: string, path: seq<string>, index: nat, body: string)

  // ---- orders ----------------------------------------------------------------------------------------

  /** Strings compare character by character. */
  predicate StringLeq(a: string, b: string) {
    a == [] || (b != [] && (a[0] < b[0] || (a[0] == b[0] && StringLeq(a[1..], b[1..]))))
  }

  /** Paths compare part by part. */
  predicate PathLeq(a: seq<string>, b: seq<string>) {
    a == [] || (b != [] && StringLeq(a[0], b[0]) && (a[0] == b[0] ==> PathLeq(a[1..], b[1..])))
  }

  /** What a list is sorted by; `Then` falls back on the second key where the first one decides nothing. */
  datatype Key = ById | ByPath | ByIndex | Then(first: Key, second: Key)

  predicate Leq(k: Key, a: Item, b: Item) {
    match k
    case ById => StringLeq(a.id, b.id)
    case ByPath => PathLeq(a.path, b.path)
    case ByIndex => a.index <= b.index
    case Then(first, second) => Leq(first, a, b) && (Leq(first, b, a) ==> Leq(second, a, b))
  }

  predicate Same(k: Key, a: Item, b: Item) {
    Leq(k, a, b) && Leq(k, b, a)
  }

  // ---- the orders without recursion ------------------------------------------------------------------

  /** Both begin with the same `n` characters; there `a` has the smaller one, or ends. */
  predicate DiffersAt(a: string, b: string, n: nat) {
    && n <= |a| && n < |b| && a[..n] == b[..n]
    && (n < |a| ==> a[n] < b[n])
  }

  ghost predicate StringBefore(a: string, b: string) {
    exists n: nat :: DiffersAt(a, b, n)
  }

  /** Both begin with the same `n` parts; there `a` has the smaller one, or ends. */
  ghost predicate PathDiffersAt(a: seq<string>, b: seq<string>, n: nat) {
    && n <= |a| && n < |b| && a[..n] == b[..n]
    && (n < |a| ==> StringBefore(a[n], b[n]))
  }

  ghost predicate PathBefore(a: seq<string>, b: seq<string>) {
    exists n: nat :: PathDiffersAt(a, b, n)
  }

  lemma SameStart<T>(a: seq<T>, b: seq<T>, n: nat)
    requires 0 < n <= |a| && n <= |b|
    ensures a[..n] == b[..n] <==> a[0] == b[0] && a[1..][..n - 1] == b[1..][..n - 1]
  {
    assert a[1..][..n - 1] == a[..n][1..] && b[1..][..n - 1] == b[..n][1..];
    assert a[..n] == [a[0]] + a[..n][1..] && b[..n] == [b[0]] + b[..n][1..];
  }

  lemma {:induction false} StringLeqMeans(a: string, b: string)
    ensures StringLeq(a, b) <==> a == b || StringBefore(a, b)
    decreases |a|
  {
    if a == [] {
      assert b != [] ==> DiffersAt(a, b, 0);
    } else if b != [] {
      if a[0] < b[0] {
        assert DiffersAt(a, b, 0);
      } else if a[0] == b[0] {
        StringLeqMeans(a[1..], b[1..]);
        StringBeforeTail(a, b);
        assert a == [a[0]] + a[1..] && b == [b[0]] + b[1..];
      } else {
        assert forall n: nat | 0 < n <= |a| && n <= |b| :: a[..n][0] != b[..n][0];
      }
    }
  }

  lemma StringBeforeTail(a: string, b: string)
    requires a != [] && b != [] && a[0] == b[0]
    ensures StringBefore(a, b) <==> StringBefore(a[1..], b[1..])
  {
    if n: nat :| DiffersAt(a, b, n) {
      SameStart(a, b, n);
      assert DiffersAt(a[1..], b[1..], n - 1);
    }
    if n: nat :| DiffersAt(a[1..], b[1..], n) {
      SameStart(a, b, n + 1);
      assert DiffersAt(a, b, n + 1);
    }
  }

  lemma {:induction false} PathLeqMeans(a: seq<string>, b: seq<string>)
    ensures PathLeq(a, b) <==> a == b || PathBefore(a, b)
    decreases |a|
  {
    if a == [] {
      assert b != [] ==> PathDiffersAt(a, b, 0);
    } else if b != [] {
      StringLeqMeans(a[0], b[0]);
      if a[0] == b[0] {
        StringTotal(a[0], b[0]);
        PathLeqMeans(a[1..], b[1..]);
        PathBeforeTail(a, b);
        assert a == [a[0]] + a[1..] && b == [b[0]] + b[1..];
      } else {
        assert StringBefore(a[0], b[0]) ==> PathDiffersAt(a, b, 0);
        assert forall n: nat | 0 < n <= |a| && n <= |b| :: a[..n][0] != b[..n][0];
      }
    }
  }

  lemma NotBeforeItself(a: string)
    ensures !StringBefore(a, a)
  {
  }

  lemma PathBeforeTail(a: seq<string>, b: seq<string>)
    requires a != [] && b != [] && a[0] == b[0]
    ensures PathBefore(a, b) <==> PathBefore(a[1..], b[1..])
  {
    NotBeforeItself(a[0]);
    if n: nat :| PathDiffersAt(a, b, n) {
      SameStart(a, b, n);
      assert PathDiffersAt(a[1..], b[1..], n - 1);
    }
    if n: nat :| PathDiffersAt(a[1..], b[1..], n) {
      SameStart(a, b, n + 1);
      assert PathDiffersAt(a, b, n + 1);
    }
  }

  // ---- they are total and transitive -----------------------------------------------------------------

  lemma {:induction false} StringTotal(a: string, b: string)
    ensures StringLeq(a, b) || StringLeq(b, a)
    ensures StringLeq(a, b) && StringLeq(b, a) ==> a == b
    decreases |a|
  {
    if a != [] && b != [] && a[0] == b[0] {
      StringTotal(a[1..], b[1..]);
      assert a == [a[0]] + a[1..] && b == [b[0]] + b[1..];
    }
  }

  lemma {:induction false} StringTransitive(a: string, b: string, c: string)
    requires StringLeq(a, b) && StringLeq(b, c)
    ensures StringLeq(a, c)
    decreases |a|
  {
    if a != [] && a[0] == b[0] == c[0] {
      StringTransitive(a[1..], b[1..], c[1..]);
    }
  }

  lemma {:induction false} PathTotal(a: seq<string>, b: seq<string>)
    ensures PathLeq(a, b) || PathLeq(b, a)
    ensures PathLeq(a, b) && PathLeq(b, a) ==> a == b
    decreases |a|
  {
    if a != [] && b != [] {
      StringTotal(a[0], b[0]);
      if a[0] == b[0] {
        PathTotal(a[1..], b[1..]);
        assert a == [a[0]] + a[1..] && b == [b[0]] + b[1..];
      }
    }
  }

  lemma {:induction false} PathTransitive(a: seq<string>, b: seq<string>, c: seq<string>)
    requires PathLeq(a, b) && PathLeq(b, c)
    ensures PathLeq(a, c)
    decreases |a|
  {
    if a != [] {
      StringTransitive(a[0], b[0], c[0]);
      StringTotal(a[0], b[0]);
      StringTotal(b[0], c[0]);
      if a[0] == c[0] {
        PathTransitive(a[1..], b[1..], c[1..]);
      }
    }
  }

  lemma {:induction false} Total(k: Key, a: Item, b: Item)
    ensures Leq(k, a, b) || Leq(k, b, a)
  {
    match k {
      case ById => StringTotal(a.id, b.id);
      case ByPath => PathTotal(a.path, b.path);
      case ByIndex =>
      case Then(first, second) =>
        Total(first, a, b);
        Total(second, a, b);
    }
  }

  lemma {:induction false} Transitive(k: Key, a: Item, b: Item, c: Item)
    requires Leq(k, a, b) && Leq(k, b, c)
    ensures Leq(k, a, c)
  {
    match k {
      case ById => StringTransitive(a.id, b.id, c.id);
      case ByPath => PathTransitive(a.path, b.path, c.path);
      case ByIndex =>
      case Then(first, second) =>
        Transitive(first, a, b, c);
        if Leq(first, c, a) {
          Transitive(first, c, a, b);
          Transitive(first, b, c, a);
          Transitive(second, a, b, c);
        }
    }
  }

  // ---- stable sorts ----------------------------------------------------------------------------------

  predicate Sorted(s: seq<Item>, k: Key) {
    forall i, j | 0 <= i < j < |s| :: Leq(k, s[i], s[j])
  }

  /** The items that compare equal to `x`, in order. */
  function Class(s: seq<Item>, k: Key, x: Item): seq<Item> {
    if s == [] then []
    else if Same(k, s[0], x) then [s[0]] + Class(s[1..], k, x)
    else Class(s[1..], k, x)
  }

  /** `r` is `s` sorted, with items that compare equal left in their order. */
  ghost predicate StableSort(s: seq<Item>, r: seq<Item>, k: Key) {
    Sorted(r, k) && forall x :: Class(r, k, x) == Class(s, k, x)
  }

  function Insert(x: Item, s: seq<Item>, k: Key): seq<Item> {
    if s == [] || Leq(k, x, s[0]) then [x] + s else [s[0]] + Insert(x, s[1..], k)
  }

  /** The result of `list.sort`, which is stable. */
  function Sort(s: seq<Item>, k: Key): seq<Item> {
    if s == [] then [] else Insert(s[0], Sort(s[1..], k), k)
  }

  lemma ClassCons(x: Item, s: seq<Item>, k: Key, y: Item)
    ensures Class([x] + s, k, y) == if Same(k, x, y) then [x] + Class(s, k, y) else Class(s, k, y)
  {
    assert ([x] + s)[1..] == s;
  }

  lemma {:induction false} InsertClass(x: Item, s: seq<Item>, k: Key, y: Item)
    ensures Class(Insert(x, s, k), k, y) == if Same(k, x, y) then [x] + Class(s, k, y) else Class(s, k, y)
    decreases |s|
  {
    ClassCons(x, s, k, y);
    if s != [] && !Leq(k, x, s[0]) {
      InsertClass(x, s[1..], k, y);
      ClassCons(s[0], Insert(x, s[1..], k), k, y);
      if Same(k, x, y) && Same(k, s[0], y) {
        Transitive(k, x, y, s[0]);
        assert false;
      }
    }
  }

  lemma {:induction false} InsertMembers(x: Item, s: seq<Item>, k: Key, y: Item)
    ensures y in Insert(x, s, k) <==> y == x || y in s
    decreases |s|
  {
    if s != [] && !Leq(k, x, s[0]) {
      InsertMembers(x, s[1..], k, y);
      assert s == [s[0]] + s[1..];
    }
  }

  lemma SortedCons(x: Item, s: seq<Item>, k: Key)
    requires Sorted(s, k) && forall y | y in s :: Leq(k, x, y)
    ensures Sorted([x] + s, k)
  {
  }

  lemma {:induction false} InsertSorted(x: Item, s: seq<Item>, k: Key)
    requires Sorted(s, k)
    ensures Sorted(Insert(x, s, k), k)
    decreases |s|
  {
    if s == [] {
    } else if Leq(k, x, s[0]) {
      forall y | y in s
        ensures Leq(k, x, y)
      {
        Total(k, s[0], s[0]);
        Transitive(k, x, s[0], y);
      }
      SortedCons(x, s, k);
    } else {
      InsertSorted(x, s[1..], k);
      Total(k, x, s[0]);
      forall y | y in Insert(x, s[1..], k)
        ensures Leq(k, s[0], y)
      {
        InsertMembers(x, s[1..], k, y);
      }
      SortedCons(s[0], Insert(x, s[1..], k), k);
    }
  }

  lemma {:induction false} SortIsStable(s: seq<Item>, k: Key)
    ensures StableSort(s, Sort(s, k), k)
    decreases |s|
  {
    if s != [] {
      var rest := Sort(s[1..], k);
      SortIsStable(s[1..], k);
      InsertSorted(s[0], rest, k);
      forall x
        ensures Class(Sort(s, k), k, x) == Class(s, k, x)
      {
        InsertClass(s[0], rest, k, x);
      }
    }
  }

  lemma {:induction false} ClassMembers(s: seq<Item>, k: Key, x: Item, y: Item)
    ensures y in Class(s, k, x) <==> y in s && Same(k, y, x)
    decreases |s|
  {
    if s != [] {
      ClassMembers(s[1..], k, x, y);
      assert s == [s[0]] + s[1..];
    }
  }

  lemma Reflexive(k: Key, x: Item)
    ensures Same(k, x, x)
  {
    Total(k, x, x);
  }

  /** Sorting stably neither adds nor loses items. */
  lemma StableMembers(s: seq<Item>, r: seq<Item>, k: Key, x: Item)
    requires forall y :: Class(r, k, y) == Class(s, k, y)
    ensures x in r <==> x in s
  {
    Reflexive(k, x);
    ClassMembers(s, k, x, x);
    ClassMembers(r, k, x, x);
  }

  lemma HeadIsLeast(s: seq<Item>, k: Key, x: Item)
    requires Sorted(s, k) && x in s
    ensures Leq(k, s[0], x)
  {
    Total(k, x, x);
  }

  /** There is one stable sort of a list only. */
  lemma {:induction false} StableSortUnique(a: seq<Item>, b: seq<Item>, k: Key)
    requires Sorted(a, k) && Sorted(b, k) && forall x :: Class(a, k, x) == Class(b, k, x)
    ensures a == b
    decreases |a|
  {
    if a == [] {
      if b != [] {
        StableMembers(b, a, k, b[0]);
        assert false;
      }
    } else {
      StableMembers(a, b, k, a[0]);
      SameHead(a, b, k);
      forall x
        ensures Class(a[1..], k, x) == Class(b[1..], k, x)
      {
        assert Class(a, k, x) == Class(b, k, x);
        if Same(k, a[0], x) {
          assert Class(a, k, x)[1..] == Class(a[1..], k, x);
          assert Class(b, k, x)[1..] == Class(b[1..], k, x);
        }
      }
      StableSortUnique(a[1..], b[1..], k);
      assert a == [a[0]] + a[1..] && b == [b[0]] + b[1..];
    }
  }

  lemma SameHead(a: seq<Item>, b: seq<Item>, k: Key)
    requires Sorted(a, k) && Sorted(b, k) && forall x :: Class(a, k, x) == Class(b, k, x)
    requires a != [] && b != []
    ensures a[0] == b[0]
  {
    StableMembers(a, b, k, a[0]);
    StableMembers(a, b, k, b[0]);
    HeadIsLeast(a, k, b[0]);
    HeadIsLeast(b, k, a[0]);
    Reflexive(k, a[0]);
    assert Class(a, k, a[0])[0] == a[0];
    assert Class(b, k, a[0])[0] == b[0];
  }

  // ---- successive sorts ------------------------------------------------------------------------------

  lemma {:induction false} ClassOfClass(s: seq<Item>, p: Key, q: Key, x: Item)
    ensures Class(s, Then(p, q), x) == Class(Class(s, p, x), q, x)
    ensures Class(s, Then(p, q), x) == Class(Class(s, q, x), p, x)
    decreases |s|
  {
    if s != [] {
      ClassOfClass(s[1..], p, q, x);
      ClassCons(s[0], Class(s[1..], p, x), q, x);
      ClassCons(s[0], Class(s[1..], q, x), p, x);
      assert Same(Then(p, q), s[0], x) <==> Same(p, s[0], x) && Same(q, s[0], x);
    }
  }

  lemma SortedUncons(x: Item, s: seq<Item>, k: Key)
    requires Sorted([x] + s, k)
    ensures Sorted(s, k) && forall y | y in s :: Leq(k, x, y)
  {
    var all := [x] + s;
    forall i, j | 0 <= i < j < |s|
      ensures Leq(k, s[i], s[j])
    {
      assert Leq(k, all[i + 1], all[j + 1]);
    }
    forall y | y in s
      ensures Leq(k, x, y)
    {
      var i :| 0 <= i < |s| && s[i] == y;
      assert Leq(k, all[0], all[i + 1]);
    }
  }

  /** Items of one class keep their order in the class. */
  lemma {:induction false} ClassKeepsOrder(s: seq<Item>, p: Key, q: Key, x: Item, i: nat, j: nat)
    requires i < j < |s| && Same(p, s[i], x) && Same(p, s[j], x)
    requires Sorted(Class(s, p, x), q)
    ensures Leq(q, s[i], s[j])
    decreases |s|
  {
    if Same(p, s[0], x) {
      SortedUncons(s[0], Class(s[1..], p, x), q);
    }
    if i == 0 {
      assert s[j] == s[1..][j - 1];
      ClassMembers(s[1..], p, x, s[j]);
    } else {
      ClassKeepsOrder(s[1..], p, q, x, i - 1, j - 1);
    }
  }

  lemma {:induction false} ClassSorted(s: seq<Item>, p: Key, q: Key, x: Item)
    requires Sorted(s, q)
    ensures Sorted(Class(s, p, x), q)
    decreases |s|
  {
    if s != [] {
      ClassSorted(s[1..], p, q, x);
      forall y | y in Class(s[1..], p, x)
        ensures Leq(q, s[0], y)
      {
        ClassMembers(s[1..], p, x, y);
      }
      SortedCons(s[0], Class(s[1..], p, x), q);
    }
  }

  /** Sorting by `q` and then by `p` is sorting by `p` and, where that decides nothing, by `q`. */
  lemma SortTwice(s: seq<Item>, r: seq<Item>, t: seq<Item>, p: Key, q: Key)
    requires StableSort(s, r, q) && StableSort(r, t, p)
    ensures StableSort(s, t, Then(p, q))
  {
    forall i, j | 0 <= i < j < |t|
      ensures Leq(Then(p, q), t[i], t[j])
    {
      if Leq(p, t[j], t[i]) {
        Reflexive(p, t[i]);
        ClassSorted(r, p, q, t[i]);
        assert Class(t, p, t[i]) == Class(r, p, t[i]);
        ClassKeepsOrder(t, p, q, t[i], i, j);
      }
    }
    forall x
      ensures Class(t, Then(p, q), x) == Class(s, Then(p, q), x)
    {
      ClassOfClass(t, p, q, x);
      assert Class(t, p, x) == Class(r, p, x);
      ClassOfClass(r, p, q, x);
      assert Class(r, q, x) == Class(s, q, x);
      ClassOfClass(s, p, q, x);
    }
  }

  const FULL_ORDER: Key := Then(ById, Then(ByPath, ByIndex))

  /** `sort_integrations` */
  function SortIntegrations(s: seq<Item>): seq<Item> {
    Sort(Sort(Sort(s, ByIndex), ByPath), ById)
  }

  /** The three sorts are one sort by id, path and index; whatever stable sort is used, the result is the same. */
  lemma ThreeSortsAreOne(s: seq<Item>, r1: seq<Item>, r2: seq<Item>, r3: seq<Item>)
    requires StableSort(s, r1, ByIndex) && StableSort(r1, r2, ByPath) && StableSort(r2, r3, ById)
    ensures StableSort(s, r3, FULL_ORDER)
    ensures r3 == Sort(s, FULL_ORDER) == SortIntegrations(s)
  {
    SortTwice(s, r1, r2, ByPath, ByIndex);
    SortTwice(s, r2, r3, ById, Then(ByPath, ByIndex));
    SortIsStable(s, FULL_ORDER);
    StableSortUnique(r3, Sort(s, FULL_ORDER), FULL_ORDER);
    SortIsStable(s, ByIndex);
    StableSortUnique(r1, Sort(s, ByIndex), ByIndex);
    SortIsStable(r1, ByPath);
    StableSortUnique(r2, Sort(r1, ByPath), ByPath);
    SortIsStable(r2, ById);
    StableSortUnique(r3, Sort(r2, ById), ById);
  }

  // ---- de-duplication --------------------------------------------------------------------------------

  /** Where each id was first defined. */
  type Ids = map<string, (seq<string>, nat)>

  /** The items whose id is not among `ids` and not the id of an earlier item. */
  function Fresh(items: seq<Item>, ids: set<string>): seq<Item> {
    if items == [] then []
    else if items[0].id in ids then Fresh(items[1..], ids)
    else [items[0]] + Fresh(items[1..], ids + {items[0].id})
  }

  /** The table after adding the items. */
  function Record(ids: Ids, items: seq<Item>): Ids
    decreases |items|
  {
    if items == [] then ids else Record(ids[items[0].id := (items[0].path, items[0].index)], items[1..])
  }

  /** `dedupe_integrations` */
  method DedupeIntegrations(integrations: seq<Item>, ids: Ids) returns (kept: seq<Item>, table: Ids)
    ensures kept == Fresh(integrations, ids.Keys) && table == Record(ids, kept)
  {
    kept, table := [], ids;
    for n := 0 to |integrations|
      invariant Fresh(integrations, ids.Keys) == kept + Fresh(integrations[n..], table.Keys)
      invariant table == Record(ids, kept)
    {
      var i := integrations[n];
      assert integrations[n..][1..] == integrations[n + 1..];
      if i.id !in table {
        RecordAppend(ids, kept, i);
        assert table[i.id := (i.path, i.index)].Keys == table.Keys + {i.id};
        Regroup(kept, i, Fresh(integrations[n + 1..], table.Keys + {i.id}));
        kept := kept + [i];
        table := table[i.id := (i.path, i.index)];
      }
    }
  }

  lemma Regroup(a: seq<Item>, x: Item, b: seq<Item>)
    ensures a + ([x] + b) == (a + [x]) + b
  {
  }

  lemma {:induction false} RecordAppend(ids: Ids, items: seq<Item>, x: Item)
    ensures Record(ids, items + [x]) == Record(ids, items)[x.id := (x.path, x.index)]
    decreases |items|
  {
    if items == [] {
      assert items + [x] == [x] && [x][1..] == [];
    } else {
      assert (items + [x])[0] == items[0] && (items + [x])[1..] == items[1..] + [x];
      RecordAppend(ids[items[0].id := (items[0].path, items[0].index)], items[1..], x);
    }
  }

  ghost predicate HasId(items: seq<Item>, id: string) {
    exists i | 0 <= i < |items| :: items[i].id == id
  }

  predicate DistinctIds(items: seq<Item>) {
    forall i, j | 0 <= i < j < |items| :: items[i].id != items[j].id
  }

  lemma {:induction false} FreshIds(items: seq<Item>, ids: set<string>, id: string)
    ensures HasId(Fresh(items, ids), id) <==> HasId(items, id) && id !in ids
    decreases |items|
  {
    if items != [] {
      var rest := items[1..];
      HasIdCons(items[0], rest, id);
      assert items == [items[0]] + rest;
      if items[0].id in ids {
        FreshIds(rest, ids, id);
      } else {
        FreshIds(rest, ids + {items[0].id}, id);
        HasIdCons(items[0], Fresh(rest, ids + {items[0].id}), id);
      }
    }
  }

  lemma HasIdCons(x: Item, items: seq<Item>, id: string)
    ensures HasId([x] + items, id) <==> x.id == id || HasId(items, id)
  {
    if HasId(items, id) {
      var i :| 0 <= i < |items| && items[i].id == id;
      assert ([x] + items)[i + 1].id == id;
    }
    if x.id == id {
      assert ([x] + items)[0].id == id;
    }
  }

  lemma {:induction false} FreshDistinct(items: seq<Item>, ids: set<string>)
    ensures DistinctIds(Fresh(items, ids))
    decreases |items|
  {
    if items != [] {
      if items[0].id in ids {
        FreshDistinct(items[1..], ids);
      } else {
        var more := ids + {items[0].id};
        FreshDistinct(items[1..], more);
        FreshIds(items[1..], more, items[0].id);
        var rest := Fresh(items[1..], more);
        assert forall i | 0 <= i < |rest| :: rest[i].id != items[0].id;
      }
    }
  }

  /** The item at `n` is the first one with its id. */
  predicate FirstOfId(items: seq<Item>, n: nat) {
    n < |items| && forall i | 0 <= i < n :: items[i].id != items[n].id
  }

  /** A kept item is the first one with its id. */
  lemma {:induction false} FreshIsFirst(items: seq<Item>, ids: set<string>, x: Item) returns (n: nat)
    requires x in Fresh(items, ids)
    ensures x.id !in ids && FirstOfId(items, n) && items[n] == x
    decreases |items|
  {
    var more := ids + {items[0].id};
    if items[0].id !in ids && x == items[0] {
      n := 0;
    } else {
      var m := FreshIsFirst(items[1..], if items[0].id in ids then ids else more, x);
      n := m + 1;
      assert forall i | 0 < i < |items| :: items[i] == items[1..][i - 1];
    }
  }

  lemma {:induction false} RecordIds(ids: Ids, items: seq<Item>, id: string)
    ensures id in Record(ids, items) <==> id in ids || HasId(items, id)
    decreases |items|
  {
    if items != [] {
      RecordIds(ids[items[0].id := (items[0].path, items[0].index)], items[1..], id);
      assert items == [items[0]] + items[1..];
      HasIdCons(items[0], items[1..], id);
    }
  }

  lemma {:induction false} RecordKeeps(ids: Ids, items: seq<Item>, id: string)
    requires id in ids && !HasId(items, id)
    ensures id in Record(ids, items) && Record(ids, items)[id] == ids[id]
    decreases |items|
  {
    if items != [] {
      assert items == [items[0]] + items[1..];
      HasIdCons(items[0], items[1..], id);
      RecordKeeps(ids[items[0].id := (items[0].path, items[0].index)], items[1..], id);
    }
  }

  /** The table tells where each kept item is defined. */
  lemma {:induction false} RecordWhere(ids: Ids, items: seq<Item>, n: nat)
    requires DistinctIds(items) && n < |items|
    ensures items[n].id in Record(ids, items)
    ensures Record(ids, items)[items[n].id] == (items[n].path, items[n].index)
    decreases |items|
  {
    var x, rest := items[0], items[1..];
    var table := ids[x.id := (x.path, x.index)];
    if n == 0 {
      assert !HasId(rest, x.id);
      RecordKeeps(table, rest, x.id);
    } else {
      RecordWhere(table, rest, n - 1);
    }
  }

  // ---- the passes over the kinds of integrations -----------------------------------------------------

  /** The lists kept and the id table after the first `k` kinds. */
  function Passes(kinds: seq<seq<Item>>, k: nat): (r: (seq<seq<Item>>, Ids))
    requires k <= |kinds|
    ensures |r.0| == k
  {
    if k == 0 then ([], map[])
    else
      var (kept, ids) := Passes(kinds, k - 1);
      var added := Fresh(SortIntegrations(kinds[k - 1]), ids.Keys);
      (kept + [added], Record(ids, added))
  }

  lemma SortedIntegrations(s: seq<Item>)
    ensures StableSort(s, SortIntegrations(s), FULL_ORDER)
    ensures forall x :: x in SortIntegrations(s) <==> x in s
  {
    var r1 := Sort(s, ByIndex);
    var r2 := Sort(r1, ByPath);
    var r3 := Sort(r2, ById);
    SortIsStable(s, ByIndex);
    SortIsStable(r1, ByPath);
    SortIsStable(r2, ById);
    ThreeSortsAreOne(s, r1, r2, r3);
    forall x
      ensures x in r3 <==> x in s
    {
      StableMembers(s, r3, FULL_ORDER, x);
    }
  }

  lemma SortedHasId(s: seq<Item>, id: string)
    ensures HasId(SortIntegrations(s), id) <==> HasId(s, id)
  {
    SortedIntegrations(s);
    var r := SortIntegrations(s);
    if HasId(s, id) {
      var i :| 0 <= i < |s| && s[i].id == id;
      assert s[i] in r;
    }
    if HasId(r, id) {
      var i :| 0 <= i < |r| && r[i].id == id;
      assert r[i] in s;
    }
  }

  ghost predicate Defined(kinds: seq<seq<Item>>, k: nat, id: string)
    requires k <= |kinds|
  {
    exists g | 0 <= g < k :: HasId(kinds[g], id)
  }

  lemma {:induction false} TableIsDefined(kinds: seq<seq<Item>>, k: nat, id: string)
    requires k <= |kinds|
    ensures id in Passes(kinds, k).1 <==> Defined(kinds, k, id)
  {
    if k > 0 {
      TableIsDefined(kinds, k - 1, id);
      var ids := Passes(kinds, k - 1).1;
      var sorted := SortIntegrations(kinds[k - 1]);
      RecordIds(ids, Fresh(sorted, ids.Keys), id);
      FreshIds(sorted, ids.Keys, id);
      SortedHasId(kinds[k - 1], id);
    }
  }

  /** The list kept of kind `g` is settled in pass `g` and not touched by later passes. */
  lemma {:induction false} KeptOfKind(kinds: seq<seq<Item>>, k: nat, g: nat)
    requires g < k <= |kinds|
    ensures Passes(kinds, k).0[g] == Fresh(SortIntegrations(kinds[g]), Passes(kinds, g).1.Keys)
  {
    var kept := Passes(kinds, k - 1).0;
    if g < k - 1 {
      KeptOfKind(kinds, k - 1, g);
      assert Passes(kinds, k).0[g] == kept[g];
    }
  }

  /** No id is lost: it is kept in the first kind that defines it. */
  lemma NoIdLost(kinds: seq<seq<Item>>, g: nat, id: string)
    requires g < |kinds|
    ensures HasId(Passes(kinds, |kinds|).0[g], id) <==> HasId(kinds[g], id) && !Defined(kinds, g, id)
  {
    KeptOfKind(kinds, |kinds|, g);
    FreshIds(SortIntegrations(kinds[g]), Passes(kinds, g).1.Keys, id);
    SortedHasId(kinds[g], id);
    TableIsDefined(kinds, g, id);
  }

  const PLACE: Key := Then(ByPath, ByIndex)

  /** `a` is defined before `b`: in an earlier path, or earlier in the same file. */
  ghost predicate PlacedBefore(a: Item, b: Item) {
    PathBefore(a.path, b.path) || (a.path == b.path && a.index < b.index)
  }

  /** The order of the sort, key by key. */
  lemma PlaceMeans(a: Item, b: Item)
    ensures Leq(PLACE, a, b) <==> !PlacedBefore(b, a)
    ensures Same(PLACE, a, b) <==> a.path == b.path && a.index == b.index
  {
    PathLeqMeans(a.path, b.path);
    PathLeqMeans(b.path, a.path);
    PathTotal(a.path, b.path);
    assert Leq(ByPath, a, b) <==> PathLeq(a.path, b.path);
    assert Leq(ByPath, b, a) <==> PathLeq(b.path, a.path);
    assert Leq(ByIndex, a, b) <==> a.index <= b.index;
    assert Leq(ByIndex, b, a) <==> b.index <= a.index;
  }

  /** The item at `i` is the first one loaded with its id and its place. */
  predicate LoadedFirst(items: seq<Item>, i: nat) {
    i < |items| && forall j | 0 <= j < i ::
      !(items[j].id == items[i].id && items[j].path == items[i].path && items[j].index == items[i].index)
  }

  /**
   `x` is a survivor: no earlier kind defines its id, in its own kind no definition of the id is placed before it, and
   among definitions at the same place it was loaded first.
   */
  ghost predicate Survivor(kinds: seq<seq<Item>>, g: nat, x: Item)
    requires g < |kinds|
  {
    && !Defined(kinds, g, x.id)
    && (forall y | y in kinds[g] && y.id == x.id :: !PlacedBefore(y, x))
    && (exists i | 0 <= i < |kinds[g]| :: kinds[g][i] == x && LoadedFirst(kinds[g], i))
  }

  /** The same in terms of the sort: `x` comes first in its kind, and heads the items that compare equal. */
  ghost predicate SortsFirst(items: seq<Item>, x: Item) {
    && x in items
    && (forall y | y in items && y.id == x.id :: Leq(PLACE, x, y))
    && Class(items, FULL_ORDER, x) != [] && Class(items, FULL_ORDER, x)[0] == x
  }

  lemma SameMeans(a: Item, b: Item)
    ensures Same(FULL_ORDER, a, b) <==> a.id == b.id && a.path == b.path && a.index == b.index
  {
    FullOrderMeans(a, b);
    FullOrderMeans(b, a);
    StringTotal(a.id, b.id);
    PlaceMeans(a, b);
  }

  lemma {:induction false} HeadIsLoadedFirst(items: seq<Item>, x: Item) returns (i: nat)
    requires Class(items, FULL_ORDER, x) != [] && Class(items, FULL_ORDER, x)[0] == x
    ensures i < |items| && items[i] == x && LoadedFirst(items, i)
    decreases |items|
  {
    SameMeans(items[0], x);
    if Same(FULL_ORDER, items[0], x) {
      i := 0;
    } else {
      var k := HeadIsLoadedFirst(items[1..], x);
      i := k + 1;
      assert forall j | 0 < j < |items| :: items[j] == items[1..][j - 1];
    }
  }

  lemma {:induction false} LoadedFirstIsHead(items: seq<Item>, i: nat)
    requires LoadedFirst(items, i)
    ensures Class(items, FULL_ORDER, items[i]) != [] && Class(items, FULL_ORDER, items[i])[0] == items[i]
    decreases |items|
  {
    SameMeans(items[0], items[i]);
    if i > 0 {
      assert LoadedFirst(items[1..], i - 1);
      LoadedFirstIsHead(items[1..], i - 1);
    }
  }

  lemma SurvivorSortsFirst(kinds: seq<seq<Item>>, g: nat, x: Item)
    requires g < |kinds|
    ensures Survivor(kinds, g, x) <==> !Defined(kinds, g, x.id) && SortsFirst(kinds[g], x)
  {
    var items := kinds[g];
    forall y | y in items && y.id == x.id
      ensures Leq(PLACE, x, y) <==> !PlacedBefore(y, x)
    {
      PlaceMeans(x, y);
    }
    if SortsFirst(items, x) {
      var i := HeadIsLoadedFirst(items, x);
    }
    if i :| 0 <= i < |items| && items[i] == x && LoadedFirst(items, i) {
      LoadedFirstIsHead(items, i);
    }
  }

  lemma FullOrderMeans(a: Item, b: Item)
    ensures Leq(FULL_ORDER, a, b) <==> StringLeq(a.id, b.id) && (StringLeq(b.id, a.id) ==> Leq(PLACE, a, b))
  {
    assert Leq(ById, a, b) <==> StringLeq(a.id, b.id);
    assert Leq(ById, b, a) <==> StringLeq(b.id, a.id);
  }

  lemma FirstIsLeast(s: seq<Item>, n: nat, y: Item)
    requires Sorted(s, FULL_ORDER) && FirstOfId(s, n) && y in s && y.id == s[n].id
    ensures Leq(PLACE, s[n], y)
  {
    var m :| 0 <= m < |s| && s[m] == y;
    StringTotal(y.id, y.id);
    if m == n {
      Total(PLACE, y, y);
    } else {
      assert Leq(FULL_ORDER, s[n], s[m]);
      FullOrderMeans(s[n], s[m]);
    }
  }

  lemma {:induction false} FirstHeadsClass(s: seq<Item>, n: nat)
    requires FirstOfId(s, n)
    ensures Class(s, FULL_ORDER, s[n]) != [] && Class(s, FULL_ORDER, s[n])[0] == s[n]
    decreases |s|
  {
    Reflexive(FULL_ORDER, s[n]);
    if n > 0 {
      StringTotal(s[0].id, s[n].id);
      FullOrderMeans(s[0], s[n]);
      FullOrderMeans(s[n], s[0]);
      assert FirstOfId(s[1..], n - 1);
      FirstHeadsClass(s[1..], n - 1);
    }
  }

  lemma SurvivorsAreFirst(kinds: seq<seq<Item>>, g: nat, x: Item)
    requires g < |kinds| && x in Passes(kinds, |kinds|).0[g]
    ensures !Defined(kinds, g, x.id) && SortsFirst(kinds[g], x)
  {
    var sorted := SortIntegrations(kinds[g]);
    KeptOfKind(kinds, |kinds|, g);
    TableIsDefined(kinds, g, x.id);
    var n := FreshIsFirst(sorted, Passes(kinds, g).1.Keys, x);
    SortedIntegrations(kinds[g]);
    forall y | y in kinds[g] && y.id == x.id
      ensures Leq(PLACE, x, y)
    {
      FirstIsLeast(sorted, n, y);
    }
    FirstHeadsClass(sorted, n);
  }

  lemma FirstUnique(items: seq<Item>, x: Item, y: Item)
    requires SortsFirst(items, x) && SortsFirst(items, y) && x.id == y.id
    ensures x == y
  {
    StringTotal(x.id, y.id);
    FullOrderMeans(x, y);
    FullOrderMeans(y, x);
    SameClass(items, FULL_ORDER, x, y);
  }

  lemma {:induction false} SameClass(s: seq<Item>, k: Key, x: Item, y: Item)
    requires Same(k, x, y)
    ensures Class(s, k, x) == Class(s, k, y)
    decreases |s|
  {
    if s != [] {
      SameClass(s[1..], k, x, y);
      if Same(k, s[0], x) {
        Transitive(k, s[0], x, y);
        Transitive(k, y, x, s[0]);
      }
      if Same(k, s[0], y) {
        Transitive(k, s[0], y, x);
        Transitive(k, x, y, s[0]);
      }
    }
  }

  /** What is kept of each kind are exactly the survivors. */
  lemma SurvivorsExactly(kinds: seq<seq<Item>>, g: nat, x: Item)
    requires g < |kinds|
    ensures x in Passes(kinds, |kinds|).0[g] <==> Survivor(kinds, g, x)
  {
    var kept := Passes(kinds, |kinds|).0[g];
    SurvivorSortsFirst(kinds, g, x);
    if x in kept {
      SurvivorsAreFirst(kinds, g, x);
    } else if Survivor(kinds, g, x) {
      var i :| 0 <= i < |kinds[g]| && kinds[g][i] == x;
      assert HasId(kinds[g], x.id);
      NoIdLost(kinds, g, x.id);
      var j :| 0 <= j < |kept| && kept[j].id == x.id;
      SurvivorsAreFirst(kinds, g, kept[j]);
      FirstUnique(kinds[g], x, kept[j]);
      assert false;
    }
  }

  // ---- the order of the output -------------------------------------------------------------------------

  lemma {:induction false} FreshKeepsSorted(items: seq<Item>, ids: set<string>, k: Key)
    requires Sorted(items, k)
    ensures Sorted(Fresh(items, ids), k)
    decreases |items|
  {
    if items != [] {
      var more := if items[0].id in ids then ids else ids + {items[0].id};
      var kept := Fresh(items[1..], more);
      FreshKeepsSorted(items[1..], more, k);
      forall y | y in kept
        ensures Leq(k, items[0], y)
      {
        var n := FreshIsFirst(items[1..], more, y);
        assert items[1..][n] == items[n + 1];
      }
      SortedCons(items[0], kept, k);
    }
  }

  /** What is kept of a kind is in the order of the ids. */
  lemma KeptInOrder(kinds: seq<seq<Item>>, g: nat, i: nat, j: nat)
    requires g < |kinds| && i < j < |Passes(kinds, |kinds|).0[g]|
    ensures var kept := Passes(kinds, |kinds|).0[g]; StringBefore(kept[i].id, kept[j].id)
  {
    var kept, sorted, ids := Passes(kinds, |kinds|).0[g], SortIntegrations(kinds[g]), Passes(kinds, g).1.Keys;
    KeptOfKind(kinds, |kinds|, g);
    SortedIntegrations(kinds[g]);
    FreshKeepsSorted(sorted, ids, FULL_ORDER);
    FreshDistinct(sorted, ids);
    assert Leq(FULL_ORDER, kept[i], kept[j]);
    FullOrderMeans(kept[i], kept[j]);
    StringLeqMeans(kept[i].id, kept[j].id);
  }

  function Concat(lists: seq<seq<Item>>): seq<Item> {
    if lists == [] then [] else Concat(lists[..|lists| - 1]) + lists[|lists| - 1]
  }

  /** Lists are joined in their order. */
  lemma {:induction false} ConcatJoins(a: seq<seq<Item>>, b: seq<seq<Item>>)
    ensures Concat(a + b) == Concat(a) + Concat(b)
    ensures forall list :: Concat([list]) == list
    decreases |b|
  {
    forall list: seq<Item>
      ensures Concat([list]) == list
    {
      assert [list][..0] == [];
      assert [] + list == list;
    }
    if b == [] {
      assert a + b == a && Concat(a) + [] == Concat(a);
    } else {
      var n := |b| - 1;
      ConcatJoins(a, b[..n]);
      assert (a + b)[..|a| + n] == a + b[..n];
      assert Concat(a) + Concat(b[..n]) + b[n] == Concat(a) + (Concat(b[..n]) + b[n]);
    }
  }

  lemma {:induction false} ConcatHasId(lists: seq<seq<Item>>, id: string)
    ensures HasId(Concat(lists), id) <==> exists g | 0 <= g < |lists| :: HasId(lists[g], id)
    decreases |lists|
  {
    if lists != [] {
      var n := |lists| - 1;
      ConcatHasId(lists[..n], id);
      HasIdConcat(Concat(lists[..n]), lists[n], id);
      assert forall g | 0 <= g < n :: lists[..n][g] == lists[g];
    }
  }

  lemma HasIdConcat(a: seq<Item>, b: seq<Item>, id: string)
    ensures HasId(a + b, id) <==> HasId(a, id) || HasId(b, id)
  {
    if HasId(a, id) {
      var i :| 0 <= i < |a| && a[i].id == id;
      assert (a + b)[i].id == id;
    }
    if HasId(b, id) {
      var i :| 0 <= i < |b| && b[i].id == id;
      assert (a + b)[|a| + i].id == id;
    }
  }

  lemma {:induction false} PassesDistinct(kinds: seq<seq<Item>>, k: nat)
    requires k <= |kinds|
    ensures DistinctIds(Concat(Passes(kinds, k).0))
    ensures forall id :: HasId(Concat(Passes(kinds, k).0), id) <==> id in Passes(kinds, k).1
  {
    if k > 0 {
      var (kept, ids) := Passes(kinds, k - 1);
      var sorted := SortIntegrations(kinds[k - 1]);
      var added := Fresh(sorted, ids.Keys);
      PassesDistinct(kinds, k - 1);
      assert (kept + [added])[..k - 1] == kept;
      FreshDistinct(sorted, ids.Keys);
      forall id
        ensures HasId(Concat(kept) + added, id) <==> id in Record(ids, added)
        ensures HasId(added, id) ==> !HasId(Concat(kept), id)
      {
        HasIdConcat(Concat(kept), added, id);
        RecordIds(ids, added, id);
        FreshIds(sorted, ids.Keys, id);
      }
      DistinctConcat(Concat(kept), added);
    }
  }

  lemma DistinctConcat(a: seq<Item>, b: seq<Item>)
    requires DistinctIds(a) && DistinctIds(b)
    requires forall id :: HasId(b, id) ==> !HasId(a, id)
    ensures DistinctIds(a + b)
  {
    var s := a + b;
    forall i, j | 0 <= i < j < |s|
      ensures s[i].id != s[j].id
    {
      if i < |a| <= j {
        assert a[i].id == s[i].id && b[j - |a|].id == s[j].id;
        assert HasId(b, s[j].id);
      }
    }
  }

  /** All ids of the output are distinct across the kinds, and they are exactly the ids of the input. */
  lemma OutputIds(kinds: seq<seq<Item>>)
    ensures DistinctIds(Concat(Passes(kinds, |kinds|).0))
    ensures forall id :: HasId(Concat(Passes(kinds, |kinds|).0), id) <==> Defined(kinds, |kinds|, id)
  {
    PassesDistinct(kinds, |kinds|);
    forall id
      ensures HasId(Concat(Passes(kinds, |kinds|).0), id) <==> Defined(kinds, |kinds|, id)
    {
      TableIsDefined(kinds, |kinds|, id);
    }
  }

  /** A list that is sorted in place. */
  class IntegrationList {
    var items: seq<Item>

    constructor (items: seq<Item>)
      ensures this.items == items
    {
      this.items := items;
    }

    /** `list.sort` with one key */
    method SortBy(k: Key)
      modifies this
      ensures items == Sort(old(items), k) && StableSort(old(items), items, k)
    {
      SortIsStable(items, k);
      items := Sort(items, k);
    }

    /** `sort_integrations` */
    method SortAll()
      modifies this
      ensures items == SortIntegrations(old(items)) == Sort(old(items), FULL_ORDER)
    {
      SortBy(ByIndex);
      ghost var r1 := items;
      SortBy(ByPath);
      ghost var r2 := items;
      SortBy(ById);
      ThreeSortsAreOne(old(items), r1, r2, items);
    }
  }

  /** The sort and the de-duplication of `main`, one kind after the other with one id table. */
  method Generate(kinds: seq<seq<Item>>) returns (integrations: seq<Item>)
    ensures integrations == Concat(Passes(kinds, |kinds|).0)
    ensures DistinctIds(integrations)
  {
    integrations := [];
    var ids: Ids := map[];
    for k := 0 to |kinds|
      invariant integrations == Concat(Passes(kinds, k).0) && ids == Passes(kinds, k).1
    {
      var list := new IntegrationList(kinds[k]);
      list.SortAll();
      var kept;
      kept, ids := DedupeIntegrations(list.items, ids);
      assert Passes(kinds, k + 1).0[..k] == Passes(kinds, k).0;
      integrations := integrations + kept;
    }
    OutputIds(kinds);
  }
}
