/** The `vault_items` table and its data-access object, as an in-memory map
    from primary key to row. */
module Database {
  import opened Wrappers
  import opened ItemCategory

  /** One row of `vault_items`. An `id` of 0 means "not yet assigned". */
  datatype VaultItemEntity = VaultItemEntity(
    id: int,
    title: string,
    encryptedContent: string,
    category: ItemCategory,
    scannedImagePath: Option<string>,
    createdAt: int,
    updatedAt: int)

  type Table = map<int, VaultItemEntity>

  /** Some key of the table holds this row. */
  predicate Stored(table: Table, e: VaultItemEntity) {
    exists k :: k in table && table[k] == e
  }

  // ----- Ordering: ORDER BY updatedAt DESC -----

  predicate IsLeast(s: set<int>, k: int) {
    k in s && forall x :: x in s ==> k <= x
  }

  lemma LeastExists(s: set<int>)
    requires s != {}
    ensures exists k :: IsLeast(s, k)
  {
    if forall x :: x !in s {
      assert false;
    }
    var x :| x in s;
    if s != {x} {
      LeastExists(s - {x});
      var y :| IsLeast(s - {x}, y);
      var m := if x < y then x else y;
      forall z | z in s ensures m <= z {
        if z != x {
          assert z in s - {x};
        }
      }
      assert IsLeast(s, m);
    } else {
      assert IsLeast(s, x);
    }
  }

  /** The smallest key of a non-empty key set. */
  function MinKey(s: set<int>): (k: int)
    requires s != {}
    ensures IsLeast(s, k)
  {
    LeastExists(s);
    var k :| IsLeast(s, k);
    k
  }

  /** The keys in ascending order: the order in which the table is scanned. */
  function SortedKeys(s: set<int>): (ks: seq<int>)
    ensures |ks| == |s|
    ensures forall k :: k in ks <==> k in s
    ensures forall i, j :: 0 <= i < j < |ks| ==> ks[i] < ks[j]
    decreases |s|
  {
    if s == {} then []
    else
      var k := MinKey(s);
      [k] + SortedKeys(s - {k})
  }

  /** The rows stored under `ks`, in that order. */
  function RowsAt(table: Table, ks: seq<int>): (r: seq<VaultItemEntity>)
    requires forall i :: 0 <= i < |ks| ==> ks[i] in table
    ensures |r| == |ks|
    ensures forall i :: 0 <= i < |ks| ==> r[i] == table[ks[i]]
  {
    if ks == [] then [] else [table[ks[0]]] + RowsAt(table, ks[1..])
  }

  /** Every row of the table, once each, in key order. */
  function Scan(table: Table): (r: seq<VaultItemEntity>)
    ensures |r| == |table|
    ensures forall e :: e in r <==> Stored(table, e)
    ensures KeysMatchIds(table) ==> DistinctIds(r)
  {
    var ks := SortedKeys(table.Keys);
    KeysInTable(table, ks);
    var r := RowsAt(table, ks);
    ScanComplete(table, ks, r);
    ScanDistinct(table, ks, r);
    r
  }

  lemma KeysInTable(table: Table, ks: seq<int>)
    requires forall k :: k in ks ==> k in table
    ensures forall i :: 0 <= i < |ks| ==> ks[i] in table
  {
    forall i | 0 <= i < |ks| ensures ks[i] in table {
      var k := ks[i];
      assert k in ks;
    }
  }

  lemma ScanComplete(table: Table, ks: seq<int>, r: seq<VaultItemEntity>)
    requires forall k :: k in table ==> k in ks
    requires forall i :: 0 <= i < |ks| ==> ks[i] in table
    requires |r| == |ks| && forall i :: 0 <= i < |ks| ==> r[i] == table[ks[i]]
    ensures forall e :: e in r <==> Stored(table, e)
  {
    forall e | Stored(table, e) ensures e in r {
      var k :| k in table && table[k] == e;
      assert k in ks;
      var i :| 0 <= i < |ks| && ks[i] == k;
      assert r[i] == e;
    }
    forall e | e in r ensures Stored(table, e) {
      var i :| 0 <= i < |r| && r[i] == e;
      var k := ks[i];
      assert k in table && table[k] == e;
    }
  }

  lemma ScanDistinct(table: Table, ks: seq<int>, r: seq<VaultItemEntity>)
    requires forall i, j :: 0 <= i < j < |ks| ==> ks[i] < ks[j]
    requires forall i :: 0 <= i < |ks| ==> ks[i] in table
    requires |r| == |ks| && forall i :: 0 <= i < |ks| ==> r[i] == table[ks[i]]
    ensures KeysMatchIds(table) ==> DistinctIds(r)
  {
  }

  /** Every row is stored under its own id. */
  predicate KeysMatchIds(table: Table) {
    forall k :: k in table ==> table[k].id == k
  }

  predicate DistinctIds(s: seq<VaultItemEntity>) {
    forall i, j :: 0 <= i < j < |s| ==> s[i].id != s[j].id
  }

  predicate SortedByUpdatedDesc(s: seq<VaultItemEntity>) {
    forall i, j :: 0 <= i < j < |s| ==> s[i].updatedAt >= s[j].updatedAt
  }

  /** Prepending a row keeps the order when no later row is newer. */
  lemma ConsSorted(x: VaultItemEntity, s: seq<VaultItemEntity>)
    requires SortedByUpdatedDesc(s)
    requires forall y :: y in s ==> y.updatedAt <= x.updatedAt
    ensures SortedByUpdatedDesc([x] + s)
  {
    forall i, j | 0 <= i < j < |[x] + s| ensures ([x] + s)[i].updatedAt >= ([x] + s)[j].updatedAt {
      assert ([x] + s)[j] == s[j - 1];
      if i > 0 {
        assert ([x] + s)[i] == s[i - 1];
      } else {
        assert s[j - 1] in s;
      }
    }
  }

  /** Prepending a row keeps ids distinct when no later row shares its id. */
  lemma ConsDistinct(x: VaultItemEntity, s: seq<VaultItemEntity>)
    ensures DistinctIds(s) && (forall y :: y in s ==> y.id != x.id) ==> DistinctIds([x] + s)
  {
    if DistinctIds(s) && (forall y :: y in s ==> y.id != x.id) {
      forall i, j | 0 <= i < j < |[x] + s| ensures ([x] + s)[i].id != ([x] + s)[j].id {
        assert ([x] + s)[j] == s[j - 1];
        if i > 0 {
          assert ([x] + s)[i] == s[i - 1];
        } else {
          assert s[j - 1] in s;
        }
      }
    }
  }

  /** Places `e` before the first row that is not newer than it. */
  function Insert(e: VaultItemEntity, s: seq<VaultItemEntity>): (r: seq<VaultItemEntity>)
    requires SortedByUpdatedDesc(s)
    ensures SortedByUpdatedDesc(r)
    ensures multiset(r) == multiset(s) + multiset{e}
  {
    if s == [] || e.updatedAt >= s[0].updatedAt then
      ConsSorted(e, s);
      [e] + s
    else
      var rest := Insert(e, s[1..]);
      InsertBehindHead(e, s, rest);
      [s[0]] + rest
  }

  /** The recursive case of `Insert`: the head stays in front of a sorted
      rest that holds the other rows and `e`, all of them no newer. */
  lemma InsertBehindHead(e: VaultItemEntity, s: seq<VaultItemEntity>, rest: seq<VaultItemEntity>)
    requires SortedByUpdatedDesc(s) && s != [] && e.updatedAt < s[0].updatedAt
    requires SortedByUpdatedDesc(rest) && multiset(rest) == multiset(s[1..]) + multiset{e}
    ensures SortedByUpdatedDesc([s[0]] + rest)
    ensures multiset([s[0]] + rest) == multiset(s) + multiset{e}
  {
    assert s == [s[0]] + s[1..];
    forall x | x in rest ensures x.updatedAt <= s[0].updatedAt {
      assert x in multiset(rest);
      if x != e {
        assert x in multiset(s[1..]);
        var i :| 0 <= i < |s[1..]| && s[1..][i] == x;
        assert s[i + 1] == x;
      }
    }
    ConsSorted(s[0], rest);
  }

  /** `ORDER BY updatedAt DESC`: a permutation of the rows, newest first. */
  function SortByUpdatedDesc(s: seq<VaultItemEntity>): (r: seq<VaultItemEntity>)
    ensures SortedByUpdatedDesc(r)
    ensures multiset(r) == multiset(s)
  {
    if s == [] then []
    else
      assert s == [s[0]] + s[1..];
      Insert(s[0], SortByUpdatedDesc(s[1..]))
  }

  /** Removing the row at `k` removes one copy of it. */
  lemma RemoveAtMultiset(s: seq<VaultItemEntity>, k: int)
    requires 0 <= k < |s|
    ensures multiset(s[..k] + s[k + 1..]) == multiset(s) - multiset{s[k]}
  {
    assert s == s[..k] + [s[k]] + s[k + 1..];
    assert multiset(s) == multiset(s[..k]) + multiset{s[k]} + multiset(s[k + 1..]);
  }

  /** Removing the row at `k` keeps the other rows' ids distinct and leaves
      no other row with its id. */
  lemma RemoveAtDistinct(s: seq<VaultItemEntity>, k: int)
    requires 0 <= k < |s| && DistinctIds(s)
    ensures DistinctIds(s[..k] + s[k + 1..])
    ensures forall y :: y in s[..k] + s[k + 1..] ==> y.id != s[k].id
  {
    var s' := s[..k] + s[k + 1..];
    forall i | 0 <= i < |s'| ensures s'[i] == s[if i < k then i else i + 1] {
    }
    forall i, j | 0 <= i < j < |s'| ensures s'[i].id != s'[j].id {
      assert s'[i] == s[if i < k then i else i + 1];
      assert s'[j] == s[if j < k then j else j + 1];
    }
    forall y | y in s' ensures y.id != s[k].id {
      var m :| 0 <= m < |s'| && s'[m] == y;
      assert s'[m] == s[if m < k then m else m + 1];
    }
  }

  /** Rows with distinct ids stay distinct under any permutation. */
  lemma {:induction false} PermutationKeepsDistinct(s: seq<VaultItemEntity>, r: seq<VaultItemEntity>)
    requires multiset(r) == multiset(s) && DistinctIds(s)
    ensures DistinctIds(r)
    decreases |r|
  {
    if r != [] {
      var x := r[0];
      assert r == [x] + r[1..];
      assert x in multiset(s);
      var k :| 0 <= k < |s| && s[k] == x;
      RemoveAtMultiset(s, k);
      RemoveAtDistinct(s, k);
      var s' := s[..k] + s[k + 1..];
      assert multiset(r[1..]) == multiset(r) - multiset{x};
      PermutationKeepsDistinct(s', r[1..]);
      forall y | y in r[1..] ensures y.id != x.id {
        assert y in multiset(s');
      }
      ConsDistinct(x, r[1..]);
    }
  }

  // ----- The WHERE clauses -----

  /** ASCII case folding, which is all SQLite's default LIKE folds. */
  function Fold(c: char): char {
    if 'A' <= c <= 'Z' then (c as int + 32) as char else c
  }

  /** `t LIKE p` with no ESCAPE clause: `%` matches any run of characters,
      `_` any one character, every other character itself up to ASCII case. */
  predicate LikeMatch(t: string, p: string)
    decreases |t|, |p|
  {
    if p == [] then t == []
    else if p[0] == '%' then LikeMatch(t, p[1..]) || (t != [] && LikeMatch(t[1..], p))
    else if p[0] == '_' then t != [] && LikeMatch(t[1..], p[1..])
    else t != [] && Fold(t[0]) == Fold(p[0]) && LikeMatch(t[1..], p[1..])
  }

  predicate NoWildcards(q: string) {
    forall i :: 0 <= i < |q| ==> q[i] != '%' && q[i] != '_'
  }

  predicate EqualsIgnoringCase(a: string, b: string) {
    |a| == |b| && forall i :: 0 <= i < |a| ==> Fold(a[i]) == Fold(b[i])
  }

  /** `q` occurs in `t` at position `i`, up to ASCII case. */
  predicate OccursAt(t: string, q: string, i: int) {
    0 <= i <= |t| - |q| && EqualsIgnoringCase(t[i..i + |q|], q)
  }

  /** `q` occurs somewhere in `t`, up to ASCII case. */
  predicate ContainsIgnoringCase(t: string, q: string) {
    exists i :: 0 <= i <= |t| - |q| && OccursAt(t, q, i)
  }

  lemma {:induction false} PercentMatchesAll(t: string)
    ensures LikeMatch(t, "%")
  {
    if t != [] {
      PercentMatchesAll(t[1..]);
    }
  }

  /** A wildcard-free `q` followed by `%` matches the texts that start with `q`. */
  lemma {:induction false} PrefixMatch(t: string, q: string)
    requires NoWildcards(q)
    ensures LikeMatch(t, q + "%") <==> |q| <= |t| && EqualsIgnoringCase(t[..|q|], q)
  {
    if q == [] {
      assert q + "%" == "%";
      PercentMatchesAll(t);
    } else {
      assert (q + "%")[0] == q[0];
      assert (q + "%")[1..] == q[1..] + "%";
      assert NoWildcards(q[1..]);
      if t != [] {
        PrefixMatch(t[1..], q[1..]);
        if |q| <= |t| {
          assert t[1..][..|q| - 1] == t[..|q|][1..];
          if EqualsIgnoringCase(t[..|q|], q) {
            assert EqualsIgnoringCase(t[1..][..|q| - 1], q[1..]);
          } else if Fold(t[0]) == Fold(q[0]) && EqualsIgnoringCase(t[1..][..|q| - 1], q[1..]) {
            forall i | 0 <= i < |q| ensures Fold(t[..|q|][i]) == Fold(q[i]) {
              if i > 0 {
                assert t[..|q|][i] == t[1..][..|q| - 1][i - 1];
              }
            }
          }
        }
      }
    }
  }

  /** Some suffix of `t`, `t` itself or the empty one included, matches `p`. */
  predicate SomeSuffixMatches(t: string, p: string) {
    exists i :: 0 <= i <= |t| && LikeMatch(t[i..], p)
  }

  lemma SuffixStep(t: string, p: string)
    requires t != []
    ensures SomeSuffixMatches(t, p) <==> LikeMatch(t, p) || SomeSuffixMatches(t[1..], p)
  {
    assert t[0..] == t;
    if SomeSuffixMatches(t, p) {
      var i :| 0 <= i <= |t| && LikeMatch(t[i..], p);
      if i > 0 {
        assert t[1..][i - 1..] == t[i..];
      }
    }
    if SomeSuffixMatches(t[1..], p) {
      var i :| 0 <= i <= |t[1..]| && LikeMatch(t[1..][i..], p);
      assert t[1..][i..] == t[i + 1..];
    }
  }

  /** A leading `%` lets the rest of the pattern match any suffix. */
  lemma {:induction false} LeadingPercent(t: string, p: string)
    ensures LikeMatch(t, "%" + p) <==> SomeSuffixMatches(t, p)
  {
    assert ("%" + p)[0] == '%' && ("%" + p)[1..] == p;
    if t == [] {
      assert t[0..] == t;
    } else {
      LeadingPercent(t[1..], p);
      SuffixStep(t, p);
    }
  }

  /** `title LIKE '%' || q || '%'` is case-insensitive containment of `q`
      whenever `q` holds neither `%` nor `_`. */
  lemma SearchIsContainment(t: string, q: string)
    requires NoWildcards(q)
    ensures LikeMatch(t, "%" + q + "%") <==> ContainsIgnoringCase(t, q)
  {
    assert "%" + q + "%" == "%" + (q + "%");
    LeadingPercent(t, q + "%");
    if LikeMatch(t, "%" + q + "%") {
      var i :| 0 <= i <= |t| && LikeMatch(t[i..], q + "%");
      PrefixMatch(t[i..], q);
      assert t[i..][..|q|] == t[i..i + |q|];
      assert OccursAt(t, q, i);
    }
    if ContainsIgnoringCase(t, q) {
      var i :| 0 <= i <= |t| - |q| && OccursAt(t, q, i);
      PrefixMatch(t[i..], q);
      assert t[i..][..|q|] == t[i..i + |q|];
      assert LikeMatch(t[i..], q + "%");
    }
  }

  lemma SearchIsContainmentEverywhere(q: string)
    ensures NoWildcards(q) ==>
              forall t :: LikeMatch(t, "%" + q + "%") <==> ContainsIgnoringCase(t, q)
  {
    if NoWildcards(q) {
      forall t ensures LikeMatch(t, "%" + q + "%") <==> ContainsIgnoringCase(t, q) {
        SearchIsContainment(t, q);
      }
    }
  }

  /** The three listing queries differ only in their WHERE clause. */
  datatype RowFilter = AllRows | InCategory(category: ItemCategory) | TitleLike(query: string)

  predicate Matches(e: VaultItemEntity, f: RowFilter) {
    match f
    case AllRows => true
    case InCategory(c) => e.category == c
    case TitleLike(q) => LikeMatch(e.title, "%" + q + "%")
  }

  /** In a list with distinct ids, no later row shares the first row's id. */
  lemma HeadIdUnique(s: seq<VaultItemEntity>)
    requires s != []
    ensures DistinctIds(s) ==> forall x :: x in s[1..] ==> x.id != s[0].id
    ensures DistinctIds(s) ==> DistinctIds(s[1..])
  {
    if DistinctIds(s) {
      forall x | x in s[1..] ensures x.id != s[0].id {
        var k :| 0 <= k < |s[1..]| && s[1..][k] == x;
        assert s[k + 1] == x;
      }
    }
  }

  function FilterRows(s: seq<VaultItemEntity>, f: RowFilter): (r: seq<VaultItemEntity>)
    ensures forall e :: e in r <==> e in s && Matches(e, f)
    ensures DistinctIds(s) ==> DistinctIds(r)
    ensures f == AllRows ==> r == s
  {
    if s == [] then []
    else
      var rest := FilterRows(s[1..], f);
      assert forall e :: e in s[1..] ==> e in s;
      HeadIdUnique(s);
      ConsDistinct(s[0], rest);
      if Matches(s[0], f) then [s[0]] + rest else rest
  }

  /** `SELECT * FROM vault_items WHERE … ORDER BY updatedAt DESC`: every
      matching row exactly once (rows carry distinct ids), newest first. */
  function Select(table: Table, f: RowFilter): (r: seq<VaultItemEntity>)
    ensures SortedByUpdatedDesc(r)
    ensures forall e :: e in r <==> Stored(table, e) && Matches(e, f)
    ensures KeysMatchIds(table) ==> DistinctIds(r)
    ensures f == AllRows ==> |r| == |table|
  {
    var rows := FilterRows(Scan(table), f);
    var r := SortByUpdatedDesc(rows);
    assert forall e :: e in r <==> e in rows by {
      forall e ensures e in r <==> e in rows {
        assert e in r <==> e in multiset(r);
      }
    }
    assert |r| == |multiset(r)| == |rows|;
    if DistinctIds(rows) then
      PermutationKeepsDistinct(rows, r);
      r
    else
      r
  }

  /** The Room DAO over an in-memory table. `sequence` stands for the
      table's `sqlite_sequence` entry: the largest id it ever held. */
  class VaultDao {
    var rows: Table
    var sequence: int

    ghost predicate Valid()
      reads this
    {
      KeysMatchIds(rows) && forall k :: k in rows ==> k <= sequence
    }

    constructor ()
      ensures Valid() && rows == map[] && sequence == 0
    {
      rows := map[];
      sequence := 0;
    }

    /** `insertItem`, `OnConflictStrategy.REPLACE`: an id of 0 is generated
        as one more than any id the table ever held; any other id replaces
        the row stored under it. Returns the row's id. */
    method InsertItem(item: VaultItemEntity) returns (id: int)
      requires Valid()
      modifies this
      ensures Valid()
      ensures id == (if item.id == 0 then old(sequence) + 1 else item.id)
      ensures item.id == 0 ==> id !in old(rows)
      ensures rows == old(rows)[id := item.(id := id)]
      ensures sequence == if id > old(sequence) then id else old(sequence)
    {
      id := if item.id == 0 then sequence + 1 else item.id;
      rows := rows[id := item.(id := id)];
      if id > sequence {
        sequence := id;
      }
    }

    /** `updateItem`: rewrites the row with the item's id; does nothing when
        no such row exists. */
    method UpdateItem(item: VaultItemEntity)
      requires Valid()
      modifies this
      ensures Valid()
      ensures rows == if item.id in old(rows) then old(rows)[item.id := item] else old(rows)
      ensures sequence == old(sequence)
    {
      if item.id in rows {
        rows := rows[item.id := item];
      }
    }

    /** `deleteItem`: deletes by primary key only. */
    method DeleteItem(item: VaultItemEntity)
      requires Valid()
      modifies this
      ensures Valid()
      ensures rows == old(rows) - {item.id}
      ensures sequence == old(sequence)
    {
      rows := rows - {item.id};
    }

    /** `deleteItemById`. */
    method DeleteItemById(id: int)
      requires Valid()
      modifies this
      ensures Valid()
      ensures rows == old(rows) - {id}
      ensures sequence == old(sequence)
    {
      rows := rows - {id};
    }

    /** `getItemById`: the row with this id, or null. */
    function GetItemById(id: int): (r: Option<VaultItemEntity>)
      requires Valid()
      reads this
      ensures r.Some? <==> id in rows
      ensures r.Some? ==> r.value.id == id && Stored(rows, r.value)
    {
      if id in rows then Some(rows[id]) else None
    }

    /** `getAllItems`. */
    function GetAllItems(): (r: seq<VaultItemEntity>)
      requires Valid()
      reads this
      ensures SortedByUpdatedDesc(r) && DistinctIds(r)
      ensures forall e :: e in r <==> Stored(rows, e)
      ensures |r| == |rows|
    {
      Select(rows, AllRows)
    }

    /** `getItemsByCategory`. */
    function GetItemsByCategory(category: ItemCategory): (r: seq<VaultItemEntity>)
      requires Valid()
      reads this
      ensures SortedByUpdatedDesc(r) && DistinctIds(r)
      ensures forall e :: e in r <==> Stored(rows, e) && e.category == category
    {
      Select(rows, InCategory(category))
    }

    /** `searchItems`: titles matching `LIKE '%' || query || '%'`. */
    function SearchItems(query: string): (r: seq<VaultItemEntity>)
      requires Valid()
      reads this
      ensures SortedByUpdatedDesc(r) && DistinctIds(r)
      ensures forall e :: e in r <==> Stored(rows, e) && LikeMatch(e.title, "%" + query + "%")
      ensures NoWildcards(query) ==>
                forall e :: e in r <==> Stored(rows, e) && ContainsIgnoringCase(e.title, query)
    {
      SearchIsContainmentEverywhere(query);
      Select(rows, TitleLike(query))
    }

    /** `deleteAllItems`: empties the table; `sqlite_sequence` keeps its value. */
    method DeleteAllItems()
      requires Valid()
      modifies this
      ensures Valid()
      ensures rows == map[] && sequence == old(sequence)
      ensures GetItemCount() == 0 && GetAllItems() == []
    {
      rows := map[];
    }

    /** `getItemCount`: `SELECT COUNT(*)`. */
    function GetItemCount(): (n: nat)
      requires Valid()
      reads this
      ensures n == |rows|
      ensures n == |GetAllItems()|
    {
      |rows|
    }
  }
}
