/** The product table as the service sees it: its rows, and what each of the
    store calls the service issues (`findUnique`, `findMany`, `create`,
    `update`, `delete`, `count`) does to them or returns from them. */
module Catalog {
  import opened Optional
  import opened Text

  /** A row of the product table: the key the store assigned, the name, and
      the remaining schema columns by column name. */
  datatype Product = Product(id: string, name: string, attributes: map<string, string>)

  /** What a create request carries: every column except the key. */
  datatype ProductFields = ProductFields(name: string, attributes: map<string, string>)

  /** What an update request carries: any subset of the columns except the key. */
  datatype ProductPatch = ProductPatch(name: Option<string>, attributes: map<string, string>)

  function Min(a: nat, b: nat): nat {
    if a <= b then a else b
  }

  function Ids(rows: seq<Product>): set<string> {
    set p | p in rows :: p.id
  }

  /** The table's key constraint: no two rows share an identifier. */
  ghost predicate UniqueIds(rows: seq<Product>) {
    forall i, j :: 0 <= i < j < |rows| ==> rows[i].id != rows[j].id
  }

  lemma UniqueIdsCons(p: Product, rows: seq<Product>)
    requires UniqueIds(rows) && p.id !in Ids(rows)
    ensures UniqueIds([p] + rows)
  {
  }

  lemma UniqueIdsAppend(rows: seq<Product>, p: Product)
    requires UniqueIds(rows) && p.id !in Ids(rows)
    ensures UniqueIds(rows + [p])
  {
  }

  /** `findUnique({ where: { id } })`: the row with key `id`, or nothing. */
  function Lookup(rows: seq<Product>, id: string): (r: Option<Product>)
    ensures r.Some? <==> id in Ids(rows)
    ensures r.Some? ==> r.value in rows && r.value.id == id
  {
    if rows == [] then None
    else if rows[0].id == id then Some(rows[0])
    else
      assert forall p :: p in rows && p != rows[0] ==> p in rows[1..];
      Lookup(rows[1..], id)
  }

  /** Under the key constraint the row found is the one row with that key. */
  lemma LookupFindsTheRow(rows: seq<Product>, p: Product)
    requires UniqueIds(rows) && p in rows
    ensures Lookup(rows, p.id) == Some(p)
  {
  }

  /** A fresh key: a run of letters longer than every key in the table. */
  function LongestId(rows: seq<Product>): (n: nat)
    ensures forall p :: p in rows ==> |p.id| <= n
  {
    if rows == [] then 0
    else
      var rest := LongestId(rows[1..]);
      assert forall p :: p in rows && p != rows[0] ==> p in rows[1..];
      if |rows[0].id| <= rest then rest else |rows[0].id|
  }

  lemma FreshIdExists(rows: seq<Product>) returns (id: string)
    ensures id != [] && id !in Ids(rows)
  {
    id := seq(LongestId(rows) + 1, _ => 'k');
  }

  /** `findMany({ skip, take })`: the rows from offset `skip` on, at most
      `take` of them, in the table's order. */
  function Window(rows: seq<Product>, skip: nat, take: nat): (r: seq<Product>)
    ensures |r| == if skip < |rows| then Min(take, |rows| - skip) else 0
    ensures forall i :: 0 <= i < |r| ==> r[i] == rows[skip + i]
  {
    if skip >= |rows| then [] else rows[skip..skip + Min(take, |rows| - skip)]
  }

  /** The row `p` after an update with `patch`: the supplied columns take the
      supplied values, every other column and the key keep theirs. */
  function Patched(p: Product, patch: ProductPatch): (q: Product)
    ensures q.id == p.id
    ensures patch.name.Some? ==> q.name == patch.name.value
    ensures patch.name.None? ==> q.name == p.name
    ensures q.attributes.Keys == p.attributes.Keys + patch.attributes.Keys
    ensures forall c :: c in patch.attributes ==> q.attributes[c] == patch.attributes[c]
    ensures forall c :: c in p.attributes && c !in patch.attributes ==> q.attributes[c] == p.attributes[c]
  {
    Product(p.id, patch.name.GetOr(p.name), p.attributes + patch.attributes)
  }

  /** `update({ where: { id }, data: patch })` applied to the table. */
  function Replaced(rows: seq<Product>, id: string, patch: ProductPatch): (r: seq<Product>)
    ensures |r| == |rows|
    ensures forall i :: 0 <= i < |rows| ==> r[i] == if rows[i].id == id then Patched(rows[i], patch) else rows[i]
  {
    if rows == [] then []
    else [if rows[0].id == id then Patched(rows[0], patch) else rows[0]] + Replaced(rows[1..], id, patch)
  }

  /** An update keeps every row's key, the key set and the key constraint. */
  lemma ReplacedKeepsKeys(rows: seq<Product>, id: string, patch: ProductPatch)
    ensures forall i :: 0 <= i < |rows| ==> Replaced(rows, id, patch)[i].id == rows[i].id
    ensures Ids(Replaced(rows, id, patch)) == Ids(rows)
    ensures UniqueIds(rows) ==> UniqueIds(Replaced(rows, id, patch))
  {
  }

  /** After an update, the updated row reads back patched and every other
      row reads back as before. */
  lemma {:induction false} LookupAfterReplace(rows: seq<Product>, id: string, patch: ProductPatch, other: string)
    ensures Lookup(Replaced(rows, id, patch), other) ==
      if other == id && Lookup(rows, id).Some? then Some(Patched(Lookup(rows, id).value, patch))
      else Lookup(rows, other)
  {
    if rows != [] {
      LookupAfterReplace(rows[1..], id, patch, other);
      assert Replaced(rows, id, patch)[1..] == Replaced(rows[1..], id, patch);
    }
  }

  /** `delete({ where: { id } })` applied to the table. */
  function Without(rows: seq<Product>, id: string): (r: seq<Product>)
    ensures forall p :: p in r <==> p in rows && p.id != id
  {
    if rows == [] then []
    else
      assert forall p :: p in rows && p != rows[0] ==> p in rows[1..];
      (if rows[0].id == id then [] else [rows[0]]) + Without(rows[1..], id)
  }

  /** A delete removes exactly one row when the key is present, none when it
      is absent, and keeps the key constraint. */
  lemma {:induction false} WithoutShrinks(rows: seq<Product>, id: string)
    requires UniqueIds(rows)
    ensures UniqueIds(Without(rows, id))
    ensures |Without(rows, id)| == if id in Ids(rows) then |rows| - 1 else |rows|
  {
    if rows != [] {
      var tail := rows[1..];
      assert UniqueIds(tail);
      WithoutShrinks(tail, id);
      assert forall p :: p in rows && p != rows[0] ==> p in tail;
      if rows[0].id == id {
        assert id !in Ids(tail) by {
          forall p | p in tail ensures p.id != id {
            var j :| 0 <= j < |tail| && tail[j] == p;
            assert rows[j + 1] == p;
          }
        }
      } else {
        assert rows[0].id !in Ids(Without(tail, id)) by {
          forall p | p in Without(tail, id) ensures p.id != rows[0].id {
            var j :| 0 <= j < |tail| && tail[j] == p;
            assert rows[j + 1] == p;
          }
        }
        UniqueIdsCons(rows[0], Without(tail, id));
      }
    }
  }

  /** After a delete, the deleted key reads back as missing and every other
      row reads back as before. */
  lemma {:induction false} LookupAfterDelete(rows: seq<Product>, id: string, other: string)
    ensures Lookup(Without(rows, id), other) == if other == id then None else Lookup(rows, other)
  {
    if rows != [] {
      var rest := Without(rows[1..], id);
      LookupAfterDelete(rows[1..], id, other);
      if rows[0].id == id {
        assert Without(rows, id) == rest;
      } else {
        assert Without(rows, id) == [rows[0]] + rest;
        assert ([rows[0]] + rest)[1..] == rest;
      }
    }
  }

  /** A product matches a search keyword when its name contains the keyword,
      ignoring the case of ASCII letters. */
  predicate NameMatches(p: Product, keyword: string) {
    ContainsIgnoringCase(p.name, keyword)
  }

  /** `findMany({ where: { name: { contains: keyword, mode: 'insensitive' } } })`:
      the matching rows, in the table's order. */
  function Matching(rows: seq<Product>, keyword: string): (r: seq<Product>)
    ensures |r| <= |rows|
    ensures forall p :: p in r <==> p in rows && NameMatches(p, keyword)
  {
    if rows == [] then []
    else
      assert forall p :: p in rows && p != rows[0] ==> p in rows[1..];
      (if NameMatches(rows[0], keyword) then [rows[0]] else []) + Matching(rows[1..], keyword)
  }

  /** The search returns each matching row as often as the table holds it,
      and no other row. */
  lemma {:induction false} MatchingCounts(rows: seq<Product>, keyword: string)
    ensures forall p :: multiset(Matching(rows, keyword))[p] == if NameMatches(p, keyword) then multiset(rows)[p] else 0
  {
    if rows != [] {
      MatchingCounts(rows[1..], keyword);
      assert rows == [rows[0]] + rows[1..];
    }
  }

  /** The search keeps the table's order: searching a table made of two parts
      gives the matches of the first part, then those of the second. */
  lemma {:induction false} MatchingKeepsOrder(front: seq<Product>, back: seq<Product>, keyword: string)
    ensures Matching(front + back, keyword) == Matching(front, keyword) + Matching(back, keyword)
  {
    if front != [] {
      assert (front + back)[1..] == front[1..] + back;
      MatchingKeepsOrder(front[1..], back, keyword);
    } else {
      assert front + back == back;
    }
  }

  /** The product table behind the service. The service itself keeps no
      state; every request reads or writes this table. */
  class ProductStore {
    var rows: seq<Product>

    ghost predicate Valid()
      reads this
    {
      UniqueIds(rows)
    }

    constructor (rows: seq<Product>)
      requires UniqueIds(rows)
      ensures Valid() && this.rows == rows
    {
      this.rows := rows;
    }
  }
}
