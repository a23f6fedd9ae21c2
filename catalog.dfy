/**
 * The product catalog handlers over the `products` table, which is modelled
 * as a map from primary key to row.
 */
module Catalog {
  import opened Wrappers
  import opened Decimals
  import opened Schemas
  import opened SqlLike

  /** The `products` table: rows by primary key. */
  type Table = map<int, Product>

  /** The errors a handler reports: a rejected body (422) or a missing id (404). */
  datatype Error = ValidationError(fields: seq<Field>) | NotFound(id: int)

  /** What a handler answers, with the table it leaves behind. */
  datatype Reply<T> = Reply(result: Result<T, Error>, table: Table)

  /** Every row sits under its own id, which is at least 1, and holds a valid body. */
  predicate WellFormed(t: Table)
  {
    forall id | id in t :: id >= 1 && t[id].id == id && IsValid(Data(t[id]))
  }

  // ---- Row order of a table scan ----

  lemma NonEmptyHasElement(s: set<int>)
    requires s != {}
    ensures exists x :: x in s
  {
    if forall y :: y !in s {
      assert false;
    }
  }

  lemma ValueHasKey(t: Table, p: Product)
    requires p in t.Values
    ensures exists k :: k in t && t[k] == p
  {
    if forall k :: k in t ==> t[k] != p {
      assert false;
    }
  }

  lemma {:induction false} MinExists(s: set<int>)
    requires s != {}
    ensures exists m :: m in s && forall x | x in s :: m <= x
    decreases |s|
  {
    NonEmptyHasElement(s);
    var x :| x in s;
    if s != {x} {
      MinExists(s - {x});
      var m :| m in s - {x} && forall y | y in s - {x} :: m <= y;
      var least := if x < m then x else m;
      forall y | y in s
        ensures least <= y
      {
        if y != x {
          assert y in s - {x};
        }
      }
      assert least in s;
    } else {
      assert forall y | y in s :: x <= y;
    }
  }

  /** The least element of a non-empty set. */
  function MinOf(s: set<int>): (m: int)
    requires s != {}
    ensures m in s && forall x | x in s :: m <= x
  {
    MinExists(s);
    var m :| m in s && forall x | x in s :: m <= x;
    m
  }

  /** The elements of a set in strictly increasing order. */
  function IdsAscending(s: set<int>): (ids: seq<int>)
    ensures |ids| == |s|
    ensures forall i | 0 <= i < |ids| :: ids[i] in s
    ensures forall k | k in s :: k in ids
    ensures forall i, j | 0 <= i < j < |ids| :: ids[i] < ids[j]
    decreases |s|
  {
    if s == {} then []
    else
      var m := MinOf(s);
      [m] + IdsAscending(s - {m})
  }

  /** Row ids strictly increase along the sequence. */
  predicate IdsIncreasing(rows: seq<Product>)
  {
    forall i, j | 0 <= i < j < |rows| :: rows[i].id < rows[j].id
  }

  /** `db.query(ProductModel).all()`: every row, in primary-key order. */
  function Listing(t: Table): (rows: seq<Product>)
  {
    var ids := IdsAscending(t.Keys);
    seq(|ids|, i requires 0 <= i < |ids| => t[ids[i]])
  }

  /** Every row of the table is in the listing. */
  lemma ListingHasEveryRow(t: Table, p: Product)
    requires p in t.Values
    ensures p in Listing(t)
  {
    var ids := IdsAscending(t.Keys);
    ValueHasKey(t, p);
    var k :| k in t && t[k] == p;
    var i :| 0 <= i < |ids| && ids[i] == k;
    assert Listing(t)[i] == p;
  }

  /** Everything in the listing is a row of the table. */
  lemma ListingHasOnlyRows(t: Table, p: Product)
    requires p in Listing(t)
    ensures p in t.Values
  {
    var ids := IdsAscending(t.Keys);
    var i :| 0 <= i < |Listing(t)| && Listing(t)[i] == p;
    assert ids[i] in t;
  }

  /** The listing holds every row of the table once and nothing else, in increasing id order. */
  lemma ListingHoldsTable(t: Table)
    ensures |Listing(t)| == |t|
    ensures forall p :: p in Listing(t) <==> p in t.Values
    ensures WellFormed(t) ==> IdsIncreasing(Listing(t))
  {
    assert |t.Keys| == |t|;
    forall p | p in t.Values
      ensures p in Listing(t)
    {
      ListingHasEveryRow(t, p);
    }
    forall p | p in Listing(t)
      ensures p in t.Values
    {
      ListingHasOnlyRows(t, p);
    }
  }

  lemma ListingOfEmpty()
    ensures Listing(map[]) == []
  {
    ListingHoldsTable(map[]);
  }

  // ---- Search ----

  /** The filter `name.ilike(like) | category.ilike(like)` for `like = f"%{query.lower()}%"`. */
  predicate RowMatches(p: Product, query: string)
  {
    ILike(p.name, ContainsPattern(query)) || ILike(p.category, ContainsPattern(query))
  }

  /** The rows of a scan that pass the search filter, in scan order. */
  function Filter(rows: seq<Product>, query: string): (r: seq<Product>)
    ensures |r| <= |rows|
    ensures forall p :: p in r <==> p in rows && RowMatches(p, query)
  {
    if rows == [] then []
    else
      assert rows == [rows[0]] + rows[1..];
      if RowMatches(rows[0], query) then [rows[0]] + Filter(rows[1..], query)
      else Filter(rows[1..], query)
  }

  /** Filtering keeps the scan order. */
  lemma {:induction false} FilterKeepsOrder(rows: seq<Product>, query: string)
    requires IdsIncreasing(rows)
    ensures IdsIncreasing(Filter(rows, query))
  {
    if rows != [] {
      var rest := Filter(rows[1..], query);
      assert IdsIncreasing(rows[1..]);
      FilterKeepsOrder(rows[1..], query);
      forall p | p in rest
        ensures rows[0].id < p.id
      {
        var j :| 0 <= j < |rows[1..]| && rows[1..][j] == p;
        assert rows[j + 1] == p;
      }
    }
  }

  /** The answer of `search_products`: the matching rows in primary-key order. */
  function SearchResults(t: Table, query: string): seq<Product>
  {
    Filter(Listing(t), query)
  }

  /** For a query without '%' or '_', the search returns exactly the rows whose
      name or category contains the lower-cased query, ignoring ASCII case. */
  lemma SearchCharacterisation(t: Table, query: string)
    requires !HasWildcard(query)
    ensures forall p :: p in SearchResults(t, query) <==>
      p in t.Values && (IsSubstring(Lower(query), Lower(p.name)) || IsSubstring(Lower(query), Lower(p.category)))
  {
    ListingHoldsTable(t);
    forall p: Product
      ensures RowMatches(p, query) <==>
        IsSubstring(Lower(query), Lower(p.name)) || IsSubstring(Lower(query), Lower(p.category))
    {
      ILikeContainsIffSubstring(p.name, query);
      ILikeContainsIffSubstring(p.category, query);
    }
  }

  /** The search answer is part of the list answer, in the same order, and no longer. */
  lemma SearchWithinListing(t: Table, query: string)
    ensures |SearchResults(t, query)| <= |Listing(t)|
    ensures forall p | p in SearchResults(t, query) :: p in Listing(t)
    ensures WellFormed(t) ==> IdsIncreasing(SearchResults(t, query))
  {
    ListingHoldsTable(t);
    if WellFormed(t) {
      FilterKeepsOrder(Listing(t), query);
    }
  }

  /** A query no row matches yields an empty answer, not an error. */
  lemma SearchWithoutMatchIsEmpty(t: Table, query: string)
    requires forall id | id in t :: !RowMatches(t[id], query)
    ensures SearchResults(t, query) == []
  {
    ListingHoldsTable(t);
    var r := SearchResults(t, query);
    if r != [] {
      ValueHasKey(t, r[0]);
    }
  }

  /** Every row matches the empty query: its pattern is "%%". */
  lemma EmptyQueryMatchesAll(p: Product)
    ensures RowMatches(p, "")
  {
    assert ContainsPattern("") == ['%', '%'];
    assert Lower(['%', '%']) == ['%', '%'];
    assert ['%', '%'][1..] == ['%'];
    PercentMatchesAll(Lower(p.name));
  }

  lemma {:induction false} FilterKeepsAllMatching(rows: seq<Product>, query: string)
    requires forall p | p in rows :: RowMatches(p, query)
    ensures Filter(rows, query) == rows
  {
    if rows != [] {
      assert forall p | p in rows[1..] :: p in rows;
      FilterKeepsAllMatching(rows[1..], query);
      assert rows == [rows[0]] + rows[1..];
    }
  }

  /** The empty query returns the whole listing. */
  lemma EmptyQueryListsAll(t: Table)
    ensures SearchResults(t, "") == Listing(t)
  {
    forall p | p in Listing(t)
      ensures RowMatches(p, "")
    {
      EmptyQueryMatchesAll(p);
    }
    FilterKeepsAllMatching(Listing(t), "");
  }

  /** A table with one row lists that row alone. */
  lemma ListingOfOne(p: Product)
    ensures Listing(map[p.id := p]) == [p]
  {
    var t := map[p.id := p];
    assert t.Keys == {p.id};
    var ids := IdsAscending(t.Keys);
    assert ids == [p.id];
  }

  /** The body the create test posts. */
  function GuitarBody(): ProductIn
  {
    ProductIn("Acoustic Guitar", Some("A 6-string acoustic guitar"), Decimal(false, 19999, -2), "Instruments")
  }

  lemma GuitarMatchesName(p: Product)
    requires p.name == "Acoustic Guitar"
    ensures RowMatches(p, "guitar")
  {
    assert !HasWildcard("guitar");
    assert Lower("guitar") == "guitar";
    assert Lower(p.name) == "acoustic guitar";
    assert OccursAt("guitar", "acoustic guitar", 9);
    ILikeContainsIffSubstring(p.name, "guitar");
  }

  lemma GuitarMatchesCategory(p: Product)
    requires p.category == "Instruments"
    ensures RowMatches(p, "instruments")
  {
    assert !HasWildcard("instruments");
    assert Lower("instruments") == "instruments";
    assert Lower(p.category) == "instruments";
    assert OccursAt("instruments", "instruments", 0);
    ILikeContainsIffSubstring(p.category, "instruments");
  }

  /** Whatever id the store assigns to the test's body, the product is found
      by a word of its name and by its category, and nothing else is. */
  lemma GuitarSearch(id: int)
    requires id >= 1
    ensures IsValid(GuitarBody())
    ensures SearchResults(map[id := Stored(id, GuitarBody())], "guitar") == [Stored(id, GuitarBody())]
    ensures SearchResults(map[id := Stored(id, GuitarBody())], "instruments") == [Stored(id, GuitarBody())]
  {
    ExamplePrices();
    var p := Stored(id, GuitarBody());
    ListingOfOne(p);
    GuitarMatchesName(p);
    GuitarMatchesCategory(p);
    assert [p][1..] == [];
  }

  // ---- Update and delete ----

  /** `PUT /products/{id}`: the body is validated first, then the row is
      looked up and, when present, every field is overwritten. */
  function UpdateStep(t: Table, id: int, payload: ProductIn): Reply<Product>
  {
    if !IsValid(payload) then Reply(Failure(ValidationError(Violations(payload))), t)
    else if id !in t then Reply(Failure(NotFound(id)), t)
    else Reply(Success(Stored(id, payload)), t[id := Stored(id, payload)])
  }

  /** `DELETE /products/{id}`: the row is looked up and, when present, removed. */
  function DeleteStep(t: Table, id: int): Reply<()>
  {
    if id in t then Reply(Success(()), t - {id}) else Reply(Failure(NotFound(id)), t)
  }

  /** Updating an id that is not in the table answers NotFound and changes nothing. */
  lemma UpdateMissingIsNotFound(t: Table, id: int, payload: ProductIn)
    requires IsValid(payload) && id !in t
    ensures UpdateStep(t, id, payload).result == Failure(NotFound(id))
    ensures UpdateStep(t, id, payload).table == t
  {
  }

  /** Updating a present id replaces all four fields with the body's values
      (whatever the old row held), keeps the id and leaves every other row alone. */
  lemma UpdateReplacesRow(t: Table, id: int, payload: ProductIn)
    requires IsValid(payload) && id in t
    ensures var reply := UpdateStep(t, id, payload);
      && reply.table.Keys == t.Keys
      && reply.result == Success(reply.table[id])
      && reply.table[id].id == id
      && reply.table[id].name == payload.name
      && reply.table[id].description == payload.description
      && Cents(reply.table[id].price) == Cents(payload.price)
      && reply.table[id].category == payload.category
      && forall k | k in t && k != id :: reply.table[k] == t[k]
  {
  }

  /** Applying the same update twice leaves the table as applying it once. */
  lemma UpdateIdempotent(t: Table, id: int, payload: ProductIn)
    ensures var once := UpdateStep(t, id, payload);
      UpdateStep(once.table, id, payload) == once
  {
  }

  /** A rejected body changes nothing, whatever the id. */
  lemma InvalidUpdateChangesNothing(t: Table, id: int, payload: ProductIn)
    requires !IsValid(payload)
    ensures UpdateStep(t, id, payload) == Reply(Failure(ValidationError(Violations(payload))), t)
    ensures Violations(payload) != []
  {
  }

  /** Deleting an id that is not in the table answers NotFound and changes nothing. */
  lemma DeleteMissingIsNotFound(t: Table, id: int)
    requires id !in t
    ensures DeleteStep(t, id) == Reply(Failure(NotFound(id)), t)
  {
  }

  /** Deleting a present id removes exactly that row. */
  lemma DeleteRemovesOneRow(t: Table, id: int)
    requires id in t
    ensures var reply := DeleteStep(t, id);
      && reply.result.Success?
      && reply.table.Keys == t.Keys - {id}
      && |reply.table| == |t| - 1
      && forall k | k in reply.table :: reply.table[k] == t[k]
  {
    assert (t - {id}).Keys == t.Keys - {id};
  }

  /** A second delete of the same id answers NotFound. */
  lemma DeleteTwiceIsNotFound(t: Table, id: int)
    requires id in t
    ensures var once := DeleteStep(t, id);
      && once.result.Success?
      && DeleteStep(once.table, id) == Reply(Failure(NotFound(id)), once.table)
  {
  }

  /** After a delete the listing no longer shows a row with that id. */
  lemma DeletedIsNotListed(t: Table, id: int)
    requires WellFormed(t) && id in t
    ensures forall p | p in Listing(DeleteStep(t, id).table) :: p.id != id
  {
    var t' := DeleteStep(t, id).table;
    ListingHoldsTable(t');
    forall p | p in Listing(t')
      ensures p.id != id
    {
      ValueHasKey(t', p);
    }
  }

  /** Inserting a stored body under a fresh id adds exactly one row, keeps all
      others, and the new row appears in the listing. */
  lemma CreateAddsOneRow(t: Table, id: int, payload: ProductIn)
    requires IsValid(payload) && id !in t
    ensures var t' := t[id := Stored(id, payload)];
      && t'.Keys == t.Keys + {id}
      && |t'| == |t| + 1
      && (forall k | k in t :: t'[k] == t[k])
      && Stored(id, payload) in Listing(t')
      && (forall p | p in Listing(t) :: p in Listing(t'))
  {
    var t' := t[id := Stored(id, payload)];
    assert t'.Keys == t.Keys + {id};
    ListingHoldsTable(t);
    ListingHoldsTable(t');
    forall p | p in Listing(t)
      ensures p in Listing(t')
    {
      ValueHasKey(t, p);
      var k :| k in t && t[k] == p;
      assert t'[k] == p;
    }
    assert t'[id] == Stored(id, payload);
  }

  /** Each handler keeps the table well formed. */
  lemma StepsKeepWellFormed(t: Table, id: int, payload: ProductIn)
    requires WellFormed(t)
    ensures WellFormed(UpdateStep(t, id, payload).table)
    ensures WellFormed(DeleteStep(t, id).table)
    ensures IsValid(payload) && id >= 1 && id !in t ==> WellFormed(t[id := Stored(id, payload)])
  {
  }

  // ---- The handlers over the table ----

  /** The `products` table as the handlers see it through their session. */
  class ProductTable {
    var rows: Table

    ghost predicate Valid()
      reads this
    {
      WellFormed(rows)
    }

    /** A freshly created, empty table. */
    constructor ()
      ensures Valid() && rows == map[]
    {
      rows := map[];
    }

    /** `list_products`. */
    method ListProducts() returns (products: seq<Product>)
      ensures |products| == |rows|
      ensures forall p :: p in products <==> p in rows.Values
      ensures Valid() ==> IdsIncreasing(products)
    {
      products := Listing(rows);
      ListingHoldsTable(rows);
    }

    /** The id the store assigns to an inserted row: one more than the largest
        id present, or 1 for an empty table. */
    method NewId() returns (id: int)
      ensures id >= 1 && id !in rows
      ensures forall k | k in rows :: k < id
    {
      var largest := 0;
      var unseen := rows.Keys;
      while unseen != {}
        invariant unseen <= rows.Keys
        invariant largest >= 0
        invariant forall k | k in rows && k !in unseen :: k <= largest
        decreases |unseen|
      {
        NonEmptyHasElement(unseen);
        var k :| k in unseen;
        if k > largest {
          largest := k;
        }
        unseen := unseen - {k};
      }
      id := largest + 1;
    }

    /** `create_product`, preceded by the validation of its body. */
    method CreateProduct(payload: ProductIn) returns (r: Result<Product, Error>)
      requires Valid()
      modifies this
      ensures Valid()
      ensures !IsValid(payload) ==> r == Failure(ValidationError(Violations(payload))) && rows == old(rows)
      ensures IsValid(payload) ==>
        && r.Success? && r.value.id >= 1 && r.value.id !in old(rows)
        && r.value == Stored(r.value.id, payload)
        && rows == old(rows)[r.value.id := r.value]
    {
      var violations := Violations(payload);
      if violations != [] {
        return Failure(ValidationError(violations));
      }
      var id := NewId();
      var product := Stored(id, payload);
      rows := rows[id := product];
      StepsKeepWellFormed(old(rows), id, payload);
      return Success(product);
    }

    /** `update_product`, preceded by the validation of its body: the fields of
        the row are overwritten one by one, then the row is read back. */
    method UpdateProduct(id: int, payload: ProductIn) returns (r: Result<Product, Error>)
      requires Valid()
      modifies this
      ensures Valid()
      ensures Reply(r, rows) == UpdateStep(old(rows), id, payload)
    {
      var violations := Violations(payload);
      if violations != [] {
        return Failure(ValidationError(violations));
      }
      if id !in rows {
        return Failure(NotFound(id));
      }
      var product := rows[id];
      var items := Dump(payload);
      var i := 0;
      while i < |items|
        invariant 0 <= i <= |items|
        invariant product.id == id
        invariant forall j | 0 <= j < i :: GetAttr(product, Fields[j]) == ValueOf(payload, Fields[j])
      {
        var (field, value) := items[i];
        product := SetAttr(product, field, value);
        i := i + 1;
      }
      var written := Product(id, payload.name, payload.description, payload.price, payload.category);
      forall f: Field
        ensures GetAttr(product, f) == GetAttr(written, f)
      {
        EveryFieldListed(f);
      }
      SameAttrsSameRow(product, written);
      // commit and refresh: the price comes back from the Numeric(10, 2) column
      product := product.(price := Quantize(product.price));
      rows := rows[id := product];
      StepsKeepWellFormed(old(rows), id, payload);
      r := Success(product);
    }

    /** `delete_product`. */
    method DeleteProduct(id: int) returns (r: Result<(), Error>)
      requires Valid()
      modifies this
      ensures Valid()
      ensures Reply(r, rows) == DeleteStep(old(rows), id)
    {
      if id !in rows {
        return Failure(NotFound(id));
      }
      rows := rows - {id};
      r := Success(());
    }

    /** `search_products`. */
    method SearchProducts(query: string) returns (results: seq<Product>)
      ensures forall p :: p in results <==> p in rows.Values && RowMatches(p, query)
      ensures !HasWildcard(query) ==> forall p :: p in results <==>
        p in rows.Values && (IsSubstring(Lower(query), Lower(p.name)) || IsSubstring(Lower(query), Lower(p.category)))
      ensures |results| <= |rows|
      ensures Valid() ==> IdsIncreasing(results)
    {
      var all := Listing(rows);
      results := Filter(all, query);
      ListingHoldsTable(rows);
      SearchWithinListing(rows, query);
      if !HasWildcard(query) {
        SearchCharacterisation(rows, query);
      }
    }
  }
}
