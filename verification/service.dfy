/** The product service: each operation issues one or two store calls and
    translates what goes wrong into the response the caller receives. */
module Service {
  import opened Optional
  import opened Text
  import opened Catalog
  import opened Pagination

  /** What a request hands back. `NotFound` and `BadRequest` are the service's
      own exceptions; `StoreError` is a rejection of the store that reaches the
      caller as it is, because the operation returned the store's promise
      without awaiting it and so left its `try` block before the rejection. */
  datatype Response<T> = Ok(value: T) | NotFound(message: string) | BadRequest(message: string) | StoreError

  /** Which store call of a request the database rejects, if any; the calls
      of one request are numbered from 0 in the order they are issued. */
  datatype Fault = NoFault | Rejects(call: nat) {
    predicate Hits(n: nat) {
      Rejects? && call == n
    }
  }

  const FetchProductsFailed := "Failed to fetch products"
  const FetchProductFailed := "Failed to fetch product"
  const UpdateProductFailed := "Failed to update product"
  const DeleteProductFailed := "Failed to delete product"

  /** The not-found message; it names the missing id. */
  function MissingMessage(id: string): (m: string)
    ensures Contains(m, id)
  {
    var m := "Product with ID " + id + " not found";
    assert OccursAt(id, m, 16);
    ContainsIff(m, id);
    m
  }

  class ProductService {
    const prisma: ProductStore

    constructor (store: ProductStore)
      ensures prisma == store
    {
      prisma := store;
    }

    /** Inserts a row with the given columns under a key the store picks.
        A rejected insert is never rewrapped (the promise is not awaited). */
    method Create(fields: ProductFields, fault: Fault) returns (r: Response<Product>)
      requires prisma.Valid()
      modifies prisma
      ensures prisma.Valid()
      ensures fault.Hits(0) ==> r == StoreError && prisma.rows == old(prisma.rows)
      ensures !fault.Hits(0) ==>
        && r.Ok?
        && r.value.id != [] && r.value.id !in Ids(old(prisma.rows))
        && r.value.name == fields.name && r.value.attributes == fields.attributes
        && prisma.rows == old(prisma.rows) + [r.value]
    {
      if fault.Hits(0) {
        return StoreError;
      }
      assert exists id: string :: id != [] && id !in Ids(prisma.rows) by {
        var spare := FreshIdExists(prisma.rows);
      }
      var id: string :| id != [] && id !in Ids(prisma.rows);
      var product := Product(id, fields.name, fields.attributes);
      UniqueIdsAppend(prisma.rows, product);
      prisma.rows := prisma.rows + [product];
      r := Ok(product);
    }

    /** Lists the table: all of it when the page or the limit is zero,
        otherwise the requested page, the table's size and the next link. */
    method FindAll(page: Option<nat>, limit: Option<nat>, baseUrl: Option<string>, fault: Fault)
      returns (r: Response<Listing>)
      ensures Unpaginated(page.GetOr(DefaultPage), limit.GetOr(DefaultLimit)) ==>
        r == if fault.Hits(0) then BadRequest(FetchProductsFailed) else Ok(Everything(prisma.rows))
      ensures !Unpaginated(page.GetOr(DefaultPage), limit.GetOr(DefaultLimit)) && (fault.Hits(0) || fault.Hits(1)) ==>
        r == BadRequest(FetchProductsFailed)
      ensures !Unpaginated(page.GetOr(DefaultPage), limit.GetOr(DefaultLimit)) && !fault.Hits(0) && !fault.Hits(1) ==>
        var p, l := page.GetOr(DefaultPage), limit.GetOr(DefaultLimit);
        && r.Ok? && r.value.Paged?
        && r.value.data == Window(prisma.rows, Skip(p, l), l)
        && r.value.total == |prisma.rows|
        && r.value.nextLink == NextLink(baseUrl, NextPage(p, l, |prisma.rows|), l)
    {
      var p := page.GetOr(DefaultPage);
      var l := limit.GetOr(DefaultLimit);
      if p == 0 || l == 0 {
        if fault.Hits(0) {
          return BadRequest(FetchProductsFailed);
        }
        return Ok(Everything(prisma.rows));
      }
      var skip := (p - 1) * l;
      assert skip == Skip(p, l);
      if fault.Hits(0) {
        return BadRequest(FetchProductsFailed);
      }
      var data := Window(prisma.rows, skip, l);
      if fault.Hits(1) {
        return BadRequest(FetchProductsFailed);
      }
      var total := |prisma.rows|;
      var nextPage := if p * l < total then Some(p + 1) else None;
      assert nextPage == NextPage(p, l, total);
      var nextLink: Option<string> := None;
      if nextPage.Some? && baseUrl.Some? && baseUrl.value != "" {
        nextLink := Some(baseUrl.value + PageKey + NatToString(nextPage.value) + LimitKey + NatToString(l));
      }
      assert nextLink == NextLink(baseUrl, nextPage, l);
      r := Ok(Paged(data, total, nextLink));
    }

    /** Fetches one row by key. A missing key raises a not-found inside the
        `try`, and the `catch` turns it, like every store rejection, into
        a bad request: this operation never answers `NotFound`. */
    method FindOne(id: string, fault: Fault) returns (r: Response<Product>)
      ensures !r.NotFound? && !r.StoreError?
      ensures fault.Hits(0) || id !in Ids(prisma.rows) <==> r == BadRequest(FetchProductFailed)
      ensures r.Ok? <==> !fault.Hits(0) && id in Ids(prisma.rows)
      ensures r.Ok? ==> r.value in prisma.rows && r.value.id == id && Some(r.value) == Lookup(prisma.rows, id)
    {
      if fault.Hits(0) {
        return BadRequest(FetchProductFailed);
      }
      var product := Lookup(prisma.rows, id);
      if product.None? {
        return BadRequest(FetchProductFailed);
      }
      r := Ok(product.value);
    }

    /** Updates the supplied columns of one row after checking that its key
        exists. A rejected lookup is rewrapped; a rejected write is not (the
        write's promise is returned without being awaited). */
    method Update(id: string, patch: ProductPatch, fault: Fault) returns (r: Response<Product>)
      requires prisma.Valid()
      modifies prisma
      ensures prisma.Valid()
      ensures fault.Hits(0) ==> r == BadRequest(UpdateProductFailed) && prisma.rows == old(prisma.rows)
      ensures !fault.Hits(0) && id !in Ids(old(prisma.rows)) ==>
        r == NotFound(MissingMessage(id)) && prisma.rows == old(prisma.rows)
      ensures !fault.Hits(0) && id in Ids(old(prisma.rows)) && fault.Hits(1) ==>
        r == StoreError && prisma.rows == old(prisma.rows)
      ensures !fault.Hits(0) && id in Ids(old(prisma.rows)) && !fault.Hits(1) ==>
        && r == Ok(Patched(Lookup(old(prisma.rows), id).value, patch))
        && prisma.rows == Replaced(old(prisma.rows), id, patch)
        && Lookup(prisma.rows, id) == Some(r.value)
    {
      if fault.Hits(0) {
        return BadRequest(UpdateProductFailed);
      }
      var product := Lookup(prisma.rows, id);
      if product.None? {
        return NotFound(MissingMessage(id));
      }
      if fault.Hits(1) {
        return StoreError;
      }
      ReplacedKeepsKeys(prisma.rows, id, patch);
      LookupAfterReplace(prisma.rows, id, patch, id);
      prisma.rows := Replaced(prisma.rows, id, patch);
      r := Ok(Patched(product.value, patch));
    }

    /** Deletes one row after checking that its key exists. The delete is
        awaited, so its rejection is rewrapped as a bad request. */
    method Remove(id: string, fault: Fault) returns (r: Response<Product>)
      requires prisma.Valid()
      modifies prisma
      ensures prisma.Valid()
      ensures fault.Hits(0) ==> r == BadRequest(DeleteProductFailed) && prisma.rows == old(prisma.rows)
      ensures !fault.Hits(0) && id !in Ids(old(prisma.rows)) ==>
        r == NotFound(MissingMessage(id)) && prisma.rows == old(prisma.rows)
      ensures !fault.Hits(0) && id in Ids(old(prisma.rows)) && fault.Hits(1) ==>
        r == BadRequest(DeleteProductFailed) && prisma.rows == old(prisma.rows)
      ensures !fault.Hits(0) && id in Ids(old(prisma.rows)) && !fault.Hits(1) ==>
        && r == Ok(Lookup(old(prisma.rows), id).value)
        && prisma.rows == Without(old(prisma.rows), id)
        && |prisma.rows| == |old(prisma.rows)| - 1
        && id !in Ids(prisma.rows)
    {
      if fault.Hits(0) {
        return BadRequest(DeleteProductFailed);
      }
      var product := Lookup(prisma.rows, id);
      if product.None? {
        return NotFound(MissingMessage(id));
      }
      if fault.Hits(1) {
        return BadRequest(DeleteProductFailed);
      }
      WithoutShrinks(prisma.rows, id);
      prisma.rows := Without(prisma.rows, id);
      r := Ok(product.value);
    }

    /** The rows whose name contains the keyword, ignoring case. The query's
        promise is returned without being awaited, so a rejection reaches the
        caller unwrapped. */
    method SearchProduct(keyword: string, fault: Fault) returns (r: Response<seq<Product>>)
      ensures fault.Hits(0) <==> r == StoreError
      ensures !fault.Hits(0) ==> r.Ok? && r.value == Matching(prisma.rows, keyword)
      ensures r.Ok? ==> forall p :: p in r.value <==> p in prisma.rows && ContainsIgnoringCase(p.name, keyword)
    {
      if fault.Hits(0) {
        return StoreError;
      }
      r := Ok(Matching(prisma.rows, keyword));
    }
  }
}
