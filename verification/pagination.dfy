/** The pagination rules of the product listing: when pagination applies,
    which rows a page holds, whether there is a next page, and the link to it. */
module Pagination {
  import opened Optional
  import opened Text
  import opened Catalog

  /** The keys of the next link's query part. */
  const PageKey: string := "?page="
  const LimitKey: string := "&limit="

  /** The values the listing takes for a page or limit the caller leaves out. */
  const DefaultPage: nat := 1
  const DefaultLimit: nat := 3

  /** A listing: every row when pagination is off, otherwise one page with the
      table's size and the link to the next page, if any. */
  datatype Listing =
    | Everything(data: seq<Product>)
    | Paged(data: seq<Product>, total: nat, nextLink: Option<string>)

  /** A zero page or limit is falsy, and a falsy one turns pagination off. */
  predicate Unpaginated(page: nat, limit: nat)
    ensures !Unpaginated(page, limit) ==> page >= 1 && limit >= 1
  {
    page == 0 || limit == 0
  }

  /** The offset of the first row of `page` (pages count from 1). */
  function Skip(page: nat, limit: nat): (s: nat)
    requires page >= 1
    ensures s + limit == page * limit
  {
    (page - 1) * limit
  }

  /** The number of the next page, when rows remain after this one. */
  function NextPage(page: nat, limit: nat, total: nat): (r: Option<nat>)
    ensures r.Some? <==> page * limit < total
    ensures r.Some? ==> r.value == page + 1 && r.value != 0
  {
    if page * limit < total then Some(page + 1) else None
  }

  /** The link to the next page: built only when there is a (truthy) next
      page and a non-empty base URL. */
  function NextLink(baseUrl: Option<string>, nextPage: Option<nat>, limit: nat): (r: Option<string>)
    ensures r.Some? <==> nextPage.Some? && nextPage.value != 0 && baseUrl.Some? && baseUrl.value != ""
    ensures r.Some? ==> baseUrl.value <= r.value
  {
    if nextPage.Some? && nextPage.value != 0 && baseUrl.Some? && baseUrl.value != "" then
      Some(baseUrl.value + PageKey + NatToString(nextPage.value) + LimitKey + NatToString(limit))
    else None
  }

  /** Reads a query part `?page=P&limit=L` back into `(P, L)`. */
  function ParseQuery(q: string): Option<(nat, nat)> {
    if PageKey <= q then ParseQueryValues(q[|PageKey|..]) else None
  }

  /** Reads `P&limit=L` into `(P, L)`. */
  function ParseQueryValues(rest: string): Option<(nat, nat)> {
    var n := LeadingDigits(rest);
    if n == 0 || !(LimitKey <= rest[n..]) then None
    else
      var tail := rest[n + |LimitKey|..];
      if tail == [] || !AllDigits(tail) then None
      else Some((ParseNat(rest[..n]), ParseNat(tail)))
  }

  /** The values part built from two numerals reads back as their values. */
  lemma ValuesOfNumerals(p: string, l: string)
    requires p != [] && AllDigits(p) && l != [] && AllDigits(l)
    ensures ParseQueryValues(p + LimitKey + l) == Some((ParseNat(p), ParseNat(l)))
  {
    var rest := p + LimitKey + l;
    assert rest == p + (LimitKey + l);
    LeadingDigitsOfNumeral(p, LimitKey + l);
    assert rest[..|p|] == p;
    assert rest[|p|..] == LimitKey + l;
    assert rest[|p| + |LimitKey|..] == l;
  }

  /** A query part built from two numerals reads back as their values. */
  lemma QueryOfNumerals(p: string, l: string)
    requires p != [] && AllDigits(p) && l != [] && AllDigits(l)
    ensures ParseQuery(PageKey + p + LimitKey + l) == Some((ParseNat(p), ParseNat(l)))
  {
    var rest := p + LimitKey + l;
    assert PageKey + p + LimitKey + l == PageKey + rest;
    assert (PageKey + rest)[|PageKey|..] == rest;
    ValuesOfNumerals(p, l);
  }

  /** A query part built from two numbers reads back as those numbers. */
  lemma QueryRoundTrip(page: nat, limit: nat)
    ensures ParseQuery(PageKey + NatToString(page) + LimitKey + NatToString(limit)) == Some((page, limit))
  {
    QueryOfNumerals(NatToString(page), NatToString(limit));
    ParseNatToString(page);
    ParseNatToString(limit);
  }

  /** The next link is offered exactly when rows remain after this page and
      the base URL is non-empty; it extends the base URL with a query that
      asks for the following page with the same limit. */
  lemma NextLinkAsksForNextPage(baseUrl: Option<string>, page: nat, limit: nat, total: nat)
    ensures NextLink(baseUrl, NextPage(page, limit, total), limit).Some? <==>
      page * limit < total && baseUrl.Some? && baseUrl.value != ""
    ensures NextLink(baseUrl, NextPage(page, limit, total), limit).Some? ==>
      var link := NextLink(baseUrl, NextPage(page, limit, total), limit).value;
      baseUrl.value <= link && ParseQuery(link[|baseUrl.value|..]) == Some((page + 1, limit))
  {
    var link := NextLink(baseUrl, NextPage(page, limit, total), limit);
    if link.Some? {
      var b := baseUrl.value;
      var q := PageKey + NatToString(page + 1) + LimitKey + NatToString(limit);
      assert link.value == b + q;
      assert link.value[|b|..] == q;
      QueryRoundTrip(page + 1, limit);
    }
  }

  /** A next page is announced exactly when that page holds at least one row. */
  lemma NextPageIsNonEmpty(rows: seq<Product>, page: nat, limit: nat)
    requires page >= 1 && limit >= 1
    ensures NextPage(page, limit, |rows|).Some? <==> Window(rows, Skip(page + 1, limit), limit) != []
  {
  }

  /** The rows of pages 1 to `count`, one after the other. */
  function FirstPages(rows: seq<Product>, count: nat, limit: nat): seq<Product> {
    if count == 0 then [] else FirstPages(rows, count - 1, limit) + Window(rows, Skip(count, limit), limit)
  }

  /** Pages 1 to `count` together are the first `count * limit` rows: pages
      neither overlap nor leave gaps. */
  lemma {:induction false} PagesTileTheTable(rows: seq<Product>, count: nat, limit: nat)
    ensures FirstPages(rows, count, limit) == rows[..Min(count * limit, |rows|)]
  {
    if count > 0 {
      PagesTileTheTable(rows, count - 1, limit);
      var skip := Skip(count, limit);
      assert skip + limit == count * limit;
      WindowExtendsPrefix(rows, skip, limit);
    }
  }

  /** The page at offset `skip` continues the rows before that offset. */
  lemma WindowExtendsPrefix(rows: seq<Product>, skip: nat, limit: nat)
    ensures rows[..Min(skip, |rows|)] + Window(rows, skip, limit) == rows[..Min(skip + limit, |rows|)]
  {
  }

  /** Following the next links from page 1 until none is offered visits every
      row of the table exactly once, in order; while a link is offered, rows
      remain unvisited. */
  lemma FollowingLinksVisitsAll(rows: seq<Product>, page: nat, limit: nat)
    requires page >= 1 && limit >= 1
    ensures NextPage(page, limit, |rows|).None? ==> FirstPages(rows, page, limit) == rows
    ensures NextPage(page, limit, |rows|).Some? ==> |FirstPages(rows, page, limit)| < |rows|
  {
    PagesTileTheTable(rows, page, limit);
  }

  /** Page 2 with limit 3 of a table of 10 rows: rows 3 to 5, and a link to page 3. */
  lemma SecondPageOfTen(rows: seq<Product>, baseUrl: string)
    requires |rows| == 10 && baseUrl != ""
    ensures Skip(2, 3) == 3
    ensures Window(rows, Skip(2, 3), 3) == rows[3..6]
    ensures NextPage(2, 3, 10) == Some(3)
    ensures NextLink(Some(baseUrl), NextPage(2, 3, 10), 3) == Some(baseUrl + "?page=3&limit=3")
  {
    assert NatToString(3) == "3";
    assert baseUrl + "?page=" + "3" + "&limit=" + "3" == baseUrl + "?page=3&limit=3";
  }
}
