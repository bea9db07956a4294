/** The page catalog and its navigation helpers (src/config/pages.ts).
    Every lookup takes the catalog as its first argument; the application
    always passes `PageConfig`. */
module Pages {
  import opened Wrappers

  /** One catalog entry. The React component of the source is left out. */
  datatype Page = Page(id: string, title: string, order: int)

  /** The fixed catalog, in declaration order. */
  const PageConfig: seq<Page> := [
    Page("home", "Home", 0),
    Page("portfolio", "Portfolio", 1),
    Page("work", "Work Experience", 2)
  ]

  /** No two entries share an id, and no two share an order. */
  ghost predicate WellFormed(pages: seq<Page>) {
    && (forall i, j :: 0 <= i < j < |pages| ==> pages[i].id != pages[j].id)
    && (forall i, j :: 0 <= i < j < |pages| ==> pages[i].order != pages[j].order)
  }

  /** Index of the first entry with the given id (`Array.prototype.find`). */
  function IndexById(pages: seq<Page>, id: string): (r: Option<nat>)
    ensures r.Some? ==> r.value < |pages| && pages[r.value].id == id
    ensures r.Some? ==> forall j :: 0 <= j < r.value ==> pages[j].id != id
    ensures r.None? ==> forall j :: 0 <= j < |pages| ==> pages[j].id != id
  {
    if |pages| == 0 then None
    else if pages[0].id == id then Some(0)
    else match IndexById(pages[1..], id)
      case None => None
      case Some(k) => Some(k + 1)
  }

  /** Index of the first entry with the given order. */
  function IndexByOrder(pages: seq<Page>, order: int): (r: Option<nat>)
    ensures r.Some? ==> r.value < |pages| && pages[r.value].order == order
    ensures r.Some? ==> forall j :: 0 <= j < r.value ==> pages[j].order != order
    ensures r.None? ==> forall j :: 0 <= j < |pages| ==> pages[j].order != order
  {
    if |pages| == 0 then None
    else if pages[0].order == order then Some(0)
    else match IndexByOrder(pages[1..], order)
      case None => None
      case Some(k) => Some(k + 1)
  }

  /** `getPageById`: the first entry whose id is `id`, or nothing. */
  function GetPageById(pages: seq<Page>, id: string): (r: Option<Page>)
    ensures r.Some? <==> exists i :: 0 <= i < |pages| && pages[i].id == id
    ensures r.Some? ==> exists i :: (0 <= i < |pages| && pages[i] == r.value
      && pages[i].id == id && forall j :: 0 <= j < i ==> pages[j].id != id)
  {
    match IndexById(pages, id)
    case None => None
    case Some(i) => Some(pages[i])
  }

  /** `getPageByOrder`: the first entry whose order is `order`, or nothing. */
  function GetPageByOrder(pages: seq<Page>, order: int): (r: Option<Page>)
    ensures r.Some? <==> exists i :: 0 <= i < |pages| && pages[i].order == order
    ensures r.Some? ==> exists i :: (0 <= i < |pages| && pages[i] == r.value
      && pages[i].order == order && forall j :: 0 <= j < i ==> pages[j].order != order)
  {
    match IndexByOrder(pages, order)
    case None => None
    case Some(i) => Some(pages[i])
  }

  /** `getNextPage`: the entry whose order is one more than that of `id`'s
      entry; nothing for an unknown id or when no such order exists. */
  function GetNextPage(pages: seq<Page>, id: string): (r: Option<Page>)
    ensures GetPageById(pages, id).None? ==> r.None?
    ensures r.Some? ==> r.value in pages && r.value.order == GetPageOrder(pages, id) + 1
    ensures r.Some? <==>
      (GetPageById(pages, id).Some? && exists i :: 0 <= i < |pages| && pages[i].order == GetPageOrder(pages, id) + 1)
  {
    match GetPageById(pages, id)
    case None => None
    case Some(current) => GetPageByOrder(pages, current.order + 1)
  }

  /** `getPreviousPage`: the entry whose order is one less than that of
      `id`'s entry; nothing for an unknown id or when no such order exists. */
  function GetPreviousPage(pages: seq<Page>, id: string): (r: Option<Page>)
    ensures GetPageById(pages, id).None? ==> r.None?
    ensures r.Some? ==> r.value in pages && r.value.order == GetPageOrder(pages, id) - 1
    ensures r.Some? <==>
      (GetPageById(pages, id).Some? && exists i :: 0 <= i < |pages| && pages[i].order == GetPageOrder(pages, id) - 1)
  {
    match GetPageById(pages, id)
    case None => None
    case Some(current) => GetPageByOrder(pages, current.order - 1)
  }

  /** `getPageOrder`: -1 exactly for ids not in the catalog, otherwise the
      order of the first entry with that id. */
  function GetPageOrder(pages: seq<Page>, id: string): (r: int)
    ensures (forall j :: 0 <= j < |pages| ==> pages[j].order >= 0) ==>
      (r == -1 <==> forall j :: 0 <= j < |pages| ==> pages[j].id != id)
    ensures (forall j :: 0 <= j < |pages| ==> pages[j].id != id) ==> r == -1
    ensures forall i :: (0 <= i < |pages| && pages[i].id == id
      && (forall j :: 0 <= j < i ==> pages[j].id != id)) ==> r == pages[i].order
  {
    match GetPageById(pages, id)
    case None => -1
    case Some(p) => p.order
  }

  /** `getTotalPages`: the number of catalog entries. */
  function GetTotalPages(pages: seq<Page>): nat {
    |pages|
  }

  /** The ids of the catalog. */
  function Ids(pages: seq<Page>): set<string> {
    set i | 0 <= i < |pages| :: pages[i].id
  }

  /** In a well-formed catalog the page count is the number of distinct
      ids: there is one page per id. */
  lemma {:induction false} TotalPagesCountsIds(pages: seq<Page>)
    requires WellFormed(pages)
    ensures GetTotalPages(pages) == |Ids(pages)|
  {
    if |pages| > 0 {
      var rest := pages[1..];
      assert WellFormed(rest);
      TotalPagesCountsIds(rest);
      assert Ids(pages) == {pages[0].id} + Ids(rest) by {
        forall x | x in Ids(pages) ensures x in {pages[0].id} + Ids(rest) {
          var i :| 0 <= i < |pages| && pages[i].id == x;
          if i > 0 {
            assert rest[i - 1].id == x;
          }
        }
      }
      assert pages[0].id !in Ids(rest);
    }
  }

  /** In a well-formed catalog, looking an entry up by its own id or by its
      own order finds that very entry. */
  lemma LookupsFindMember(pages: seq<Page>, i: nat)
    requires WellFormed(pages)
    requires i < |pages|
    ensures IndexById(pages, pages[i].id) == Some(i)
    ensures IndexByOrder(pages, pages[i].order) == Some(i)
  {
  }

  /** In a catalog with distinct ids and orders, stepping forward then back
      returns to the starting entry. */
  lemma NextThenPrevious(pages: seq<Page>, id: string)
    requires WellFormed(pages)
    requires GetNextPage(pages, id).Some?
    ensures GetPreviousPage(pages, GetNextPage(pages, id).value.id) == GetPageById(pages, id)
  {
    var ci := IndexById(pages, id).value;
    var qi := IndexByOrder(pages, pages[ci].order + 1).value;
    assert GetNextPage(pages, id) == Some(pages[qi]);
    LookupsFindMember(pages, qi);
    assert GetPageById(pages, pages[qi].id) == Some(pages[qi]);
    LookupsFindMember(pages, ci);
    assert GetPageByOrder(pages, pages[ci].order) == Some(pages[ci]);
  }

  /** In a catalog with distinct ids and orders, stepping back then forward
      returns to the starting entry. */
  lemma PreviousThenNext(pages: seq<Page>, id: string)
    requires WellFormed(pages)
    requires GetPreviousPage(pages, id).Some?
    ensures GetNextPage(pages, GetPreviousPage(pages, id).value.id) == GetPageById(pages, id)
  {
    var ci := IndexById(pages, id).value;
    var qi := IndexByOrder(pages, pages[ci].order - 1).value;
    assert GetPreviousPage(pages, id) == Some(pages[qi]);
    LookupsFindMember(pages, qi);
    assert GetPageById(pages, pages[qi].id) == Some(pages[qi]);
    LookupsFindMember(pages, ci);
    assert GetPageByOrder(pages, pages[ci].order) == Some(pages[ci]);
  }

  /** In a well-formed catalog whose orders are exactly 0 .. n-1 in sequence,
      the last entry has no next and the first has no previous. */
  lemma EndsHaveNoNeighbour(pages: seq<Page>)
    requires WellFormed(pages)
    requires |pages| > 0
    requires forall i :: 0 <= i < |pages| ==> pages[i].order == i
    ensures GetNextPage(pages, pages[|pages| - 1].id).None?
    ensures GetPreviousPage(pages, pages[0].id).None?
  {
    LookupsFindMember(pages, |pages| - 1);
    LookupsFindMember(pages, 0);
  }

  /** The application's catalog has distinct ids and orders 0, 1, 2. */
  lemma PageConfigShape()
    ensures WellFormed(PageConfig)
    ensures GetTotalPages(PageConfig) == 3 == |Ids(PageConfig)|
    ensures forall i :: 0 <= i < |PageConfig| ==> PageConfig[i].order == i
  {
    TotalPagesCountsIds(PageConfig);
  }

  /** The concrete navigation facts of the application's catalog. */
  lemma PageConfigNavigation()
    ensures GetNextPage(PageConfig, "work").None?
    ensures GetPreviousPage(PageConfig, "home").None?
    ensures GetNextPage(PageConfig, "home") == Some(PageConfig[1])
    ensures GetPreviousPage(PageConfig, "work") == Some(PageConfig[1])
    ensures GetPageOrder(PageConfig, "contact") == -1
    ensures GetNextPage(PageConfig, "contact").None? && GetPreviousPage(PageConfig, "contact").None?
  {
    PageConfigShape();
    EndsHaveNoNeighbour(PageConfig);
    LookupsFindMember(PageConfig, 0);
    LookupsFindMember(PageConfig, 2);
    assert GetPageById(PageConfig, "contact").None?;
  }
}
