/** What the PDF library hands the converters, taken as plain values: a page
    is its free text plus the tables found on it, a table is a list of rows,
    and a row a list of cells, each a string or nothing (`None`). A page on
    which the library raises is `Unreadable`. */
module PdfPages {
  import opened TextUtil

  type Cell = Option<string>
  type Row = seq<Cell>
  type Table = seq<Row>

  datatype Page = Page(text: string, tables: seq<Table>) | Unreadable

  /** Python truthiness of a cell: present and not the empty string. */
  predicate Truthy(c: Cell)
  {
    c.Some? && c.value != ""
  }

  /** The pages before the first unreadable one: the converters wrap their
      whole page loop in one `try`, so an exception on a page ends the
      loop and only the records gathered so far are returned. */
  function ReadablePrefix(pages: seq<Page>): (r: seq<Page>)
    ensures |r| <= |pages| && r == pages[..|r|]
    ensures forall k :: 0 <= k < |r| ==> r[k].Page?
    ensures |r| < |pages| ==> pages[|r|].Unreadable?
  {
    if pages == [] || pages[0].Unreadable? then []
    else [pages[0]] + ReadablePrefix(pages[1..])
  }

  /** The readable prefix ends at the first page the library fails on, or
      at the end of the document. */
  lemma {:induction false} ReadablePrefixEndsAt(pages: seq<Page>, p: nat)
    requires p <= |pages|
    requires forall k :: 0 <= k < p ==> pages[k].Page?
    requires p == |pages| || pages[p].Unreadable?
    ensures ReadablePrefix(pages) == pages[..p]
    decreases p
  {
    if p > 0 {
      ReadablePrefixEndsAt(pages[1..], p - 1);
      assert [pages[0]] + pages[1..][..p - 1] == pages[..p];
    }
  }
}
