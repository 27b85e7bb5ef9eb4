/** SpreadsheetModel without its CSV import and export: the list of pages of a workbook and
    the page being viewed. Pages are objects, compared by identity as Array.indexOf does. */
module Workbook {
  import opened Wrappers
  import opened Text
  import opened Engine
  import opened Pages

  /** What deletePage and setCurrentPage throw for a page that is not in the list. */
  const NOT_FOUND: string := "Spreadsheet not found"

  /** The name addPage gives its n-th page when it is given none: "Page " + n. */
  function DefaultName(n: nat): string
  {
    "Page " + NatToString(n)
  }

  /** Array.indexOf on the pages: the first position of p in s, or −1. */
  function PageIndex(s: seq<Page>, p: Page?): (i: int)
    ensures -1 <= i < |s|
    ensures i == -1 <==> p !in s
    ensures i >= 0 ==> s[i] == p && p !in s[..i]
  {
    if s == [] then -1
    else if s[0] == p then 0
    else
      var k := PageIndex(s[1..], p);
      if k == -1 then -1 else k + 1
  }

  /** splice(i, 1): the list without its i-th page. */
  function Removed(s: seq<Page>, i: nat): seq<Page>
    requires i < |s|
  {
    s[..i] + s[i + 1..]
  }

  /** The last page of a list, or none (the `undefined` of indexing an empty array). */
  function Last(s: seq<Page>): Page?
  {
    if s == [] then null else s[|s| - 1]
  }

  /** No page is listed twice. */
  predicate Distinct(s: seq<Page>)
  {
    forall i, j :: 0 <= i < j < |s| ==> s[i] != s[j]
  }

  /** Removing the i-th page of a list without repeats removes exactly that page, keeps the
      others and their order, and leaves a list without repeats. */
  lemma RemovedMembers(s: seq<Page>, i: nat)
    requires Distinct(s) && i < |s|
    ensures |Removed(s, i)| == |s| - 1 && Distinct(Removed(s, i))
    ensures forall q :: q in Removed(s, i) <==> q in s && q != s[i]
  {
    var t := Removed(s, i);
    forall q | q in s && q != s[i]
      ensures q in t
    {
      var k :| 0 <= k < |s| && s[k] == q;
      if k < i {
        assert t[k] == q;
      } else {
        assert t[k - 1] == q;
      }
    }
    forall a, b | 0 <= a < b < |t|
      ensures t[a] != t[b]
    {
      var a' := if a < i then a else a + 1;
      var b' := if b < i then b else b + 1;
      assert t[a] == s[a'] && t[b] == s[b'];
    }
  }

  /** The index of a listed page is its only position in a list without repeats. */
  lemma PageIndexDistinct(s: seq<Page>, i: nat)
    requires Distinct(s) && i < |s|
    ensures PageIndex(s, s[i]) == i
  {
    assert s[i] in s;
  }

  /** Distinct page counts give distinct default names. */
  lemma DefaultNameInjective(m: nat, n: nat)
    requires DefaultName(m) == DefaultName(n)
    ensures m == n
  {
    var pre := "Page ";
    assert NatToString(m) == DefaultName(m)[|pre|..];
    assert NatToString(n) == DefaultName(n)[|pre|..];
  }

  /** The name the constructor gives the first page is the default name of page 1. */
  lemma FirstPageName()
    ensures DefaultName(1) == "Page 1"
  {
    assert NatToString(1) == "1";
  }

  class Spreadsheet {
    var pages: seq<Page>
    /** The page being viewed; none once the last page has been deleted. */
    var current: Page?
    /** The foreign code the pages' evaluation calls. */
    const env: Env

    /** The current page is one of the pages, and there is one whenever there are pages;
        no page is listed twice. */
    predicate Valid()
      reads this
    {
      Distinct(pages) && (current == null <==> pages == []) && (current != null ==> current in pages)
    }

    /** constructor: one empty page named "Page 1", which is current. */
    constructor(env: Env)
      ensures Valid() && this.env == env
      ensures |pages| == 1 && current == pages[0] && fresh(pages[0])
      ensures pages[0].name == "Page 1"
      ensures pages[0].sheet == InitialSheet(env.evaluate, DEFAULT_SIZE, DEFAULT_SIZE, None)
    {
      var newPage := new Page("Page 1", DEFAULT_SIZE, DEFAULT_SIZE, None, env);
      this.env := env;
      pages := [newPage];
      current := newPage;
    }

    /** addPage(data?, sheetName?): appends a new page, of the size of `data` and holding its
        texts when given, and makes it current. Reading the width of an empty `data` throws
        before anything changes. */
    method AddPage(data: Option<seq<seq<string>>>, sheetName: Option<string>) returns (r: Outcome<()>)
      requires Valid()
      requires data.Some? && |data.value| > 0 ==> Covers(data.value, |data.value|, |data.value[0]|)
      modifies this
      ensures Valid()
      ensures data == Some([]) ==> r == Thrown(TYPE_ERROR) && pages == old(pages) && current == old(current)
      ensures data != Some([]) ==>
                r == Done(()) && |pages| == |old(pages)| + 1 && pages[..|old(pages)|] == old(pages) &&
                current == pages[|old(pages)|] && fresh(current) &&
                current.name == (if sheetName.None? then DefaultName(|old(pages)| + 1) else sheetName.value) &&
                current.sheet == (if data.None? then InitialSheet(env.evaluate, DEFAULT_SIZE, DEFAULT_SIZE, None)
                                  else InitialSheet(env.evaluate, |data.value|, |data.value[0]|, data))
      ensures data.Some? && |data.value| > 0 && RectangularData(data.value) ==> Data(current.sheet) == data.value
    {
      var newPageName := if sheetName.None? then DefaultName(|pages| + 1) else sheetName.value;
      var newPage: Page;
      if data.Some? {
        if |data.value| == 0 {
          return Thrown(TYPE_ERROR);
        }
        newPage := new Page(newPageName, |data.value|, |data.value[0]|, data, env);
        if RectangularData(data.value) {
          LoadedData(env.evaluate, data.value);
        }
      } else {
        newPage := new Page(newPageName, DEFAULT_SIZE, DEFAULT_SIZE, None, env);
      }
      pages := pages + [newPage];
      current := newPage;
      r := Done(());
    }

    /** deletePage(spreadsheet): removes the page; when it was the current one, the last
        remaining page becomes current (none when no page remains). An unknown page throws
        and changes nothing. */
    method DeletePage(page: Page) returns (r: Outcome<()>)
      requires Valid()
      modifies this
      ensures Valid()
      ensures page !in old(pages) ==> r == Thrown(NOT_FOUND) && pages == old(pages) && current == old(current)
      ensures page in old(pages) ==>
                r == Done(()) && pages == Removed(old(pages), PageIndex(old(pages), page)) &&
                current == (if page == old(current) then Last(pages) else old(current))
      ensures page in old(pages) ==>
                |pages| == |old(pages)| - 1 && (forall q :: q in pages <==> q in old(pages) && q != page)
    {
      var index := PageIndex(pages, page);
      var currentIndex := PageIndex(pages, current);
      if index != -1 {
        RemovedMembers(pages, index);
        if current != null {
          PageIndexDistinct(pages, currentIndex);
        }
        pages := pages[..index] + pages[index + 1..];
      } else {
        return Thrown(NOT_FOUND);
      }
      if index == currentIndex {
        current := if |pages| == 0 then null else pages[|pages| - 1];
      }
      r := Done(());
    }

    /** getCurrentPage. */
    method GetCurrentPage() returns (p: Page?)
      ensures p == current
    {
      p := current;
    }

    /** setCurrentPage(newPage): the page becomes current when it is in the list; otherwise
        the call throws. The list never changes. */
    method SetCurrentPage(newPage: Page) returns (r: Outcome<()>)
      requires Valid()
      modifies this`current
      ensures Valid()
      ensures newPage in pages ==> r == Done(()) && current == newPage
      ensures newPage !in pages ==> r == Thrown(NOT_FOUND) && current == old(current)
    {
      var index := PageIndex(pages, newPage);
      if index != -1 {
        current := pages[index];
      } else {
        return Thrown(NOT_FOUND);
      }
      r := Done(());
    }

    /** getNumPages. */
    method GetNumPages() returns (n: nat)
      ensures n == |pages|
    {
      n := |pages|;
    }

    /** getAllPageNames: the names of the pages, in list order, one per page. */
    method GetAllPageNames() returns (names: seq<string>)
      ensures |names| == |pages|
      ensures forall i :: 0 <= i < |pages| ==> names[i] == pages[i].name
    {
      names := [];
      var i := 0;
      while i < |pages|
        invariant 0 <= i <= |pages| && |names| == i
        invariant forall k :: 0 <= k < i ==> names[k] == pages[k].name
      {
        names := names + [pages[i].name];
        i := i + 1;
      }
    }
  }

  /** A new workbook given two pages, whose current (third) page is then deleted, views
      "Page 2" and lists "Page 1" and "Page 2". */
  method DeleteCurrentOfThree(env: Env) returns (viewed: string, names: seq<string>, count: nat)
    ensures viewed == "Page 2" && names == ["Page 1", "Page 2"] && count == 2
  {
    var book := new Spreadsheet(env);
    var r := book.AddPage(None, None);
    r := book.AddPage(None, None);
    var third := book.GetCurrentPage();
    r := book.DeletePage(third);
    var p := book.GetCurrentPage();
    assert DefaultName(2) == "Page 2" by {
      assert NatToString(2) == "2";
    }
    viewed := p.name;
    names := book.GetAllPageNames();
    count := book.GetNumPages();
  }
}
