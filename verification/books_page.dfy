/** The books page of the web client: how its search filters become the
    query string of `GET /books/all`, and the availability select box. */
module BooksPage {
  import opened Wrappers
  import opened Text
  import opened BooksService
  import opened BooksController

  /** The page's filter state: two text boxes and the availability choice. */
  datatype UiFilters = UiFilters(title: string, author: string, available: Option<bool>)

  /** A query string as the ordered list of its key/value pairs. */
  type Params = seq<(string, string)>

  /** The value the server reads for `key`: that of its first occurrence. */
  function ParamValue(ps: Params, key: string): Option<string>
    decreases |ps|
  {
    if ps == [] then None
    else if ps[0].0 == key then Some(ps[0].1)
    else ParamValue(ps[1..], key)
  }

  /** Reading a key from two concatenated parameter lists looks in the first list, then the second. */
  lemma {:induction false} ParamValueAppend(a: Params, b: Params, key: string)
    ensures ParamValue(a + b, key) == if ParamValue(a, key).Some? then ParamValue(a, key) else ParamValue(b, key)
    decreases |a|
  {
    if a != [] {
      assert (a + b)[1..] == a[1..] + b;
      ParamValueAppend(a[1..], b, key);
    } else {
      assert a + b == b;
    }
  }

  /** The pair list for one optional parameter. */
  function Param(emit: bool, key: string, value: string): Params {
    if emit then [(key, value)] else []
  }

  /** The query parameters `fetchBooks` appends, in order. */
  function Encode(f: UiFilters): (ps: Params)
    ensures forall i, j :: 0 <= i < j < |ps| ==> ps[i].0 != ps[j].0
    ensures forall i :: 0 <= i < |ps| ==> ps[i].0 in {"title", "author", "available"}
  {
    Param(f.title != "", "title", f.title)
    + Param(f.author != "", "author", f.author)
    + Param(f.available.Some?, "available", if f.available == Some(true) then "true" else "false")
  }

  /** The query the controller receives for the parameters `ps`. */
  function ServerQuery(ps: Params): Query {
    Query(ParamValue(ps, "title"), ParamValue(ps, "author"), ParamValue(ps, "available"))
  }

  /** Each parameter is present exactly when the filter field is set, and carries its value. */
  lemma EncodedParameters(f: UiFilters)
    ensures ServerQuery(Encode(f)).title == (if f.title != "" then Some(f.title) else None)
    ensures ServerQuery(Encode(f)).author == (if f.author != "" then Some(f.author) else None)
    ensures ServerQuery(Encode(f)).available ==
              (if f.available.Some? then Some(if f.available.value then "true" else "false") else None)
  {
    var t := Param(f.title != "", "title", f.title);
    var a := Param(f.author != "", "author", f.author);
    var v := Param(f.available.Some?, "available", if f.available == Some(true) then "true" else "false");
    assert Encode(f) == t + (a + v);
    ParamValueAppend(t, a + v, "title");
    ParamValueAppend(a, v, "title");
    ParamValueAppend(t, a + v, "author");
    ParamValueAppend(a, v, "author");
    ParamValueAppend(t, a + v, "available");
    ParamValueAppend(a, v, "available");
  }

  /** The optional text a text box stands for: an empty box means no constraint. */
  function NonEmpty(s: string): Option<string> {
    if s == "" then None else Some(s)
  }

  /** The filter the page state stands for, with empty text boxes as absent fields. */
  function Intended(f: UiFilters): Option<BookFilter> {
    if f.title == "" && f.author == "" && f.available.None? then None
    else Some(BookFilter(NonEmpty(f.title), NonEmpty(f.author), f.available))
  }

  /** The controller decodes what the page encodes back into the page's filter. */
  lemma RoundTrip(f: UiFilters)
    ensures DecodeFilters(ServerQuery(Encode(f))) == Intended(f)
  {
    EncodedParameters(f);
  }

  /** What the user asks for on the page. */
  predicate UiMatches(f: UiFilters, b: Book) {
    && ContainsIgnoreCase(b.title, f.title)
    && ContainsIgnoreCase(b.author, f.author)
    && (f.available.Some? ==> (f.available.value <==> b.borrowedBy.None?))
  }

  /** A search from the page returns exactly the books the page's filters describe. */
  lemma SearchReturnsWhatPageAsks(store: Store, f: UiFilters)
    ensures forall k :: k in GetBooks(store, ServerQuery(Encode(f))) <==> k in store && UiMatches(f, store[k])
  {
    EncodedParameters(f);
    forall k | k in store
      ensures RequestedBy(ServerQuery(Encode(f)), store[k]) <==> UiMatches(f, store[k])
    {
      EmptyNeedleAlwaysFound(store[k].title);
      EmptyNeedleAlwaysFound(store[k].author);
    }
  }

  // ---------------------------------------------------------------------------
  // The availability select box
  // ---------------------------------------------------------------------------

  /** The option the select box shows for the availability choice. */
  function SelectValue(available: Option<bool>): string {
    match available
    case None => "any"
    case Some(b) => if b then "true" else "false"
  }

  /** The availability choice a selected option stands for. */
  function ParseSelect(option: string): Option<bool> {
    if option == "any" then None else Some(option == "true")
  }

  /** Showing a choice and reading it back gives the same choice. */
  lemma SelectRoundTrip(available: Option<bool>)
    ensures ParseSelect(SelectValue(available)) == available
  {
  }

  /** Each of the three options reads back to itself. */
  lemma SelectOptionsRoundTrip(option: string)
    requires option in {"any", "true", "false"}
    ensures SelectValue(ParseSelect(option)) == option
  {
  }
}
