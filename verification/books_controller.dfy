/** `GET /books/all`: turning the query string into the filters of `getAll`. */
module BooksController {
  import opened Wrappers
  import opened Text
  import opened BooksService

  /** The query parameters the handler reads, each present or absent. */
  datatype Query = Query(title: Option<string>, author: Option<string>, available: Option<string>)

  /** The availability flag a present `available` parameter stands for. */
  predicate AvailableFlag(s: string) {
    s == "true" || s == "1"
  }

  /** The filters object the handler builds, or None (`undefined`) when it sets no field. */
  function DecodeFilters(q: Query): (r: Option<BookFilter>)
    ensures r.None? <==> !Truthy(q.title) && !Truthy(q.author) && q.available.None?
    ensures r.Some? ==> (r.value.title.Some? <==> Truthy(q.title)) && (r.value.title.Some? ==> r.value.title == q.title)
    ensures r.Some? ==> (r.value.author.Some? <==> Truthy(q.author)) && (r.value.author.Some? ==> r.value.author == q.author)
    ensures r.Some? ==> (r.value.available.Some? <==> q.available.Some?)
    ensures r.Some? && q.available.Some? ==> (r.value.available.value <==> AvailableFlag(q.available.value))
  {
    var filters := BookFilter(
      if Truthy(q.title) then q.title else None,
      if Truthy(q.author) then q.author else None,
      if q.available.Some? then Some(AvailableFlag(q.available.value)) else None);
    if filters == NoFilter then None else Some(filters)
  }

  /** What a request asks for, read straight off its query string. */
  predicate RequestedBy(q: Query, b: Book) {
    && (q.title.Some? ==> ContainsIgnoreCase(b.title, q.title.value))
    && (q.author.Some? ==> ContainsIgnoreCase(b.author, q.author.value))
    && (q.available.Some? ==> (AvailableFlag(q.available.value) <==> b.borrowedBy.None?))
  }

  /** `getBooks`: the books the query string asks for, with their contents. */
  function GetBooks(store: Store, q: Query): (r: Store)
    ensures forall k :: k in r <==> k in store && RequestedBy(q, store[k])
    ensures forall k :: k in r ==> r[k] == store[k]
  {
    var r := GetAll(store, DecodeFilters(q));
    assert forall k :: k in store ==> (Matches(DecodeFilters(q), store[k]) <==> RequestedBy(q, store[k])) by {
      forall k | k in store
        ensures Matches(DecodeFilters(q), store[k]) <==> RequestedBy(q, store[k])
      {
        EmptyNeedleAlwaysFound(store[k].title);
        EmptyNeedleAlwaysFound(store[k].author);
      }
    }
    r
  }

  /** A request without parameters reaches `getAll` as `undefined` and, like an empty filter, returns every book. */
  lemma NoParametersMeansEveryBook(store: Store)
    ensures DecodeFilters(Query(None, None, None)).None?
    ensures GetBooks(store, Query(None, None, None)) == GetAll(store, Some(NoFilter))
    ensures GetBooks(store, Query(None, None, None)) == store
  {
  }
}
