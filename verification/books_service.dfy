/** The book store and its lending ledger: queries over the books table and
    the borrow/return transitions of a book's `borrowedBy` column. */
module BooksService {
  import opened Wrappers
  import opened Text
  import opened Lookup

  /** A row of the books table; `borrowedBy` is the id of the user holding the book, if any. */
  datatype Book = Book(id: int, title: string, author: string, borrowedBy: Option<int>)

  /** The books table, keyed by primary key. */
  type Store = map<int, Book>

  /** Every row is stored under its own id. */
  predicate WellFormed(store: Store) {
    forall k :: k in store ==> store[k].id == k
  }

  /** Every borrower recorded in the ledger is a known user. */
  predicate BorrowersKnown(store: Store, users: set<int>) {
    forall k :: k in store && store[k].borrowedBy.Some? ==> store[k].borrowedBy.value in users
  }

  predicate Invariant(store: Store, users: set<int>) {
    WellFormed(store) && BorrowersKnown(store, users)
  }

  /** `a` and `b` agree on every column except `borrowedBy`. */
  predicate SameDescription(a: Book, b: Book) {
    a.id == b.id && a.title == b.title && a.author == b.author
  }

  /** `after` differs from `before` only in the `borrowedBy` column of `bookId`, which now holds `holder`. */
  predicate OnlyHolderChanged(before: Store, after: Store, bookId: int, holder: Option<int>) {
    && bookId in before
    && after.Keys == before.Keys
    && (forall k :: k in before && k != bookId ==> after[k] == before[k])
    && SameDescription(after[bookId], before[bookId])
    && after[bookId].borrowedBy == holder
  }

  // ---------------------------------------------------------------------------
  // Query conditions, the model of the database's `where` clause
  // ---------------------------------------------------------------------------

  /** One condition of a `where` clause on the books table. */
  datatype Condition =
    | TitleContains(text: string)     // title contains text, ignoring case
    | AuthorContains(text: string)    // author contains text, ignoring case
    | BorrowedByIsNull
    | BorrowedByNotNull
    | BorrowedByIs(user: int)

  predicate Holds(c: Condition, b: Book) {
    match c
    case TitleContains(t) => ContainsIgnoreCase(b.title, t)
    case AuthorContains(t) => ContainsIgnoreCase(b.author, t)
    case BorrowedByIsNull => b.borrowedBy.None?
    case BorrowedByNotNull => b.borrowedBy.Some?
    case BorrowedByIs(u) => b.borrowedBy == Some(u)
  }

  /** A `where` object: either empty, or an `AND` list of conditions. */
  datatype Where = Where(and: Option<seq<Condition>>)

  predicate HoldsAll(conds: seq<Condition>, b: Book) {
    forall i :: 0 <= i < |conds| ==> Holds(conds[i], b)
  }

  predicate Admits(w: Where, b: Book) {
    w.and.None? || HoldsAll(w.and.value, b)
  }

  /** `findMany({ where })`: the rows admitted by `w`, with their contents. */
  function FindMany(store: Store, w: Where): (r: Store)
    ensures forall k :: k in r <==> k in store && Admits(w, store[k])
    ensures forall k :: k in r ==> r[k] == store[k]
  {
    map k | k in store && Admits(w, store[k]) :: store[k]
  }

  // ---------------------------------------------------------------------------
  // getAll
  // ---------------------------------------------------------------------------

  /** The optional filters of `getAll`; an absent field, like an empty title or author, imposes nothing. */
  datatype BookFilter = BookFilter(title: Option<string>, author: Option<string>, available: Option<bool>)

  const NoFilter := BookFilter(None, None, None)

  /** A JavaScript string is truthy exactly when it is non-empty. */
  predicate Truthy(s: Option<string>) {
    s.Some? && s.value != ""
  }

  /** The `AND` list `getAll` builds, in the order it pushes conditions. */
  function Conditions(f: BookFilter): seq<Condition> {
    (if Truthy(f.title) then [TitleContains(f.title.value)] else [])
    + (if Truthy(f.author) then [AuthorContains(f.author.value)] else [])
    + (if f.available.Some? then [if f.available.value then BorrowedByIsNull else BorrowedByNotNull] else [])
  }

  /** The `where` object `getAll` passes to the database. */
  function WhereOf(filters: Option<BookFilter>): (w: Where)
    ensures w.and.Some? ==> |w.and.value| > 0
  {
    if filters.None? then Where(None)
    else
      var and := Conditions(filters.value);
      if |and| > 0 then Where(Some(and)) else Where(None)
  }

  /** What the caller asks for: a book matches when it satisfies every filter that is present. */
  predicate Matches(filters: Option<BookFilter>, b: Book) {
    filters.Some? ==>
      && (filters.value.title.Some? ==> ContainsIgnoreCase(b.title, filters.value.title.value))
      && (filters.value.author.Some? ==> ContainsIgnoreCase(b.author, filters.value.author.value))
      && (filters.value.available.Some? ==> (filters.value.available.value <==> b.borrowedBy.None?))
  }

  /** The `where` clause built by `getAll` admits exactly the books that match the filters. */
  lemma WhereOfMeansMatches(filters: Option<BookFilter>, b: Book)
    ensures Admits(WhereOf(filters), b) <==> Matches(filters, b)
  {
    if filters.Some? {
      var f := filters.value;
      EmptyNeedleAlwaysFound(b.title);
      EmptyNeedleAlwaysFound(b.author);
      var c := Conditions(f);
      var t := if Truthy(f.title) then [TitleContains(f.title.value)] else [];
      var a := if Truthy(f.author) then [AuthorContains(f.author.value)] else [];
      var v := if f.available.Some? then [if f.available.value then BorrowedByIsNull else BorrowedByNotNull] else [];
      assert c == t + a + v;
      assert HoldsAll(c, b) <==> HoldsAll(t, b) && HoldsAll(a, b) && HoldsAll(v, b) by {
        forall i | 0 <= i < |c| ensures c[i] == (if i < |t| then t[i] else if i < |t| + |a| then a[i - |t|] else v[i - |t| - |a|]) { }
        if HoldsAll(t, b) && HoldsAll(a, b) && HoldsAll(v, b) {
          forall i | 0 <= i < |c| ensures Holds(c[i], b) {
            if i < |t| { assert Holds(t[i], b); }
            else if i < |t| + |a| { assert Holds(a[i - |t|], b); }
            else { assert Holds(v[i - |t| - |a|], b); }
          }
        }
        if HoldsAll(c, b) {
          forall i | 0 <= i < |t| ensures Holds(t[i], b) { assert c[i] == t[i]; }
          forall i | 0 <= i < |a| ensures Holds(a[i], b) { assert c[|t| + i] == a[i]; }
          forall i | 0 <= i < |v| ensures Holds(v[i], b) { assert c[|t| + |a| + i] == v[i]; }
        }
      }
      assert HoldsAll(t, b) <==> (f.title.Some? ==> ContainsIgnoreCase(b.title, f.title.value)) by {
        if Truthy(f.title) { assert t[0] == TitleContains(f.title.value); }
      }
      assert HoldsAll(a, b) <==> (f.author.Some? ==> ContainsIgnoreCase(b.author, f.author.value)) by {
        if Truthy(f.author) { assert a[0] == AuthorContains(f.author.value); }
      }
      assert HoldsAll(v, b) <==> (f.available.Some? ==> (f.available.value <==> b.borrowedBy.None?)) by {
        if f.available.Some? { assert Holds(v[0], b) <==> (f.available.value <==> b.borrowedBy.None?); }
      }
    }
  }

  /** `getAll(filters)`: exactly the books that satisfy every filter supplied. */
  function GetAll(store: Store, filters: Option<BookFilter>): (r: Store)
    ensures forall k :: k in r <==> k in store && Matches(filters, store[k])
    ensures forall k :: k in r ==> r[k] == store[k]
  {
    var r := FindMany(store, WhereOf(filters));
    assert forall k :: k in store ==> (Admits(WhereOf(filters), store[k]) <==> Matches(filters, store[k])) by {
      forall k | k in store ensures Admits(WhereOf(filters), store[k]) <==> Matches(filters, store[k]) {
        WhereOfMeansMatches(filters, store[k]);
      }
    }
    r
  }

  /** Without filters, with an empty filter object, or with empty title and author, `getAll` returns every book. */
  lemma GetAllUnfiltered(store: Store)
    ensures GetAll(store, None) == store
    ensures GetAll(store, Some(NoFilter)) == store
    ensures GetAll(store, Some(BookFilter(Some(""), Some(""), None))) == store
  {
  }

  // ---------------------------------------------------------------------------
  // getBook, getBorrowedByUser, fetchBorrowedBooks
  // ---------------------------------------------------------------------------

  /** `getBook(title)`: the first book whose title is exactly `title`, or none. */
  function GetBook(store: Store, title: string): (r: Option<Book>)
    requires WellFormed(store)
    ensures r.None? <==> forall k :: k in store ==> store[k].title != title
    ensures r.Some? ==> r.value.id in store && store[r.value.id] == r.value && r.value.title == title
    ensures r.Some? ==> forall k :: k in store && store[k].title == title ==> r.value.id <= k
  {
    match FirstMatch(store, (b: Book) => b.title == title)
    case None => None
    case Some(k) => Some(store[k])
  }

  /** `getBorrowedByUser(user)`: the books on loan to `user`. */
  function GetBorrowedByUser(store: Store, user: int): (r: Store)
    ensures forall k :: k in r <==> k in store && store[k].borrowedBy == Some(user)
    ensures forall k :: k in r ==> r[k] == store[k]
  {
    var cond := [BorrowedByIs(user)];
    assert forall b :: HoldsAll(cond, b) <==> Holds(cond[0], b);
    FindMany(store, Where(Some(cond)))
  }

  /** `fetchBorrowedBooks()`: every book that is on loan. */
  function FetchBorrowedBooks(store: Store): (r: Store)
    ensures forall k :: k in r <==> k in store && store[k].borrowedBy.Some?
    ensures forall k :: k in r ==> r[k] == store[k]
  {
    var cond := [BorrowedByNotNull];
    assert forall b :: HoldsAll(cond, b) <==> Holds(cond[0], b);
    FindMany(store, Where(Some(cond)))
  }

  /** A user's loans are among all loans, and every loan belongs to exactly one user's list. */
  lemma BorrowedByUserWithinBorrowed(store: Store, user: int)
    ensures GetBorrowedByUser(store, user).Keys <= FetchBorrowedBooks(store).Keys
    ensures forall k :: k in FetchBorrowedBooks(store) ==>
              k in GetBorrowedByUser(store, store[k].borrowedBy.value)
  {
  }

  /** `fetchBorrowedBooks()` answers the same as `getAll` asked for unavailable books. */
  lemma BorrowedIsUnavailable(store: Store)
    ensures FetchBorrowedBooks(store) == GetAll(store, Some(BookFilter(None, None, Some(false))))
  {
  }

  // ---------------------------------------------------------------------------
  // borrowBook and returnBook
  // ---------------------------------------------------------------------------

  const BookNotFound := "Book not found"
  const AlreadyBorrowed := "Book already borrowed"
  const UserNotFound := "User not found"
  const NotBorrowed := "Book is not borrowed"

  /** The store after a successful update, and the updated row the call returns. */
  datatype Updated = Updated(store: Store, book: Book)

  /** `borrowBook(bookId, userId)`; `users` is the set of ids in the users table. */
  function BorrowBook(store: Store, users: set<int>, bookId: int, userId: int): (r: Result<Updated, string>)
    ensures bookId !in store ==> r == Failure(BookNotFound)
    ensures bookId in store && store[bookId].borrowedBy.Some? ==> r == Failure(AlreadyBorrowed)
    ensures bookId in store && store[bookId].borrowedBy.None? && userId !in users ==> r == Failure(UserNotFound)
    ensures r.Success? <==> bookId in store && store[bookId].borrowedBy.None? && userId in users
    ensures r.Success? ==> OnlyHolderChanged(store, r.value.store, bookId, Some(userId))
    ensures r.Success? ==> r.value.book == r.value.store[bookId]
  {
    if bookId !in store then Failure(BookNotFound)
    else if store[bookId].borrowedBy.Some? then Failure(AlreadyBorrowed)
    else if userId !in users then Failure(UserNotFound)
    else
      var book := store[bookId].(borrowedBy := Some(userId));
      Success(Updated(store[bookId := book], book))
  }

  /** `returnBook(bookId)`. */
  function ReturnBook(store: Store, bookId: int): (r: Result<Updated, string>)
    ensures bookId !in store ==> r == Failure(BookNotFound)
    ensures bookId in store && store[bookId].borrowedBy.None? ==> r == Failure(NotBorrowed)
    ensures r.Success? <==> bookId in store && store[bookId].borrowedBy.Some?
    ensures r.Success? ==> OnlyHolderChanged(store, r.value.store, bookId, None)
    ensures r.Success? ==> r.value.book == r.value.store[bookId]
  {
    if bookId !in store then Failure(BookNotFound)
    else if store[bookId].borrowedBy.None? then Failure(NotBorrowed)
    else
      var book := store[bookId].(borrowedBy := None);
      Success(Updated(store[bookId := book], book))
  }

  /** Borrowing then returning a book restores the store, and the return hands back the original row. */
  lemma BorrowThenReturn(store: Store, users: set<int>, bookId: int, userId: int)
    requires BorrowBook(store, users, bookId, userId).Success?
    ensures ReturnBook(BorrowBook(store, users, bookId, userId).value.store, bookId)
            == Success(Updated(store, store[bookId]))
  {
    var lent := BorrowBook(store, users, bookId, userId).value.store;
    var back := ReturnBook(lent, bookId).value;
    assert back.book == store[bookId];
    assert back.store == store;
  }

  /** Once a book is lent, every further borrow of it fails as already borrowed, whoever asks. */
  lemma SecondBorrowFails(store: Store, users: set<int>, bookId: int, userId: int, other: int)
    requires BorrowBook(store, users, bookId, userId).Success?
    ensures BorrowBook(BorrowBook(store, users, bookId, userId).value.store, users, bookId, other)
            == Failure(AlreadyBorrowed)
  {
  }

  /** After a successful return, any known user can borrow the book. */
  lemma ReturnThenBorrow(store: Store, users: set<int>, bookId: int, userId: int)
    requires ReturnBook(store, bookId).Success?
    requires userId in users
    ensures BorrowBook(ReturnBook(store, bookId).value.store, users, bookId, userId).Success?
  {
  }

  /** The ids of the books on loan. */
  function LoanedIds(store: Store): set<int> {
    set k | k in store && store[k].borrowedBy.Some?
  }

  /** A successful borrow puts exactly one more book on loan. */
  lemma BorrowAddsOneLoan(store: Store, users: set<int>, bookId: int, userId: int)
    requires BorrowBook(store, users, bookId, userId).Success?
    ensures LoanedIds(BorrowBook(store, users, bookId, userId).value.store) == LoanedIds(store) + {bookId}
    ensures |LoanedIds(BorrowBook(store, users, bookId, userId).value.store)| == |LoanedIds(store)| + 1
  {
  }

  // ---------------------------------------------------------------------------
  // Sequences of ledger requests
  // ---------------------------------------------------------------------------

  /** A ledger request as the controller receives it. */
  datatype LedgerOp = Borrow(book: int, user: int) | Return(book: int)

  /** The store after one request; a request that fails leaves the store as it was. */
  function Step(store: Store, users: set<int>, op: LedgerOp): (after: Store)
    ensures Invariant(store, users) ==> Invariant(after, users)
    ensures after.Keys == store.Keys
    ensures op.Borrow? && BorrowBook(store, users, op.book, op.user).Failure? ==> after == store
    ensures op.Return? && ReturnBook(store, op.book).Failure? ==> after == store
  {
    match op
    case Borrow(b, u) =>
      (match BorrowBook(store, users, b, u)
       case Success(x) => x.store
       case Failure(_) => store)
    case Return(b) =>
      (match ReturnBook(store, b)
       case Success(x) => x.store
       case Failure(_) => store)
  }

  /** The store after a sequence of requests, served one at a time. */
  function Run(store: Store, users: set<int>, ops: seq<LedgerOp>): Store
    decreases |ops|
  {
    if ops == [] then store else Run(Step(store, users, ops[0]), users, ops[1..])
  }

  /** Served one at a time, no sequence of requests breaks the ledger invariant or changes which books exist. */
  lemma {:induction false} RunPreservesInvariant(store: Store, users: set<int>, ops: seq<LedgerOp>)
    requires Invariant(store, users)
    ensures Invariant(Run(store, users, ops), users)
    ensures Run(store, users, ops).Keys == store.Keys
    decreases |ops|
  {
    if ops != [] {
      RunPreservesInvariant(Step(store, users, ops[0]), users, ops[1..]);
    }
  }
}
