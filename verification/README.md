# Library lending and authentication core, modelled in Dafny

This project models the logic-bearing core of a small library-management web application:

- **Lending ledger** (`BooksService`). This is the books table as a map from id to `Book`.
  - `BorrowBook` and `ReturnBook` are the transitions of a book's `borrowedBy` column.
  - `GetAll`, `GetBook`, `GetBorrowedByUser` and `FetchBorrowedBooks` are the queries.
  - The database's `where` clause is modelled as a list of conditions, evaluated row by row.
- **Book search codec**. The page's filter state is encoded into query parameters (`BooksPage.Encode`). The controller decodes them back (`BooksController.DecodeFilters`).
- **Authentication** (`AuthService`, `AuthController`): signup, login, session restore from a token, logout and `me`. The password hasher and the token codec are abstract (`Crypto`), known only through two hypotheses:
  - `SoundHasher`: a password matches any digest made from it.
  - `FaithfulCodec`: verifying a signed token either rejects it or gives back the signed claims.

Helper modules:
- `Wrappers` holds `Option` and `Result`.
- `Text` holds ASCII case folding and substring search.
- `Lookup` holds the choice of the least matching key.

Errors are the message strings the source throws. A failed call carries no new store, so the caller's store is unchanged by construction. `Step` makes this explicit for request sequences.

The model follows the code as written, including three behaviours a reader might not expect:
- The code checks the book, then that it is not borrowed, then the user. A missing user is therefore reported only for an available book.
- Signup performs no duplicate-email check.
- `borrowBook` is a read followed by a write, not one conditional update. The model gives the sequential semantics only.

## Model

| member | source | states |
|---|---|---|
| Text.ContainsIff | oni_project/src/books/books.service.ts:14-17 | the substring search behind `contains` succeeds exactly when the needle occurs at some position of the text |
| BooksService.WhereOfMeansMatches | oni_project/src/books/books.service.ts:9-27 | the `AND` list `getAll` builds admits a book exactly when it satisfies every filter present; an empty title or author admits everything |
| BooksService.GetAll | oni_project/src/books/books.service.ts:9-29 | `getAll` returns exactly the stored books with a case-insensitive title match, a case-insensitive author match and the requested availability, each only when that filter is supplied, with their contents unchanged |
| BooksService.GetAllUnfiltered | oni_project/src/books/books.service.ts:10-28 | no filters, an empty filter object, or empty title and author all return the whole table |
| BooksService.GetBook | oni_project/src/books/books.service.ts:36-40 | `getBook` finds no book exactly when no title equals the query; otherwise it returns a stored book with exactly that title and the least id among such books |
| BooksService.GetBorrowedByUser | oni_project/src/books/books.service.ts:52-56 | returns exactly the books whose `borrowedBy` is the given user |
| BooksService.FetchBorrowedBooks | oni_project/src/books/books.service.ts:82-90 | returns exactly the books whose `borrowedBy` is set |
| BooksService.BorrowedByUserWithinBorrowed | oni_project/src/books/books.service.ts:52-56 | one user's loans are a subset of all loans, and every loan appears in its holder's list |
| BooksService.BorrowedIsUnavailable | oni_project/src/books/books.service.ts:82-90 | the list of all loans equals `getAll` with `available = false` |
| BooksService.BorrowBook | oni_project/src/books/books.service.ts:57-80 | error precedence: a missing book gives "Book not found"; a lent book gives "Book already borrowed", whatever the user; only then does an unknown user give "User not found"; success is exactly the remaining case, and it sets `borrowedBy` of that book alone, leaving every other column and book unchanged |
| BooksService.ReturnBook | oni_project/src/books/books.service.ts:92-110 | a missing book gives "Book not found"; an available book gives "Book is not borrowed"; otherwise only that book's `borrowedBy` is cleared |
| BooksService.BorrowThenReturn | oni_project/src/books/books.service.ts:104-109 | a successful borrow followed by a return restores the original store, and the return yields the original row |
| BooksService.SecondBorrowFails | oni_project/src/books/books.service.ts:65-67 | after a successful borrow, any further borrow of that book by any user fails as already borrowed |
| BooksService.ReturnThenBorrow | oni_project/src/books/books.service.ts:97-109 | after a successful return, any known user can borrow the book |
| BooksService.BorrowAddsOneLoan | oni_project/src/books/books.service.ts:74-79 | a successful borrow adds exactly that book to the set of loaned books, so the loan count grows by one |
| BooksService.Step | oni_project/src/books/books.service.ts:57-110 | a single borrow or return request keeps the set of books and the invariant (rows stored under their own id, every borrower a known user); a failed request leaves the store unchanged |
| BooksService.RunPreservesInvariant | oni_project/src/books/books.service.ts:57-110 | any sequence of borrow/return requests, served one at a time, keeps that invariant and the set of books |
| BooksController.DecodeFilters | oni_project/src/books/books.controller.ts:14-27 | a title or author filter is set only for a present non-empty parameter and carries its value; `available` is set exactly when the parameter is present, true exactly for "true" or "1"; the result is `undefined` exactly when no field is set |
| BooksController.GetBooks | oni_project/src/books/books.controller.ts:14-27 | the books returned are exactly those the query string asks for, read directly off the parameters |
| BooksController.NoParametersMeansEveryBook | oni_project/src/books/books.controller.ts:26 | a request without parameters reaches the service as `undefined`, which answers like an empty filter: every book |
| BooksPage.Encode | oni_frontned/app/books/page.tsx:84-95 | no parameter name is emitted twice, and only `title`, `author` and `available` are emitted |
| BooksPage.EncodedParameters | oni_frontned/app/books/page.tsx:89-93 | `title` (or `author`) is sent exactly when the text box is non-empty, with its text; `available` is sent exactly when a boolean is chosen, as "true" or "false" |
| BooksPage.RoundTrip | oni_frontned/app/books/page.tsx:84-95 | the controller's decoder turns the encoded parameters back into the page's filter, empty text boxes becoming absent fields |
| BooksPage.SearchReturnsWhatPageAsks | oni_frontned/app/books/page.tsx:84-95 | a search from the page returns exactly the books that match its text boxes, ignoring case, and its availability choice |
| BooksPage.SelectRoundTrip | oni_frontned/app/books/page.tsx:245-251 | showing an availability choice in the select box and reading it back gives the same choice: `undefined` "any", true "true", false "false" |
| BooksPage.SelectOptionsRoundTrip | oni_frontned/app/books/page.tsx:245-251 | each of the options "any", "true" and "false" reads back to itself |
| Crypto.SecretKey | oni_project/src/auth/auth.service.ts:58 | the signing secret is never empty; a set, non-empty `SECRET_KEY` is used as is, otherwise "default_secret" |
| Crypto.ToNumber | oni_project/src/auth/auth.service.ts:61-62 | in the model, `Number()` maps null to 0, booleans to 0 or 1, an integer to itself, "" and digit strings to their decimal value, and an object or array, or a non-empty string with a non-digit, to NaN (JavaScript differs for arrays, whitespace, signs and other forms; see Left out) |
| AuthService.Signup | oni_project/src/auth/auth.service.ts:11-22 | signup adds one row under the new id and changes no other row; it stores the digest of the password, never the plaintext, and `fullName` as `name`; it returns exactly `{id, fullName, email}` |
| AuthService.FindByEmail | oni_project/src/auth/auth.service.ts:25-32 | finds no user exactly when no row has that email; otherwise returns a stored row with that email |
| AuthService.Login | oni_project/src/auth/auth.service.ts:24-54 | login succeeds exactly when a user with that email exists and the password matches its digest; every failure is "Invalid credentials"; on success it returns that user's public view and a token signed over its claims with the configured secret and the lifetime "1h" |
| AuthService.Claims | oni_project/src/auth/auth.service.ts:39-43 | the token payload has exactly the keys `id` and `email`, holding the user's id and email |
| AuthService.LoginFailuresIdentical | oni_project/src/auth/auth.service.ts:30-37 | an unknown email and a known email with a wrong password produce the identical failure |
| AuthService.SignupThenLogin | oni_project/src/auth/auth.service.ts:11-37 | with a sound hasher, a new user whose email no earlier account has can log in with the signup password, and gets the user signup returned |
| AuthService.GetUserFromToken | oni_project/src/auth/auth.service.ts:56-66 | returns null for an empty token, a rejected token, a string payload, a payload without a numeric `id`, and an id with no user; otherwise that user's public view |
| AuthService.SessionRestoresLoginUser | oni_project/src/auth/auth.service.ts:39-66 | with a faithful codec, restoring the session from a token login issued, against any later users table that still holds the logged-in user's row, yields the user login returned; it yields null only if the codec rejects the token |
| AuthController.DisplayName | oni_project/src/auth/auth.controller.ts:13 | the stored name is `fullName` when present, even if empty, else `name` when present, else the empty string |
| AuthController.Signup | oni_project/src/auth/auth.controller.ts:10-15 | the handler forwards email and password unchanged: the new row stores the email and the digest of the password; the response names the normalised name |
| AuthController.Login | oni_project/src/auth/auth.controller.ts:17-29 | the handler fails exactly when the service does, with its message; on success the body carries only the user, and the token travels only in the `token` cookie with a max age of 3600000 ms |
| AuthController.CookieLifetimeMatchesToken | oni_project/src/auth/auth.controller.ts:24 | the cookie's max age in milliseconds equals the token lifetime "1h" |
| AuthController.Logout | oni_project/src/auth/auth.controller.ts:31-39 | logout always answers `{ok: true}` and instructs the client to clear the `token` cookie |
| AuthController.Me | oni_project/src/auth/auth.controller.ts:41-47 | with no `token` cookie the user is null; otherwise it is what session restore gives for the cookie's value |
| AuthController.LogoutEndsSession | oni_project/src/auth/auth.controller.ts:31-47 | after the client follows the logout response, `me` reports no user, whatever cookies it held |
| AuthController.LoginThenMe | oni_project/src/auth/auth.controller.ts:17-47 | a client that stores the login cookie is recognised by `me` as the logged-in user, against any later users table that still holds that user's row, unless the codec rejects the token |

## Left out

- Concurrency. `borrowBook` reads the book and then writes it in two separate database calls. Two concurrent requests could both see the book as available. The model serves requests one at a time and claims nothing about interleavings.
- Row order. `findMany` returns a list, which the model represents as a sub-map of the table. `findFirst` without an ordering, and `findUnique` on email, are modelled as the least matching id. The database fixes neither order.
- Unicode case folding. `mode: 'insensitive'` is modelled with ASCII case folding only.
- `LIKE` wildcards in a `contains` filter. The model treats every character of the filter literally.
- Percent-encoding. `URLSearchParams` percent-encodes the query string, and the server decodes it. The model assumes the two are inverse and passes the pairs through unchanged.
- Repeated query parameters. If a parameter appears twice, the server receives an array; the model reads the first value instead. In the source, an array `title` or `author` is truthy, so it reaches the database's `contains`, which rejects it. An array `available` is never equal to 'true', so that request filters to lent books. The page never sends a parameter twice (`BooksPage.Encode`).
- The `params ?? filters` default of `fetchBooks`. Every call site passes the page's filters explicitly.
- Crypto. bcrypt and jsonwebtoken (`oni_project/src/utils/bcrypt.ts`, `oni_project/src/utils/jwt.ts`) are the abstract `Hasher` and `TokenCodec`.
  - The random salt is a parameter.
  - Token expiry against the clock is part of the codec's rejection.
  - Tampering and wrong secrets are not modelled beyond "rejected or faithful".
- Crypto.ToNumber: covers null, booleans, integers, the empty string and digit strings. JavaScript's handling of whitespace, signs, fractions, exponents, hexadecimal, binary and octal literals, `Infinity` and arrays is not modelled; the model gives NaN for all of them, so `getUserFromToken` returns null where the source would look up a user or throw. Fractional numbers are not modelled either; for those, Prisma would throw rather than return null. `login` never issues such tokens.
- 32-bit ids. Ids are unbounded integers in the model. The database's `Int` id column is 32-bit, and a lookup with an id outside that range throws instead of finding nothing. So `borrowBook` and `returnBook` then do not answer "Book not found", and `getUserFromToken` throws instead of returning null. An example is a token signed with `id: 2147483648`; anyone can forge one when `SECRET_KEY` is unset, because the secret is then the public "default_secret".
- AuthService.Login: the model covers only login bodies that carry both `email` and `password`, because its email and password are always strings. A body without `email` makes the database's unique lookup throw a validation error. A body without `password`, for a known email, makes the password comparison throw its own error. Neither failure is "Invalid credentials".
- AuthService.Signup: a signup body without `password` makes the hasher throw its own error, so signup fails. A body without `email` reaches the database's create call with no email; the database rejects the required column or, if the column is optional, stores NULL. The model's email and password are always strings, so its signup always succeeds.
- AuthService.LoginFailuresIdentical: only the failure values are identical. An unknown email fails before the password comparison runs, while a wrong password pays for the full comparison, so response time can still tell the two cases apart. The model has no notion of time.
- Database-assigned ids. A new user's id is a parameter that the caller guarantees is not yet in use, as the database sequence does.
- Duplicate emails. The code does not check them at signup. Rejection would come from a database schema that is not part of this model, so no uniqueness is claimed.
- The author endpoints and the book create/update/delete pass-throughs. Their errors come from the ORM, which is not part of this model.
- Cookie flags (`httpOnly`, `secure`, `sameSite`), CORS, application bootstrap and module wiring. These are HTTP framework plumbing.
- `ParseIntPipe`. Ids reach the service as integers.
- Revocation. Logout clears only the client's cookie; a token stays valid until it expires.
