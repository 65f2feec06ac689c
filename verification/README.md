# Library catalogue rules engine, modelled in Dafny

The application is a browser-based library catalogue. It keeps three collections: books, members and
borrow/return transactions. Almost all of `script.js` draws tables and wires up forms. The part with
rules is small:

- **Availability.** A book's available copies are its owned `copies` minus its transactions whose
  status is still `borrowed`. A member's borrow count is computed the same way, by member id.
- **Transaction lifecycle.** `borrowBook` refuses when no copy is on the shelf. Otherwise it appends a
  `borrowed` transaction with no return date. `returnBook` looks a transaction up by id, sets its return
  date and marks it `returned`. An unknown id does nothing.
- **Dashboard.** Four figures: total copies owned, number of members, loans still out, and loans
  overdue.
- **Search.** A case-insensitive substring match on title, author or ISBN. An empty term shows every book.

The model has four modules, one file each:

- `array_ops.dfy` (`ArrayOps`): the JavaScript array operations the engine is built from, over sequences.
  `Filter` is `filter`, `Count` is `filter(...).length` and `FindIndex` is `find`. Their lemmas cover
  appending, updating one element, order, multiplicity and monotonicity.
- `catalog.dfy` (`Catalog`): the records as datatypes, plus the pure derivations:
  - available copies and active borrow counts;
  - the overdue test;
  - the dashboard summary;
  - the lists the borrow and return forms offer.
- `search.dfy` (`Search`): ASCII lower-casing, `includes`, and the search filter.
- `library.dfy` (`Store`): the class `Library`. Its fields are `books`, `members` and `transactions`.
  `AddBook`, `AddMember`, `BorrowBook` and `ReturnBook` reassign those fields, as the source pushes to
  and updates its arrays.

Each method's contract gives the whole new state. It also says how every derived count moves: a
successful borrow lowers that book's count by one and leaves every other book unchanged. Returning a
loan that is still out raises its book's count by one. Together these give the invariant behind the
guard at `script.js:286`. A book whose shelf count is not negative never gets a negative count, whatever
sequence of adds, borrows and returns follows. `Library.NoneOverLent` states this for the whole
catalogue.

Dates are day numbers, as a date field holds them. The current time is a parameter `now`, in
milliseconds.

Points where the code's behaviour may surprise; the model follows the code:

- `borrowBook` does not check that the member exists.
- `borrowBook` does not compare the due date with the borrow date.
- `returnBook` on an unknown id is a silent no-op, not an error.
- `returnBook` does not check the status. Returning a returned loan again moves its return date and
  changes no count.
- The overdue test compares instants. `new Date('YYYY-MM-DD')` is midnight UTC of the due date, and
  that is compared with the current instant using a strict `<`. So a loan counts as overdue from one
  millisecond after midnight UTC at the start of its due day. For a user west of UTC, that moment falls
  on the evening before the due date in local time. A whole-day comparison would not count a loan as
  overdue on its due day. `Catalog.OverdueByDay` states exactly how the code behaves in whole days.

## Model

| member | source | states |
|---|---|---|
| `ArrayOps.FindIndex` | script.js:324 | `find` returns the first position whose element passes the test, or nothing when no element passes |
| `ArrayOps.Count` | script.js:48 | `filter(...).length` never exceeds the number of elements |
| `ArrayOps.CountZero` | script.js:48 | `filter(...).length` is zero exactly when no element passes the test |
| `ArrayOps.Filter` | script.js:350-354 | `filter` keeps exactly the elements that pass the test, and no more elements than it was given |
| `Catalog.AvailableCopies` | script.js:70-71 | available copies never exceed the owned copies and never fall below owned copies minus the number of transactions |
| `Catalog.AllCopiesOnShelf` | script.js:70-71 | every copy is available exactly when no transaction of that book is still `borrowed` |
| `Catalog.OnLoanWithinBorrowed` | script.js:70-71 | the copies of one book that are out are among the loans counted as borrowed on the dashboard |
| `Catalog.ActiveBorrowCount` | script.js:110-111 | a member's borrow count is at most the number of transactions |
| `Catalog.HoldsNothing` | script.js:110-111 | a member's count is zero exactly when none of their transactions is still `borrowed` |
| `Catalog.ActiveWithinBorrowed` | script.js:110-111 | one member's borrow count never exceeds the total number of loans out |
| `Catalog.AvailableAfterLoan` | script.js:291-301 | appending a `borrowed` transaction lowers that book's available copies by exactly one and leaves every other book's unchanged |
| `Catalog.ActiveAfterLoan` | script.js:291-301 | appending a `borrowed` transaction raises the borrower's count by one and no other member's |
| `Catalog.BorrowedAfterLoan` | script.js:291-301 | appending a `borrowed` transaction adds one to the dashboard's borrowed figure |
| `Catalog.Settled` | script.js:327-328 | a returned record has status `returned` and the given return date, and keeps its id, book, member, borrow date and due date |
| `Catalog.AvailableAfterSettle` | script.js:324-328 | returning a transaction raises its book's available copies by one if it was still `borrowed` (not at all otherwise), and leaves other books unchanged |
| `Catalog.ActiveAfterSettle` | script.js:324-328 | returning a transaction lowers its member's count by one if it was still `borrowed`, and leaves other members unchanged |
| `Catalog.DayStart` | script.js:51 | the instant a date denotes is a whole number of days, and it lies in that very day |
| `Catalog.IsOverdue` | script.js:49-55 | a `returned` transaction is never overdue, and a loan is overdue only on or after its due day |
| `Catalog.OverdueByDay` | script.js:49-54 | a loan still out is overdue after its due day, is not overdue before it, and on the due day is overdue from the first millisecond after midnight UTC |
| `Catalog.TotalCopies` | script.js:46 | the total copies are at least every single book's copies, and zero exactly when every book has zero copies |
| `Catalog.TotalCopiesConcat` | script.js:46 | the total over a catalogue is the sum of the totals of its parts |
| `Catalog.BorrowedCount` | script.js:48 | the borrowed figure is at most the number of transactions |
| `Catalog.NothingOut` | script.js:48 | the borrowed figure is zero exactly when every transaction is `returned` |
| `Catalog.OverdueCount` | script.js:49-56 | the overdue figure is at most the number of transactions |
| `Catalog.OverdueWithinBorrowed` | script.js:48-56 | the overdue figure never exceeds the borrowed figure, because only `borrowed` transactions can be overdue |
| `Catalog.Dashboard` | script.js:45-56 | overdue ≤ borrowed ≤ number of transactions; the member figure is the number of members; total copies bound every book's copies; an empty store gives four zeros |
| `Catalog.BorrowedAfterSettle` | script.js:324-328 | returning a transaction subtracts one from the dashboard's borrowed figure if it was still `borrowed`, and nothing otherwise |
| `Catalog.BorrowableBooks` | script.js:91-101 | a book is offered for borrowing exactly when it is in the catalogue and has at least one copy available |
| `Catalog.OnRecord` | script.js:149-152 | both `find` lookups succeed exactly when some book has the transaction's book id and some member has its member id |
| `Catalog.ListedTransactions` | script.js:148-152 | a transaction is listed exactly when both its book and its member are still on record; others are skipped |
| `Catalog.ReturnableTransactions` | script.js:148-170 | a transaction is offered for return exactly when it is listed and still `borrowed` |
| `Search.Lower` | script.js:343 | lower-casing keeps the length and lower-cases each character on its own |
| `Search.LowerIdempotent` | script.js:343 | lower-casing an already lower-cased string changes nothing |
| `Search.Contains` | script.js:351-353 | `includes` holds exactly when the term occurs at some position of the string |
| `Search.Matches` | script.js:351-353 | the empty term matches every book, and a book matches a term only if one of its three fields is at least as long as the term |
| `Search.SearchBooks` | script.js:342-354 | an empty term yields all books unchanged; otherwise a book is in the result exactly when its lower-cased title, author or ISBN contains the lower-cased term |
| `Search.SearchIsOrderedSelection` | script.js:350-354 | the result is the catalogue with non-matching books deleted: same order, and each matching book as often as in the catalogue |
| `Search.EmptyTermMatchesAll` | script.js:345-348 | the empty-term shortcut shows what filtering by the empty term would show, namely every book |
| `Search.SearchIgnoresTermCase` | script.js:343 | searching for a term and for its lower-cased form gives the same books |
| `Store.Library.constructor` | script.js:2-4 | the store starts from the loaded collections, whose ids are unique |
| `Store.Library.AddBook` | script.js:236-244 | appends the new book and changes nothing else; it starts with all its copies available; total copies grow by its copies; no book becomes over-lent |
| `Store.Library.AddMember` | script.js:259-266 | appends the new member and changes nothing else; the new member holds no books |
| `Store.Library.BorrowBook` | script.js:282-301 | refuses exactly when the book has fewer than one copy available, and then changes nothing; otherwise appends exactly one `borrowed` transaction with the given book, member and dates and no return date; that book's count drops by one, every other book's is unchanged, and no count that was not negative becomes negative |
| `Store.Library.ReturnBook` | script.js:324-328 | updates the transaction with the given id (return date set, status `returned`) and no other; an unknown id changes nothing; if it was `borrowed`, its book's count rises by one, its member's count and the borrowed figure drop by one |
| `Store.LoanEffects` | script.js:291-301 | appending a loan moves each book's, each member's and the dashboard's counts exactly as described above |
| `Store.LoanKeepsShelvesNonNegative` | script.js:283-289 | a loan that passed the shelf check leaves every non-negative available count non-negative |
| `Store.SettleEffects` | script.js:324-328 | updating one transaction to `returned` moves each book's, each member's and the dashboard's borrowed counts as described above |
| `Store.OneCopyScenario` | script.js:276-339 | with one copy, the first borrow succeeds and leaves 0 available, a second borrow is refused, and the return makes 1 available again |

## Left out

- Rendering, tab switching, event wiring, the modal, form resets and default form dates: presentation
  only, with no rules about the collections.
- Loading from and saving to `localStorage` with JSON: this is browser I/O. The `Library` constructor
  takes the loaded collections. Saving is not modelled, so the save/load round trip is not modelled
  either.
- `generateId`: it depends on the clock and on `Math.random`. Each new id is a parameter. Its
  `requires` says that no record has that id. For book and member ids, it also says that no transaction
  refers to the id, as holds for a never-before-issued id.
- Date parsing, `formatDate`, `formatDateForInput` and the host clock: dates are day numbers, and the
  current instant is a parameter. One instant `now` stands for the whole overdue count, although
  `script.js:52` reads the clock with `new Date()` once per transaction.
- `parseInt` on the copies field can give `NaN`. `copies` is a `nat`.
- JavaScript numbers are doubles. The counts are unbounded integers, which agrees with doubles for
  any realistic catalogue.
- Full Unicode `toLowerCase`: only the ASCII letters A-Z are lower-cased.
- `borrowBook` crashes when `books.find` finds nothing. `Library.BorrowBook` requires that the book
  exists.
- Editing and deleting records: the tables show buttons for them, but the file defines no handler.
- Catalog.BorrowableBooks: states which books are offered, not their order. The order is the catalogue
  order, as for every `ArrayOps.Filter` (see `ArrayOps.FilterIsSubseq`).
- Catalog.ListedTransactions: states which transactions are listed, not their order. The order is the
  order of the transactions.
- Catalog.ReturnableTransactions: states which transactions are offered, not their order. The order is
  the order of the transactions.
