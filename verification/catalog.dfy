/** The library's records (books, members, loan transactions) and the
    quantities the application derives from them: available copies, active
    borrow counts, overdue status, the dashboard summary and the lists offered
    for borrowing and returning. Nothing here changes state. */
module Catalog {
  import opened ArrayOps

  type Id = string

  /** A calendar date as entered in a date field, numbered in days from 1970-01-01. */
  type Day = int

  /** A moment in time, in milliseconds since 1970-01-01T00:00:00Z. */
  type Instant = int

  const MILLIS_PER_DAY: int := 86_400_000

  datatype Book = Book(id: Id, title: string, author: string, isbn: string, copies: nat)

  /** `phone` is the empty string when none was given. */
  datatype Member = Member(id: Id, name: string, email: string, phone: string)

  datatype Status = Borrowed | Returned

  /** One loan of one copy of a book to a member; `returnDate` is `None` until it is returned. */
  datatype Transaction = Transaction(
    id: Id,
    bookId: Id,
    memberId: Id,
    borrowDate: Day,
    dueDate: Day,
    returnDate: Option<Day>,
    status: Status)

  // Lookup keys and the tests the engine filters with.

  function BookKey(b: Book): Id { b.id }
  function MemberKey(m: Member): Id { m.id }
  function TransactionKey(t: Transaction): Id { t.id }

  function HasBookId(id: Id): Book -> bool { (b: Book) => b.id == id }
  function HasMemberId(id: Id): Member -> bool { (m: Member) => m.id == id }
  function HasTransactionId(id: Id): Transaction -> bool { (t: Transaction) => t.id == id }

  /** A transaction whose copy is still out. */
  predicate IsActive(t: Transaction) { t.status == Borrowed }

  /** A copy of book `bookId` that is still out. */
  function OnLoan(bookId: Id): Transaction -> bool { (t: Transaction) => t.bookId == bookId && t.status == Borrowed }

  /** A copy still held by member `memberId`. */
  function HeldBy(memberId: Id): Transaction -> bool { (t: Transaction) => t.memberId == memberId && t.status == Borrowed }

  // Availability.

  /** Copies of `b` on the shelf: owned copies less the loans of `b` not yet returned. */
  function AvailableCopies(b: Book, txs: seq<Transaction>): (n: int)
    ensures b.copies - |txs| <= n <= b.copies
  {
    b.copies - Count(txs, OnLoan(b.id))
  }

  /** Every copy is on the shelf exactly when no loan of the book is still out. */
  lemma AllCopiesOnShelf(b: Book, txs: seq<Transaction>)
    ensures AvailableCopies(b, txs) == b.copies
        <==> forall i :: 0 <= i < |txs| ==> !(txs[i].bookId == b.id && txs[i].status == Borrowed)
  {
    CountZero(txs, OnLoan(b.id));
  }

  /** Books a member currently holds. */
  function ActiveBorrowCount(m: Member, txs: seq<Transaction>): (n: nat)
    ensures n <= |txs|
  {
    Count(txs, HeldBy(m.id))
  }

  /** A member holds nothing exactly when none of their loans is still out. */
  lemma HoldsNothing(m: Member, txs: seq<Transaction>)
    ensures ActiveBorrowCount(m, txs) == 0
        <==> forall i :: 0 <= i < |txs| ==> !(txs[i].memberId == m.id && txs[i].status == Borrowed)
  {
    CountZero(txs, HeldBy(m.id));
  }

  /** A new loan of book `id` takes one copy off its shelf and leaves every other book's count alone. */
  lemma AvailableAfterLoan(b: Book, txs: seq<Transaction>, t: Transaction)
    requires t.status == Borrowed
    ensures AvailableCopies(b, txs + [t]) == AvailableCopies(b, txs) - (if t.bookId == b.id then 1 else 0)
  {
    CountAppend(txs, t, OnLoan(b.id));
  }

  /** A new loan raises the borrower's count by one and no other member's. */
  lemma ActiveAfterLoan(m: Member, txs: seq<Transaction>, t: Transaction)
    requires t.status == Borrowed
    ensures ActiveBorrowCount(m, txs + [t]) == ActiveBorrowCount(m, txs) + (if t.memberId == m.id then 1 else 0)
  {
    CountAppend(txs, t, HeldBy(m.id));
  }

  /** The record of a loan once it is returned on day `d`. */
  function Settled(t: Transaction, d: Day): (r: Transaction)
    ensures r.status == Returned && r.returnDate == Some(d)
    ensures r.id == t.id && r.bookId == t.bookId && r.memberId == t.memberId
    ensures r.borrowDate == t.borrowDate && r.dueDate == t.dueDate
  {
    t.(returnDate := Some(d), status := Returned)
  }

  /** Returning loan `i` puts its copy back on the shelf if it was still out; no other book changes. */
  lemma AvailableAfterSettle(b: Book, txs: seq<Transaction>, i: nat, d: Day)
    requires i < |txs|
    ensures AvailableCopies(b, txs[i := Settled(txs[i], d)])
         == AvailableCopies(b, txs) + (if txs[i].bookId == b.id && txs[i].status == Borrowed then 1 else 0)
  {
    CountUpdate(txs, i, Settled(txs[i], d), OnLoan(b.id));
  }

  /** Returning loan `i` lowers its borrower's count by one if it was still out; no other member changes. */
  lemma ActiveAfterSettle(m: Member, txs: seq<Transaction>, i: nat, d: Day)
    requires i < |txs|
    ensures ActiveBorrowCount(m, txs[i := Settled(txs[i], d)])
         == ActiveBorrowCount(m, txs) - (if txs[i].memberId == m.id && txs[i].status == Borrowed then 1 else 0)
  {
    CountUpdate(txs, i, Settled(txs[i], d), HeldBy(m.id));
  }

  // Overdue loans.

  /** The moment a date field's value denotes: midnight UTC at the start of that day. */
  function DayStart(d: Day): (r: Instant)
    ensures r % MILLIS_PER_DAY == 0 && r / MILLIS_PER_DAY == d
  {
    d * MILLIS_PER_DAY
  }

  /** A loan still out whose due date, read as midnight UTC, lies before the moment `now`. */
  predicate IsOverdue(t: Transaction, now: Instant)
    ensures t.status == Returned ==> !IsOverdue(t, now)
    ensures IsOverdue(t, now) ==> t.dueDate <= now / MILLIS_PER_DAY
  {
    t.status == Borrowed && DayStart(t.dueDate) < now
  }

  function OverdueAt(now: Instant): Transaction -> bool { (t: Transaction) => IsOverdue(t, now) }

  /** How the instant comparison reads in whole days: a loan is overdue after its due day and
      not before it, and on the due day itself from the first millisecond after midnight UTC. */
  lemma OverdueByDay(t: Transaction, now: Instant)
    requires t.status == Borrowed
    ensures t.dueDate < now / MILLIS_PER_DAY ==> IsOverdue(t, now)
    ensures t.dueDate > now / MILLIS_PER_DAY ==> !IsOverdue(t, now)
    ensures t.dueDate == now / MILLIS_PER_DAY ==> (IsOverdue(t, now) <==> now % MILLIS_PER_DAY != 0)
  {
  }

  // Dashboard.

  /** Copies owned, summed left to right like `reduce((sum, book) => sum + book.copies, 0)`. */
  function TotalCopies(books: seq<Book>): (n: nat)
    ensures forall i :: 0 <= i < |books| ==> books[i].copies <= n
    ensures n == 0 <==> forall i :: 0 <= i < |books| ==> books[i].copies == 0
  {
    if books == [] then 0
    else TotalCopies(books[..|books| - 1]) + books[|books| - 1].copies
  }

  /** The total of a catalogue is the total of its parts, so adding a book adds its copies. */
  lemma {:induction false} TotalCopiesConcat(a: seq<Book>, b: seq<Book>)
    ensures TotalCopies(a + b) == TotalCopies(a) + TotalCopies(b)
  {
    if b != [] {
      var last := |b| - 1;
      assert (a + b)[..|a + b| - 1] == a + b[..last];
      TotalCopiesConcat(a, b[..last]);
    } else {
      assert a + b == a;
    }
  }

  /** Loans not yet returned, across all books. */
  function BorrowedCount(txs: seq<Transaction>): (n: nat)
    ensures n <= |txs|
  {
    Count(txs, IsActive)
  }

  /** Nothing is out exactly when every transaction has been returned. */
  lemma NothingOut(txs: seq<Transaction>)
    ensures BorrowedCount(txs) == 0 <==> forall i :: 0 <= i < |txs| ==> txs[i].status == Returned
  {
    CountZero(txs, IsActive);
  }

  function OverdueCount(txs: seq<Transaction>, now: Instant): (n: nat)
    ensures n <= |txs|
  {
    Count(txs, OverdueAt(now))
  }

  /** Only loans still out can be overdue. */
  lemma OverdueWithinBorrowed(txs: seq<Transaction>, now: Instant)
    ensures OverdueCount(txs, now) <= BorrowedCount(txs)
  {
    CountMonotonic(txs, OverdueAt(now), IsActive);
  }

  /** One member's loans are among all loans still out. */
  lemma ActiveWithinBorrowed(m: Member, txs: seq<Transaction>)
    ensures ActiveBorrowCount(m, txs) <= BorrowedCount(txs)
  {
    CountMonotonic(txs, HeldBy(m.id), IsActive);
  }

  /** One book's copies out are among all loans still out. */
  lemma OnLoanWithinBorrowed(b: Book, txs: seq<Transaction>)
    ensures b.copies - AvailableCopies(b, txs) <= BorrowedCount(txs)
  {
    CountMonotonic(txs, OnLoan(b.id), IsActive);
  }

  /** Returning loan `i` is one loan fewer out if it was still out, and changes nothing otherwise. */
  lemma BorrowedAfterSettle(txs: seq<Transaction>, i: nat, d: Day)
    requires i < |txs|
    ensures BorrowedCount(txs[i := Settled(txs[i], d)]) == BorrowedCount(txs) - (if txs[i].status == Borrowed then 1 else 0)
  {
    CountUpdate(txs, i, Settled(txs[i], d), IsActive);
  }

  /** A new loan is one more loan out. */
  lemma BorrowedAfterLoan(txs: seq<Transaction>, t: Transaction)
    requires t.status == Borrowed
    ensures BorrowedCount(txs + [t]) == BorrowedCount(txs) + 1
  {
    CountAppend(txs, t, IsActive);
  }

  datatype Summary = Summary(totalBooks: nat, totalMembers: nat, borrowedBooks: nat, overdueBooks: nat)

  /** The four dashboard figures at the moment `now`. */
  function Dashboard(books: seq<Book>, members: seq<Member>, txs: seq<Transaction>, now: Instant): (s: Summary)
    ensures s.overdueBooks <= s.borrowedBooks <= |txs|
    ensures s.totalMembers == |members|
    ensures forall i :: 0 <= i < |books| ==> books[i].copies <= s.totalBooks
    ensures books == [] && members == [] && txs == [] ==> s == Summary(0, 0, 0, 0)
  {
    OverdueWithinBorrowed(txs, now);
    Summary(TotalCopies(books), |members|, BorrowedCount(txs), OverdueCount(txs, now))
  }

  // The lists offered to the borrow and return forms.

  function HasCopyFree(txs: seq<Transaction>): Book -> bool { (b: Book) => AvailableCopies(b, txs) > 0 }

  /** The books offered for borrowing, in catalogue order: those with a copy on the shelf. */
  function BorrowableBooks(books: seq<Book>, txs: seq<Transaction>): (r: seq<Book>)
    ensures forall i :: 0 <= i < |r| ==> r[i] in books && AvailableCopies(r[i], txs) >= 1
    ensures forall i :: 0 <= i < |books| && AvailableCopies(books[i], txs) >= 1 ==> books[i] in r
  {
    Filter(books, HasCopyFree(txs))
  }

  /** Whether both lookups by id, of the transaction's book and of its member, find a record
      (a transaction that names a missing one is skipped, not an error). */
  predicate OnRecord(books: seq<Book>, members: seq<Member>, t: Transaction)
    ensures OnRecord(books, members, t) <==>
              ((exists i :: 0 <= i < |books| && books[i].id == t.bookId)
               && (exists j :: 0 <= j < |members| && members[j].id == t.memberId))
  {
    FindIndex(books, HasBookId(t.bookId)).Some? && FindIndex(members, HasMemberId(t.memberId)).Some?
  }

  function Resolves(books: seq<Book>, members: seq<Member>): Transaction -> bool
  {
    (t: Transaction) => OnRecord(books, members, t)
  }

  /** The transactions listed in the history table, in the order they were made. */
  function ListedTransactions(books: seq<Book>, members: seq<Member>, txs: seq<Transaction>): (r: seq<Transaction>)
    ensures forall t :: t in r <==>
              (t in txs
               && (exists i :: 0 <= i < |books| && books[i].id == t.bookId)
               && (exists j :: 0 <= j < |members| && members[j].id == t.memberId))
  {
    Filter(txs, Resolves(books, members))
  }

  /** The transactions offered for returning: listed ones whose copy is still out. */
  function ReturnableTransactions(books: seq<Book>, members: seq<Member>, txs: seq<Transaction>): (r: seq<Transaction>)
    ensures forall t :: t in r <==>
              (t in txs && t.status == Borrowed
               && (exists i :: 0 <= i < |books| && books[i].id == t.bookId)
               && (exists j :: 0 <= j < |members| && members[j].id == t.memberId))
  {
    Filter(ListedTransactions(books, members, txs), IsActive)
  }
}
