/** The store the application keeps in memory: three collections that the add,
    borrow and return operations change in place. */
module Store {
  import opened ArrayOps
  import opened Catalog

  /** What a borrow request comes to. */
  datatype BorrowOutcome = Lent(loan: Transaction) | NoCopiesAvailable

  class Library {
    var books: seq<Book>
    var members: seq<Member>
    var transactions: seq<Transaction>

    /** Ids are unique within each collection: each comes from a fresh-id generator. */
    ghost predicate Valid()
      reads this
    {
      Distinct(books, BookKey) && Distinct(members, MemberKey) && Distinct(transactions, TransactionKey)
    }

    /** No book is lent out more often than it is owned. */
    ghost predicate NoneOverLent()
      reads this
    {
      forall i :: 0 <= i < |books| ==> AvailableCopies(books[i], transactions) >= 0
    }

    /** An id the generator has not handed out before: no record has it and no transaction refers to it. */
    ghost predicate FreshBookId(id: Id)
      reads this
    {
      (forall i :: 0 <= i < |books| ==> books[i].id != id)
      && forall i :: 0 <= i < |transactions| ==> transactions[i].bookId != id
    }

    ghost predicate FreshMemberId(id: Id)
      reads this
    {
      (forall i :: 0 <= i < |members| ==> members[i].id != id)
      && forall i :: 0 <= i < |transactions| ==> transactions[i].memberId != id
    }

    ghost predicate FreshTransactionId(id: Id)
      reads this
    {
      forall i :: 0 <= i < |transactions| ==> transactions[i].id != id
    }

    /** The store as loaded from storage (empty collections when nothing was saved). */
    constructor (books: seq<Book>, members: seq<Member>, transactions: seq<Transaction>)
      requires Distinct(books, BookKey) && Distinct(members, MemberKey) && Distinct(transactions, TransactionKey)
      ensures Valid()
      ensures this.books == books && this.members == members && this.transactions == transactions
    {
      this.books := books;
      this.members := members;
      this.transactions := transactions;
    }

    /** Appends a new book; it starts with all its copies on the shelf. */
    method AddBook(id: Id, title: string, author: string, isbn: string, copies: nat)
      requires Valid() && FreshBookId(id)
      modifies this
      ensures Valid()
      ensures books == old(books) + [Book(id, title, author, isbn, copies)]
      ensures members == old(members) && transactions == old(transactions)
      ensures AvailableCopies(books[|books| - 1], transactions) == copies
      ensures TotalCopies(books) == old(TotalCopies(books)) + copies
      ensures old(NoneOverLent()) ==> NoneOverLent()
    {
      var book := Book(id, title, author, isbn, copies);
      FreshKeyKeepsDistinct(books, book, BookKey);
      AllCopiesOnShelf(book, transactions);
      TotalCopiesConcat(books, [book]);
      books := books + [book];
    }

    /** Appends a new member, who holds no books yet. */
    method AddMember(id: Id, name: string, email: string, phone: string)
      requires Valid() && FreshMemberId(id)
      modifies this
      ensures Valid()
      ensures members == old(members) + [Member(id, name, email, phone)]
      ensures books == old(books) && transactions == old(transactions)
      ensures ActiveBorrowCount(members[|members| - 1], transactions) == 0
      ensures NoneOverLent() == old(NoneOverLent())
    {
      var member := Member(id, name, email, phone);
      FreshKeyKeepsDistinct(members, member, MemberKey);
      HoldsNothing(member, transactions);
      members := members + [member];
    }

    /** Lends a copy of book `bookId` to `memberId`, unless no copy is on the shelf. The member is
        not looked up, and the due date is not compared with the borrow date. */
    method BorrowBook(id: Id, bookId: Id, memberId: Id, borrowDate: Day, dueDate: Day) returns (outcome: BorrowOutcome)
      requires Valid() && FreshTransactionId(id)
      requires exists i :: 0 <= i < |books| && books[i].id == bookId
      modifies this
      ensures Valid()
      ensures books == old(books) && members == old(members)
      ensures forall i :: 0 <= i < |books| && books[i].id == bookId ==>
                (outcome.NoCopiesAvailable? <==> AvailableCopies(books[i], old(transactions)) < 1)
      ensures outcome.NoCopiesAvailable? ==> transactions == old(transactions)
      ensures outcome.Lent? ==>
                outcome.loan == Transaction(id, bookId, memberId, borrowDate, dueDate, None, Borrowed)
                && transactions == old(transactions) + [outcome.loan]
      ensures forall i :: 0 <= i < |books| ==>
                AvailableCopies(books[i], transactions)
                == AvailableCopies(books[i], old(transactions)) - (if outcome.Lent? && books[i].id == bookId then 1 else 0)
      ensures forall i :: 0 <= i < |books| && AvailableCopies(books[i], old(transactions)) >= 0 ==>
                AvailableCopies(books[i], transactions) >= 0
      ensures forall m :: ActiveBorrowCount(m, transactions)
                == ActiveBorrowCount(m, old(transactions)) + (if outcome.Lent? && m.id == memberId then 1 else 0)
      ensures BorrowedCount(transactions) == BorrowedCount(old(transactions)) + (if outcome.Lent? then 1 else 0)
    {
      var k := FindIndex(books, HasBookId(bookId)).value;
      var book := books[k];
      forall i | 0 <= i < |books| && books[i].id == bookId
        ensures i == k
      {
        SameKeySamePosition(books, BookKey, i, k);
      }
      if AvailableCopies(book, transactions) < 1 {
        return NoCopiesAvailable;
      }
      var loan := Transaction(id, bookId, memberId, borrowDate, dueDate, None, Borrowed);
      LoanEffects(books, transactions, loan);
      LoanKeepsShelvesNonNegative(books, transactions, k, loan);
      FreshKeyKeepsDistinct(transactions, loan, TransactionKey);
      transactions := transactions + [loan];
      outcome := Lent(loan);
    }

    /** Records the return of transaction `txId` on `returnDate`; an unknown id changes nothing.
        The status is not checked first: returning a returned loan again only moves its return date. */
    method ReturnBook(txId: Id, returnDate: Day) returns (found: bool)
      requires Valid()
      modifies this
      ensures Valid()
      ensures books == old(books) && members == old(members)
      ensures found <==> exists k :: 0 <= k < |old(transactions)| && old(transactions)[k].id == txId
      ensures !found ==> transactions == old(transactions)
      ensures |transactions| == |old(transactions)|
      ensures forall k :: 0 <= k < |transactions| ==>
                transactions[k] == if old(transactions)[k].id == txId then Settled(old(transactions)[k], returnDate)
                                   else old(transactions)[k]
      ensures forall k, i :: 0 <= k < |old(transactions)| && old(transactions)[k].id == txId && 0 <= i < |books| ==>
                AvailableCopies(books[i], transactions)
                == AvailableCopies(books[i], old(transactions))
                   + (if old(transactions)[k].status == Borrowed && old(transactions)[k].bookId == books[i].id then 1 else 0)
      ensures forall k, m :: 0 <= k < |old(transactions)| && old(transactions)[k].id == txId ==>
                ActiveBorrowCount(m, transactions)
                == ActiveBorrowCount(m, old(transactions))
                   - (if old(transactions)[k].status == Borrowed && old(transactions)[k].memberId == m.id then 1 else 0)
      ensures forall k :: 0 <= k < |old(transactions)| && old(transactions)[k].id == txId ==>
                BorrowedCount(transactions)
                == BorrowedCount(old(transactions)) - (if old(transactions)[k].status == Borrowed then 1 else 0)
      ensures forall i :: 0 <= i < |books| ==> AvailableCopies(books[i], transactions) >= AvailableCopies(books[i], old(transactions))
      ensures old(NoneOverLent()) ==> NoneOverLent()
    {
      var search := FindIndex(transactions, HasTransactionId(txId));
      if search.None? {
        return false;
      }
      var k := search.value;
      forall j | 0 <= j < |transactions| && transactions[j].id == txId
        ensures j == k
      {
        assert TransactionKey(transactions[j]) == TransactionKey(transactions[k]);
      }
      var settled := Settled(transactions[k], returnDate);
      SettleEffects(books, transactions, k, returnDate);
      transactions := transactions[k := settled];
      found := true;
    }
  }

  /** What appending a new loan does to every derived count. */
  lemma LoanEffects(books: seq<Book>, txs: seq<Transaction>, loan: Transaction)
    requires loan.status == Borrowed
    ensures forall i :: 0 <= i < |books| ==>
              AvailableCopies(books[i], txs + [loan])
              == AvailableCopies(books[i], txs) - (if books[i].id == loan.bookId then 1 else 0)
    ensures forall m :: ActiveBorrowCount(m, txs + [loan])
              == ActiveBorrowCount(m, txs) + (if m.id == loan.memberId then 1 else 0)
    ensures BorrowedCount(txs + [loan]) == BorrowedCount(txs) + 1
  {
    forall i | 0 <= i < |books|
      ensures AvailableCopies(books[i], txs + [loan])
           == AvailableCopies(books[i], txs) - (if books[i].id == loan.bookId then 1 else 0)
    {
      AvailableAfterLoan(books[i], txs, loan);
    }
    forall m
      ensures ActiveBorrowCount(m, txs + [loan])
           == ActiveBorrowCount(m, txs) + (if m.id == loan.memberId then 1 else 0)
    {
      ActiveAfterLoan(m, txs, loan);
    }
    BorrowedAfterLoan(txs, loan);
  }

  /** A loan of book `k` that passed the shelf check leaves no book with a negative shelf count
      that did not have one before. */
  lemma LoanKeepsShelvesNonNegative(books: seq<Book>, txs: seq<Transaction>, k: nat, loan: Transaction)
    requires Distinct(books, BookKey)
    requires k < |books| && books[k].id == loan.bookId && loan.status == Borrowed
    requires AvailableCopies(books[k], txs) >= 1
    ensures forall i :: 0 <= i < |books| && AvailableCopies(books[i], txs) >= 0 ==>
              AvailableCopies(books[i], txs + [loan]) >= 0
  {
    forall i | 0 <= i < |books| && AvailableCopies(books[i], txs) >= 0
      ensures AvailableCopies(books[i], txs + [loan]) >= 0
    {
      AvailableAfterLoan(books[i], txs, loan);
      if books[i].id == loan.bookId {
        SameKeySamePosition(books, BookKey, i, k);
      }
    }
  }

  /** What returning loan `k` on day `d` does to every derived count. */
  lemma SettleEffects(books: seq<Book>, txs: seq<Transaction>, k: nat, d: Day)
    requires k < |txs|
    ensures forall i :: 0 <= i < |books| ==>
              AvailableCopies(books[i], txs[k := Settled(txs[k], d)])
              == AvailableCopies(books[i], txs) + (if txs[k].status == Borrowed && txs[k].bookId == books[i].id then 1 else 0)
    ensures forall m :: ActiveBorrowCount(m, txs[k := Settled(txs[k], d)])
              == ActiveBorrowCount(m, txs) - (if txs[k].status == Borrowed && txs[k].memberId == m.id then 1 else 0)
    ensures BorrowedCount(txs[k := Settled(txs[k], d)]) == BorrowedCount(txs) - (if txs[k].status == Borrowed then 1 else 0)
  {
    forall i | 0 <= i < |books|
      ensures AvailableCopies(books[i], txs[k := Settled(txs[k], d)])
           == AvailableCopies(books[i], txs) + (if txs[k].status == Borrowed && txs[k].bookId == books[i].id then 1 else 0)
    {
      AvailableAfterSettle(books[i], txs, k, d);
    }
    forall m
      ensures ActiveBorrowCount(m, txs[k := Settled(txs[k], d)])
           == ActiveBorrowCount(m, txs) - (if txs[k].status == Borrowed && txs[k].memberId == m.id then 1 else 0)
    {
      ActiveAfterSettle(m, txs, k, d);
    }
    BorrowedAfterSettle(txs, k, d);
  }

  /** A book with one copy: the first borrow succeeds, the second is refused, and returning the
      first loan puts the copy back on the shelf. */
  method OneCopyScenario() returns (first: BorrowOutcome, second: BorrowOutcome, afterBorrow: int, afterReturn: int)
    ensures first.Lent? && afterBorrow == 0
    ensures second == NoCopiesAvailable
    ensures afterReturn == 1
  {
    var book := Book("b1", "Dune", "Frank Herbert", "9780441013593", 1);
    var library := new Library([book], [Member("m1", "Ada", "ada@example.org", "")], []);
    assert library.books[0].id == "b1";
    first := library.BorrowBook("t1", "b1", "m1", 20000, 20014);
    afterBorrow := AvailableCopies(book, library.transactions);
    second := library.BorrowBook("t2", "b1", "m1", 20001, 20015);
    var returned := library.ReturnBook("t1", 20007);
    afterReturn := AvailableCopies(book, library.transactions);
  }
}
