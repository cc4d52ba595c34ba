/**
 * The lending simulator of library_management/services/library_service.go.
 * Books and members are objects: the `books` map and a member's borrowed
 * list hold the same Book object, so a status written through one is seen
 * through the other.
 */
module LibraryService {
  import opened Wrappers
  import opened Ascii

  const AvailableStatus := "Available"
  const BorrowedStatus := "Borrowed"

  function BookNotFound(bookID: int): string { "book not found with bookID " + IntString(bookID) }
  function MemberNotFound(memberID: int): string { "member not found with memberID " + IntString(memberID) }
  function AlreadyBorrowed(bookID: int): string { "the requested bookID " + IntString(bookID) + " is already borrowed" }
  function NotBorrowed(bookID: int): string { "didn't find any borrowed book with id " + IntString(bookID) }

  class Book {
    const id: int
    const title: string
    const author: string
    var status: string

    constructor (id: int, title: string, author: string, status: string)
      ensures this.id == id && this.title == title && this.author == author
      ensures this.status == status
    {
      this.id, this.title, this.author := id, title, author;
      this.status := status;
    }
  }

  /** A book copied out by value (`*book`). */
  datatype BookCopy = BookCopy(id: int, title: string, author: string, status: string)

  function Snapshot(b: Book): BookCopy
    reads b
  {
    BookCopy(b.id, b.title, b.author, b.status)
  }

  class Member {
    const id: int
    const name: string
    var borrowedBooks: seq<Book>

    constructor (id: int, name: string)
      ensures this.id == id && this.name == name && borrowedBooks == []
    {
      this.id, this.name := id, name;
      borrowedBooks := [];
    }
  }

  /** Position of the first book with this id, or |bs| when there is none. */
  function FirstWithId(bs: seq<Book>, bookID: int): (k: nat)
    ensures k <= |bs|
    ensures k < |bs| ==> bs[k].id == bookID
    ensures forall j :: 0 <= j < k ==> bs[j].id != bookID
  {
    if bs == [] then 0
    else if bs[0].id == bookID then 0
    else 1 + FirstWithId(bs[1..], bookID)
  }

  /** The `for i, val := range member.BorrowedBooks` search: the first
      position holding that id, or |bs| when the member has no such book. */
  method FindBorrowed(bs: seq<Book>, bookID: int) returns (k: nat)
    ensures k == FirstWithId(bs, bookID)
  {
    k := 0;
    while k < |bs|
      invariant k <= |bs|
      invariant forall j :: 0 <= j < k ==> bs[j].id != bookID
    {
      if bs[k].id == bookID {
        return;
      }
      k := k + 1;
    }
  }

  class Library {
    var books: map<int, Book>
    var members: map<int, Member>

    /** A library with no books yet; members that have borrowed nothing
        (as the program's start-up member has) make it consistent. */
    constructor (members: map<int, Member>)
      ensures books == map[] && this.members == members
      ensures (forall m :: m in members.Values ==> m.borrowedBooks == []) ==> Consistent()
    {
      books := map[];
      this.members := members;
    }

    /** Every book object that sits in some member's borrowed list. */
    ghost function Lent(): set<Book>
      reads this, members.Values
    {
      set m, b | m in members.Values && b in m.borrowedBooks :: b
    }

    /**
     * The lending invariant: each book is filed under its own id, every lent
     * book is marked "Borrowed", and no book object is lent twice (neither
     * to two members nor twice to one member).
     */
    ghost predicate Consistent()
      reads this, members.Values, Lent()
    {
      && (forall k :: k in books ==> books[k].id == k)
      && (forall b :: b in Lent() ==> b.status == BorrowedStatus)
      && (forall m1, m2, i, j ::
            m1 in members.Values && m2 in members.Values &&
            0 <= i < |m1.borrowedBooks| && 0 <= j < |m2.borrowedBooks| &&
            m1.borrowedBooks[i] == m2.borrowedBooks[j]
            ==> m1 == m2 && i == j)
    }

    /** The member filed under `memberID`, if any, as a frame. */
    ghost function MemberAt(memberID: int): set<Member>
      reads this
    {
      if memberID in members then {members[memberID]} else {}
    }

    /** The book filed under `bookID`, if any, as a frame. */
    ghost function BookAt(bookID: int): set<Book>
      reads this
    {
      if bookID in books then {books[bookID]} else {}
    }

    /** The books in the borrowed list of the member filed under `memberID`. */
    ghost function LentTo(memberID: int): set<Book>
      reads this, members.Values
    {
      if memberID in members then set b | b in members[memberID].borrowedBooks else {}
    }

    /** `l.Books[book.ID] = &book`: a fresh object replaces any entry under that id. */
    method AddBook(id: int, title: string, author: string, status: string)
      modifies this
      ensures id in books && fresh(books[id])
      ensures Snapshot(books[id]) == BookCopy(id, title, author, status)
      ensures books == old(books)[id := books[id]]
      ensures members == old(members)
      ensures old(Consistent()) ==> Consistent()
    {
      var b := new Book(id, title, author, status);
      books := books[id := b];
    }

    /** `delete(l.Books, bookID)`: only that key goes; borrowed lists are untouched. */
    method RemoveBook(bookID: int)
      modifies this
      ensures books == old(books) - {bookID}
      ensures members == old(members)
      ensures old(Consistent()) ==> Consistent()
    {
      books := books - {bookID};
    }

    /**
     * Errors in a fixed order: unknown book, unknown member, book already
     * "Borrowed". On success the very object in `books` is appended to the
     * member's list and marked "Borrowed".
     */
    method BorrowBook(bookID: int, memberID: int) returns (err: Outcome)
      modifies MemberAt(memberID), BookAt(bookID)
      ensures bookID !in books ==> err == Fail(BookNotFound(bookID))
      ensures bookID in books && memberID !in members ==> err == Fail(MemberNotFound(memberID))
      ensures bookID in books && memberID in members && old(books[bookID].status) == BorrowedStatus
              ==> err == Fail(AlreadyBorrowed(bookID))
      ensures err.Pass? <==>
              bookID in books && memberID in members && old(books[bookID].status) != BorrowedStatus
      ensures err.Fail? ==> unchanged(MemberAt(memberID)) && unchanged(BookAt(bookID))
      ensures err.Pass? ==> books[bookID].status == BorrowedStatus
      ensures err.Pass? ==> members[memberID].borrowedBooks ==
                            old(members[memberID].borrowedBooks) + [books[bookID]]
      ensures old(Consistent()) ==> Consistent()
    {
      if bookID !in books {
        return Fail(BookNotFound(bookID));
      } else if memberID !in members {
        return Fail(MemberNotFound(memberID));
      }
      var book, member := books[bookID], members[memberID];
      if book.status == BorrowedStatus {
        return Fail(AlreadyBorrowed(bookID));
      }
      ghost var wasConsistent := Consistent();
      if wasConsistent {
        // the book was not lent, since every lent book is "Borrowed"
        forall m | m in members.Values ensures book !in m.borrowedBooks {
          if book in m.borrowedBooks {
            assert false;
          }
        }
      }
      member.borrowedBooks := member.borrowedBooks + [book];
      book.status := BorrowedStatus;
      if wasConsistent {
        forall b | b in Lent() ensures b.status == BorrowedStatus {
          var m :| m in members.Values && b in m.borrowedBooks;
          if b != book {
            assert b in old(m.borrowedBooks);
          }
        }
        var n := |member.borrowedBooks| - 1;
        forall m1, m2, i, j |
            m1 in members.Values && m2 in members.Values &&
            0 <= i < |m1.borrowedBooks| && 0 <= j < |m2.borrowedBooks| &&
            m1.borrowedBooks[i] == m2.borrowedBooks[j]
          ensures m1 == m2 && i == j
        {
          if m1 == member && i == n {
            if !(m2 == member && j == n) {
              assert false;
            }
          } else if m2 == member && j == n {
            assert false;
          } else {
            assert m1.borrowedBooks[i] == old(m1.borrowedBooks)[i];
            assert m2.borrowedBooks[j] == old(m2.borrowedBooks)[j];
          }
        }
      }
      return Pass;
    }

    /**
     * Looks only at the member's list, never at `books`: the first entry
     * with that id is marked "Available" and spliced out.
     */
    method ReturnBook(bookID: int, memberID: int) returns (err: Outcome)
      modifies MemberAt(memberID), LentTo(memberID)
      ensures memberID !in members ==> err == Fail(MemberNotFound(memberID))
      ensures memberID in members ==>
                var bs := old(members[memberID].borrowedBooks);
                var k := FirstWithId(bs, bookID);
                if k == |bs| then
                  err == Fail(NotBorrowed(bookID)) && members[memberID].borrowedBooks == bs
                  && forall b :: b in bs ==> b.status == old(b.status)
                else
                  err == Pass && members[memberID].borrowedBooks == bs[..k] + bs[k + 1..]
                  && bs[k].status == AvailableStatus
                  && forall b :: b in bs && b != bs[k] ==> b.status == old(b.status)
      ensures old(Consistent()) ==> Consistent()
    {
      if memberID !in members {
        return Fail(MemberNotFound(memberID));
      }
      var member := members[memberID];
      var i := FindBorrowed(member.borrowedBooks, bookID);
      if i == |member.borrowedBooks| {
        return Fail(NotBorrowed(bookID));
      }
      Release(member, i);
      return Pass;
    }

    /** The found entry: mark it "Available" and splice it out of the list. */
    method Release(member: Member, i: nat)
      requires member in members.Values && i < |member.borrowedBooks|
      modifies member, member.borrowedBooks[i]
      ensures member.borrowedBooks == old(member.borrowedBooks[..i] + member.borrowedBooks[i + 1..])
      ensures old(member.borrowedBooks[i]).status == AvailableStatus
      ensures old(Consistent()) ==> Consistent()
    {
      ghost var wasConsistent := Consistent();
      ghost var bs := member.borrowedBooks;
      var val := member.borrowedBooks[i];
      val.status := AvailableStatus;
      member.borrowedBooks := member.borrowedBooks[..i] + member.borrowedBooks[i + 1..];
      if wasConsistent {
        // the returned object left the only list that held it
        forall b | b in Lent() ensures b.status == BorrowedStatus {
          var m :| m in members.Values && b in m.borrowedBooks;
          var p :| 0 <= p < |m.borrowedBooks| && m.borrowedBooks[p] == b;
          if m == member {
            var op := if p < i then p else p + 1;
            assert b == bs[op];
            assert b in old(m.borrowedBooks);
          } else {
            assert b in old(m.borrowedBooks);
          }
        }
        forall m1, m2, p, q |
            m1 in members.Values && m2 in members.Values &&
            0 <= p < |m1.borrowedBooks| && 0 <= q < |m2.borrowedBooks| &&
            m1.borrowedBooks[p] == m2.borrowedBooks[q]
          ensures m1 == m2 && p == q
        {
          var op := if m1 == member && p >= i then p + 1 else p;
          var oq := if m2 == member && q >= i then q + 1 else q;
          assert m1.borrowedBooks[p] == old(m1.borrowedBooks)[op];
          assert m2.borrowedBooks[q] == old(m2.borrowedBooks)[oq];
        }
      }
    }

    /** Copies of the books whose status is exactly "Available", each key once,
        in the (unspecified) order the map is walked. */
    method ListAvailableBooks() returns (r: seq<BookCopy>, ghost keys: seq<int>)
      ensures |keys| == |r|
      ensures forall i, j :: 0 <= i < j < |keys| ==> keys[i] != keys[j]
      ensures forall k :: k in keys <==> k in books && books[k].status == AvailableStatus
      ensures forall i :: 0 <= i < |keys| ==> keys[i] in books && r[i] == Snapshot(books[keys[i]])
    {
      r, keys := [], [];
      var rest := books.Keys;
      while rest != {}
        invariant rest <= books.Keys
        invariant |keys| == |r|
        invariant forall i, j :: 0 <= i < j < |keys| ==> keys[i] != keys[j]
        invariant forall k :: k in keys <==>
                    k in books && k !in rest && books[k].status == AvailableStatus
        invariant forall i :: 0 <= i < |keys| ==> keys[i] in books && r[i] == Snapshot(books[keys[i]])
        decreases rest
      {
        SomeKey(rest);
        var k :| k in rest;
        if books[k].status == AvailableStatus {
          r, keys := r + [Snapshot(books[k])], keys + [k];
        }
        rest := rest - {k};
      }
    }

    /** Copies of the member's borrowed books in list order; empty for an unknown member. */
    method ListBorrowedBooks(memberID: int) returns (r: seq<BookCopy>)
      ensures memberID !in members ==> r == []
      ensures memberID in members ==>
                |r| == |members[memberID].borrowedBooks| &&
                forall i :: 0 <= i < |r| ==> r[i] == Snapshot(members[memberID].borrowedBooks[i])
    {
      r := [];
      if memberID !in members {
        return;
      }
      var bs := members[memberID].borrowedBooks;
      for i := 0 to |bs|
        invariant |r| == i
        invariant forall j :: 0 <= j < i ==> r[j] == Snapshot(bs[j])
      {
        r := r + [Snapshot(bs[i])];
      }
    }

  }

  /** What a caller sees: the status written by BorrowBook and ReturnBook is
      visible through `books` because the list holds the same object. */
  method SharedObjectScenario()
  {
    var alice := new Member(1, "Alice");
    var lib := new Library(map[1 := alice]);
    assert lib.Consistent();
    lib.AddBook(7, "Dune", "Herbert", AvailableStatus);
    var err := lib.BorrowBook(7, 1);
    assert err == Pass;
    assert alice.borrowedBooks[0] == lib.books[7];
    assert lib.books[7].status == BorrowedStatus;
    err := lib.BorrowBook(7, 1);
    assert err == Fail(AlreadyBorrowed(7));
    err := lib.ReturnBook(7, 1);
    assert err == Pass;
    assert alice.borrowedBooks == [];
    assert lib.books[7].status == AvailableStatus;
  }
}
