/**
 * In-memory library circulation: books with copy counts, members with
 * tier-dependent borrowing limits and overdue fines, and the library that
 * owns the catalog, the member registry and the transaction log.
 *
 * Time is an integer day stamp passed in by the caller (the day the
 * operation happens); money is in integer cents.
 */
module LibrarySystem {

  type Isbn = string
  type MemberId = int

  import opened Wrappers

  datatype Genre = Fiction | NonFiction | Science | History | Biography | Mystery | Fantasy | Romance

  /** What a membership tier fixes: how many books at once, and for how many days. */
  datatype Policy = Policy(maxBooks: nat, borrowDuration: nat)

  /** The first member id handed out by a fresh id counter. */
  const FirstMemberId: int := 1000

  /** The overdue fine, in cents per day past the loan duration. */
  const FinePerDayCents: nat := 50

  const TierNames: set<string> := {"Regular", "Premium", "Student"}

  /** The tier table; None is the failed dictionary lookup of an unknown tier. */
  function TierPolicy(membershipType: string): (p: Option<Policy>)
    ensures p.Some? <==> membershipType in TierNames
    ensures p.Some? ==> 3 <= p.value.maxBooks <= 10 && 14 <= p.value.borrowDuration <= 30
  {
    if membershipType == "Regular" then Some(Policy(3, 14))
    else if membershipType == "Premium" then Some(Policy(10, 30))
    else if membershipType == "Student" then Some(Policy(5, 21))
    else None
  }

  lemma TierTable()
    ensures TierPolicy("Regular") == Some(Policy(3, 14))
    ensures TierPolicy("Premium") == Some(Policy(10, 30))
    ensures TierPolicy("Student") == Some(Policy(5, 21))
  {
  }

  /** The fine assessed when a loan is returned after daysBorrowed days. */
  function OverdueFine(daysBorrowed: int, borrowDuration: int): (fine: nat)
    ensures fine == 0 <==> daysBorrowed <= borrowDuration
    ensures fine % FinePerDayCents == 0
  {
    if daysBorrowed > borrowDuration then (daysBorrowed - borrowDuration) * FinePerDayCents else 0
  }

  /** Returning on the last day of the loan costs nothing; each further day costs one day's fine. */
  lemma OverdueFineSteps(daysBorrowed: int, borrowDuration: int)
    ensures OverdueFine(borrowDuration, borrowDuration) == 0
    ensures OverdueFine(borrowDuration + 1, borrowDuration) == FinePerDayCents
    ensures daysBorrowed >= borrowDuration ==>
      OverdueFine(daysBorrowed + 1, borrowDuration) == OverdueFine(daysBorrowed, borrowDuration) + FinePerDayCents
  {
  }

  lemma OverdueFineMonotone(d1: int, d2: int, borrowDuration: int)
    requires d1 <= d2
    ensures OverdueFine(d1, borrowDuration) <= OverdueFine(d2, borrowDuration)
  {
  }

  /** A Regular member returning after 20 days pays six days' fine. */
  lemma RegularTwentyDaysFine()
    ensures OverdueFine(20, TierPolicy("Regular").value.borrowDuration) == 300
  {
  }

  predicate NoDuplicates<T(==)>(s: seq<T>)
  {
    forall i, j :: 0 <= i < j < |s| ==> s[i] != s[j]
  }

  /** Removes the first occurrence of x, as a list's remove does; a list without x is left as it is. */
  function RemoveFirst(s: seq<MemberId>, x: MemberId): (r: seq<MemberId>)
    ensures x !in s ==> r == s
    ensures x in s ==> |r| == |s| - 1
  {
    if s == [] then []
    else if s[0] == x then s[1..]
    else [s[0]] + RemoveFirst(s[1..], x)
  }

  /** The position of the first occurrence of x. */
  function FirstIndex(s: seq<MemberId>, x: MemberId): (i: nat)
    requires x in s
    ensures i < |s| && s[i] == x && x !in s[..i]
  {
    if s[0] == x then 0 else FirstIndex(s[1..], x) + 1
  }

  /** RemoveFirst cuts out exactly the first occurrence. */
  lemma {:induction false} RemoveFirstCutsFirstIndex(s: seq<MemberId>, x: MemberId)
    requires x in s
    ensures RemoveFirst(s, x) == s[..FirstIndex(s, x)] + s[FirstIndex(s, x) + 1..]
  {
    if s[0] != x {
      var t := s[1..];
      RemoveFirstCutsFirstIndex(t, x);
      var i := FirstIndex(t, x);
      assert FirstIndex(s, x) == i + 1;
      assert RemoveFirst(s, x) == [s[0]] + (t[..i] + t[i + 1..]);
      assert s[..i + 1] == [s[0]] + t[..i];
      assert s[i + 2..] == t[i + 1..];
    } else {
      assert s[..0] == [];
    }
  }

  /** One copy of x leaves the multiset of entries; every other id keeps its entries. */
  lemma {:induction false} RemoveFirstMultiset(s: seq<MemberId>, x: MemberId)
    ensures multiset(RemoveFirst(s, x)) == multiset(s) - multiset{x}
  {
    if s != [] {
      assert s == [s[0]] + s[1..];
      assert multiset(s) == multiset{s[0]} + multiset(s[1..]);
      if s[0] != x {
        RemoveFirstMultiset(s[1..], x);
        assert RemoveFirst(s, x) == [s[0]] + RemoveFirst(s[1..], x);
      }
    }
  }

  /**
   * Lending to x and taking x back: when x held no entry before, the list is
   * restored exactly; otherwise the earlier entry of x is the one removed and
   * the new one stays at the end. Either way the same entries remain.
   */
  lemma {:induction false} BorrowReturnRestores(s: seq<MemberId>, x: MemberId)
    ensures x !in s ==> RemoveFirst(s + [x], x) == s
    ensures x in s ==> RemoveFirst(s + [x], x) == RemoveFirst(s, x) + [x]
    ensures multiset(RemoveFirst(s + [x], x)) == multiset(s)
  {
    RemoveFirstAppended(s, x);
    RemoveFirstMultiset(s + [x], x);
    assert multiset(s + [x]) == multiset(s) + multiset{x};
  }

  lemma {:induction false} RemoveFirstAppended(s: seq<MemberId>, x: MemberId)
    ensures RemoveFirst(s + [x], x) == if x in s then RemoveFirst(s, x) + [x] else s
  {
    if s == [] {
      assert RemoveFirst([x], x) == [];
    } else if s[0] == x {
      assert (s + [x])[1..] == s[1..] + [x];
    } else {
      var t := s[1..];
      RemoveFirstAppended(t, x);
      assert (s + [x])[1..] == t + [x];
      assert s == [s[0]] + t;
    }
  }

  /**
   * A member who borrows a second copy and returns one leaves the borrower
   * list reordered when someone else borrowed in between, and unchanged when
   * nobody did.
   */
  lemma DoubleBorrowReorders(m: MemberId, other: MemberId)
    requires m != other
    ensures RemoveFirst([m, other] + [m], m) == [other, m] != [m, other]
    ensures RemoveFirst([m] + [m], m) == [m]
  {
    BorrowReturnRestores([m, other], m);
    BorrowReturnRestores([m], m);
  }

  lemma RemoveFirstKeepsOthers(s: seq<MemberId>, x: MemberId, y: MemberId)
    requires y != x
    ensures y in RemoveFirst(s, x) <==> y in s
  {
    RemoveFirstMultiset(s, x);
    assert y in RemoveFirst(s, x) <==> multiset(RemoveFirst(s, x))[y] > 0;
    assert y in s <==> multiset(s)[y] > 0;
  }

  // ---------------------------------------------------------------------
  // Book
  // ---------------------------------------------------------------------

  class Book {
    const isbn: Isbn
    const title: string
    const author: string
    const genre: Genre
    const publicationYear: int
    var totalCopies: int
    var availableCopies: int
    /** Ids of the members holding a copy, one entry per copy lent. */
    var borrowedBy: seq<MemberId>

    /** Every copy is either on the shelf or lent to exactly one borrower entry. */
    ghost predicate Valid()
      reads this
    {
      availableCopies + |borrowedBy| == totalCopies
    }

    constructor (isbn: Isbn, title: string, author: string, genre: Genre, publicationYear: int, totalCopies: int)
      ensures this.isbn == isbn && this.title == title && this.author == author
      ensures this.genre == genre && this.publicationYear == publicationYear
      ensures this.totalCopies == totalCopies && availableCopies == totalCopies && borrowedBy == []
      ensures Valid()
    {
      this.isbn := isbn;
      this.title := title;
      this.author := author;
      this.genre := genre;
      this.publicationYear := publicationYear;
      this.totalCopies := totalCopies;
      availableCopies := totalCopies;
      borrowedBy := [];
    }

    /** A copy is on the shelf; for a balanced book, exactly when fewer copies are lent than owned. */
    predicate IsAvailable()
      reads this
      ensures Valid() && availableCopies >= 0 ==> (IsAvailable() <==> |borrowedBy| < totalCopies)
    {
      availableCopies > 0
    }

    method Borrow(memberId: MemberId) returns (ok: bool)
      modifies this
      ensures ok <==> old(availableCopies) > 0
      ensures totalCopies == old(totalCopies)
      ensures ok ==> availableCopies == old(availableCopies) - 1 && borrowedBy == old(borrowedBy) + [memberId]
      ensures !ok ==> unchanged(this)
      ensures old(Valid()) ==> Valid()
      ensures old(availableCopies) >= 0 ==> availableCopies >= 0
    {
      if IsAvailable() {
        availableCopies := availableCopies - 1;
        borrowedBy := borrowedBy + [memberId];
        return true;
      }
      return false;
    }

    method ReturnBook(memberId: MemberId) returns (ok: bool)
      modifies this
      ensures ok <==> memberId in old(borrowedBy)
      ensures totalCopies == old(totalCopies)
      ensures ok ==> availableCopies == old(availableCopies) + 1
      ensures borrowedBy == RemoveFirst(old(borrowedBy), memberId)
      ensures !ok ==> unchanged(this)
      ensures old(Valid()) ==> Valid()
      ensures old(availableCopies) >= 0 ==> availableCopies >= 0
    {
      if memberId in borrowedBy {
        availableCopies := availableCopies + 1;
        borrowedBy := RemoveFirst(borrowedBy, memberId);
        return true;
      }
      return false;
    }
  }

  /**
   * A member borrows a copy and returns it at once: the copy counts come back
   * and so do the borrower entries, in their old order when the member held
   * no copy before.
   */
  method BorrowThenReturn(book: Book, memberId: MemberId) returns (borrowed: bool, returned: bool)
    modifies book
    ensures borrowed <==> old(book.availableCopies) > 0
    ensures returned <==> borrowed
    ensures book.availableCopies == old(book.availableCopies) && book.totalCopies == old(book.totalCopies)
    ensures multiset(book.borrowedBy) == multiset(old(book.borrowedBy))
    ensures memberId !in old(book.borrowedBy) ==> book.borrowedBy == old(book.borrowedBy)
  {
    borrowed := book.Borrow(memberId);
    returned := false;
    if borrowed {
      returned := book.ReturnBook(memberId);
      BorrowReturnRestores(old(book.borrowedBy), memberId);
    }
  }

  // ---------------------------------------------------------------------
  // Member
  // ---------------------------------------------------------------------

  /** One completed loan, appended to a member's history on return. */
  datatype LoanRecord = LoanRecord(book: string, borrowDate: int, returnDate: int, days: int, fine: nat)

  datatype BorrowOutcome = Borrowed | CannotBorrow | BookNotAvailable | MemberNotFound | BookNotFound

  datatype ReturnOutcome = Returned(days: int, fine: nat) | NotBorrowed | NoSuchMember | NoSuchBook
  {
    /** The fine reported to the caller: zero on every failure. */
    function Fine(): nat
    {
      if Returned? then fine else 0
    }
  }

  /**
   * What borrowing book for member on day today does: it is refused when the
   * member may not borrow or no copy is available, and otherwise records the
   * loan on both sides.
   */
  twostate predicate BorrowEffect(member: Member, book: Book, today: int, outcome: BorrowOutcome)
    reads member, book
  {
    && outcome == (if !old(member.CanBorrow()) then CannotBorrow
                   else if old(book.availableCopies) > 0 then Borrowed
                   else BookNotAvailable)
    && (outcome.Borrowed? ==>
          && member.borrowedBooks == old(member.borrowedBooks)[book.isbn := today]
          && member.borrowingHistory == old(member.borrowingHistory)
          && member.fines == old(member.fines)
          && book.availableCopies == old(book.availableCopies) - 1
          && book.borrowedBy == old(book.borrowedBy) + [member.memberId]
          && book.totalCopies == old(book.totalCopies))
    && (!outcome.Borrowed? ==> unchanged(member) && unchanged(book))
  }

  /**
   * What returning book for member on day today does: nothing unless the
   * member holds the book; otherwise the loan is closed, the overdue fine is
   * charged and recorded in the history, and the book takes back one entry
   * for the member (and a copy, when it lists the member).
   */
  twostate predicate ReturnEffect(member: Member, book: Book, today: int, outcome: ReturnOutcome)
    reads member, book
  {
    && (outcome.Returned? <==> book.isbn in old(member.borrowedBooks))
    && (!outcome.Returned? ==> outcome == NotBorrowed && unchanged(member) && unchanged(book))
    && (outcome.Returned? ==>
          var borrowDate := old(member.borrowedBooks[book.isbn]);
          var days := today - borrowDate;
          var fine := OverdueFine(days, member.borrowDuration);
          && outcome == Returned(days, fine)
          && member.fines == old(member.fines) + fine
          && member.borrowedBooks == old(member.borrowedBooks) - {book.isbn}
          && member.borrowingHistory == old(member.borrowingHistory) + [LoanRecord(book.title, borrowDate, today, days, fine)]
          && book.borrowedBy == RemoveFirst(old(book.borrowedBy), member.memberId)
          && book.availableCopies == old(book.availableCopies) + (if member.memberId in old(book.borrowedBy) then 1 else 0)
          && book.totalCopies == old(book.totalCopies))
  }

  /** The member and the book that one borrowing or returning step touches. */
  datatype LoanStep = LoanStep(member: Member, book: Book)

  /** The member id counter, shared by every member construction. */
  class MemberIdCounter {
    var next: int

    constructor ()
      ensures next == FirstMemberId
    {
      next := FirstMemberId;
    }
  }

  class Member {
    const memberId: MemberId
    const name: string
    const email: string
    const phone: string
    const membershipType: string
    const registrationDate: int
    const maxBooks: nat
    const borrowDuration: nat
    /** Open loans: ISBN to the day it was borrowed. */
    var borrowedBooks: map<Isbn, int>
    var borrowingHistory: seq<LoanRecord>
    /** Unpaid fines, in cents. */
    var fines: int

    ghost predicate Valid()
      reads this
    {
      && |borrowedBooks| <= maxBooks
      && fines >= 0
    }

    constructor (memberId: MemberId, name: string, email: string, phone: string,
                 membershipType: string, registrationDate: int, policy: Policy)
      requires TierPolicy(membershipType) == Some(policy)
      ensures this.memberId == memberId && this.name == name && this.email == email && this.phone == phone
      ensures this.membershipType == membershipType && this.registrationDate == registrationDate
      ensures maxBooks == policy.maxBooks && borrowDuration == policy.borrowDuration
      ensures TierPolicy(membershipType) == Some(Policy(maxBooks, borrowDuration))
      ensures borrowedBooks == map[] && borrowingHistory == [] && fines == 0
      ensures Valid()
    {
      this.memberId := memberId;
      this.name := name;
      this.email := email;
      this.phone := phone;
      this.membershipType := membershipType;
      this.registrationDate := registrationDate;
      maxBooks := policy.maxBooks;
      borrowDuration := policy.borrowDuration;
      borrowedBooks := map[];
      borrowingHistory := [];
      fines := 0;
    }

    /**
     * Whether another loan is allowed: never with fines pending, and for a
     * valid member without fines exactly while the limit is not reached.
     */
    predicate CanBorrow()
      reads this
      ensures CanBorrow() ==> fines == 0 && |borrowedBooks| + 1 <= maxBooks
      ensures Valid() && fines == 0 ==> (CanBorrow() <==> |borrowedBooks| != maxBooks)
    {
      |borrowedBooks| < maxBooks && fines == 0
    }

    method BorrowBook(book: Book, today: int) returns (outcome: BorrowOutcome)
      requires Valid()
      modifies this, book
      ensures Valid()
      ensures BorrowEffect(this, book, today, outcome)
    {
      if !CanBorrow() {
        return CannotBorrow;
      }
      var ok := book.Borrow(memberId);
      if ok {
        borrowedBooks := borrowedBooks[book.isbn := today];
        return Borrowed;
      }
      return BookNotAvailable;
    }

    method ReturnBook(book: Book, today: int) returns (outcome: ReturnOutcome)
      requires Valid()
      modifies this, book
      ensures Valid()
      ensures ReturnEffect(this, book, today, outcome)
    {
      if book.isbn !in borrowedBooks {
        return NotBorrowed;
      }
      var borrowDate := borrowedBooks[book.isbn];
      var daysBorrowed := today - borrowDate;
      var fine := 0;
      if daysBorrowed > borrowDuration {
        var overdueDays := daysBorrowed - borrowDuration;
        fine := overdueDays * FinePerDayCents;
        fines := fines + fine;
      }
      var bookReturned := book.ReturnBook(memberId);
      borrowedBooks := borrowedBooks - {book.isbn};
      borrowingHistory := borrowingHistory + [LoanRecord(book.title, borrowDate, today, daysBorrowed, fine)];
      return Returned(daysBorrowed, fine);
    }

    /** Pays towards the fines; paid is the amount the confirmation reports. */
    method PayFine(amount: int) returns (paid: int)
      requires Valid()
      modifies this`fines
      ensures Valid()
      ensures amount >= old(fines) ==> fines == 0 && paid == old(fines)
      ensures amount < old(fines) ==> fines == old(fines) - amount && paid == amount
    {
      if amount >= fines {
        paid := fines;
        fines := 0;
      } else {
        fines := fines - amount;
        paid := amount;
      }
    }
  }

  /**
   * Member construction: takes the counter's current value as the id and
   * advances the counter, then looks the tier up; an unknown tier fails
   * (None) after the id has been consumed.
   */
  method NewMember(ids: MemberIdCounter, name: string, email: string, phone: string,
                   registrationDate: int, membershipType: string := "Regular")
    returns (member: Option<Member>)
    modifies ids
    ensures ids.next == old(ids.next) + 1
    ensures member.Some? <==> membershipType in TierNames
    ensures member.Some? ==>
      var m := member.value;
      && fresh(m) && m.Valid()
      && m.memberId == old(ids.next)
      && m.name == name && m.email == email && m.phone == phone
      && m.membershipType == membershipType && m.registrationDate == registrationDate
      && Some(Policy(m.maxBooks, m.borrowDuration)) == TierPolicy(membershipType)
      && m.borrowedBooks == map[] && m.borrowingHistory == [] && m.fines == 0
  {
    var id := ids.next;
    ids.next := ids.next + 1;
    var policy := TierPolicy(membershipType);
    if policy.None? {
      return None;
    }
    var m := new Member(id, name, email, phone, membershipType, registrationDate, policy.value);
    return Some(m);
  }

  // ---------------------------------------------------------------------
  // Library
  // ---------------------------------------------------------------------

  datatype LogEntry =
    | MemberRegistered(memberName: string, memberId: MemberId)
    | BookBorrowed(memberName: string, title: string)
    | BookReturned(memberName: string, title: string, fine: nat)

  datatype LibraryStats = LibraryStats(
    totalBooks: int,
    uniqueTitles: nat,
    availableBooks: int,
    borrowedBooks: int,
    totalMembers: nat,
    totalFinesPending: int)

  function LowerChar(c: char): char
  {
    if 'A' <= c <= 'Z' then (c as int + 32) as char else c
  }

  predicate IsUpper(c: char)
  {
    'A' <= c <= 'Z'
  }

  /**
   * ASCII lower-casing: no capital letter remains, every other character is
   * kept, and each capital becomes its small letter.
   */
  function Lower(s: string): (r: string)
    ensures |r| == |s|
    ensures forall i :: 0 <= i < |r| ==> !IsUpper(r[i])
    ensures forall i :: 0 <= i < |s| && !IsUpper(s[i]) ==> r[i] == s[i]
    ensures forall i :: 0 <= i < |s| && IsUpper(s[i]) ==> 'a' <= r[i] <= 'z' && r[i] as int - 'a' as int == s[i] as int - 'A' as int
  {
    seq(|s|, i requires 0 <= i < |s| => LowerChar(s[i]))
  }

  /** Lower-casing twice is lower-casing once. */
  lemma LowerIdempotent(s: string)
    ensures Lower(Lower(s)) == Lower(s)
  {
    var r := Lower(s);
    assert forall i :: 0 <= i < |r| ==> Lower(r)[i] == r[i];
  }

  /** Substring containment. */
  predicate Contains(text: string, pattern: string)
    ensures Contains(text, pattern) ==> |pattern| <= |text|
    ensures pattern == [] ==> Contains(text, pattern)
    decreases |text|
  {
    || (|pattern| <= |text| && text[..|pattern|] == pattern)
    || (|text| > 0 && Contains(text[1..], pattern))
  }

  /** The pattern sits in the text starting at index i. */
  predicate OccursAt(text: string, pattern: string, i: nat)
  {
    i + |pattern| <= |text| && text[i..i + |pattern|] == pattern
  }

  /** The text contains the pattern exactly when the pattern occurs at some index of it. */
  lemma ContainsIffOccurs(text: string, pattern: string)
    ensures Contains(text, pattern) <==> exists i: nat :: OccursAt(text, pattern, i)
  {
    if Contains(text, pattern) {
      var i := ContainsWitness(text, pattern);
    }
    if exists i: nat :: OccursAt(text, pattern, i) {
      var i: nat :| OccursAt(text, pattern, i);
      OccursImpliesContains(text, pattern, i);
    }
  }

  /** An index at which a contained pattern occurs. */
  lemma {:induction false} ContainsWitness(text: string, pattern: string) returns (i: nat)
    requires Contains(text, pattern)
    ensures OccursAt(text, pattern, i)
    decreases |text|
  {
    if |pattern| <= |text| && text[..|pattern|] == pattern {
      assert text[0..|pattern|] == text[..|pattern|];
      i := 0;
    } else {
      var j := ContainsWitness(text[1..], pattern);
      assert text[1..][j..j + |pattern|] == text[j + 1..j + 1 + |pattern|];
      i := j + 1;
    }
  }

  /** A pattern occurring at some index is contained. */
  lemma {:induction false} OccursImpliesContains(text: string, pattern: string, i: nat)
    requires OccursAt(text, pattern, i)
    ensures Contains(text, pattern)
    decreases i
  {
    if i == 0 {
      assert text[..|pattern|] == text[0..|pattern|];
    } else {
      assert text[1..][i - 1..i - 1 + |pattern|] == text[i..i + |pattern|];
      OccursImpliesContains(text[1..], pattern, i - 1);
    }
  }

  predicate TitleMatches(query: string, book: Book)
  {
    Contains(Lower(book.title), Lower(query))
  }

  predicate AuthorMatches(query: string, book: Book)
  {
    Contains(Lower(book.author), Lower(query))
  }

  /** The searches ignore the case of the query: a query and its lower-cased form find the same books. */
  lemma SearchIgnoresQueryCase(query: string, book: Book)
    ensures TitleMatches(Lower(query), book) <==> TitleMatches(query, book)
    ensures AuthorMatches(Lower(query), book) <==> AuthorMatches(query, book)
  {
    LowerIdempotent(query);
  }

  class Library {
    const name: string
    const address: string
    var books: map<Isbn, Book>
    var members: map<MemberId, Member>
    var transactionLog: seq<LogEntry>
    /** The catalog's keys in insertion order (the order its dictionary iterates in). */
    var catalogOrder: seq<Isbn>
    /** The registry's keys in insertion order. */
    var memberOrder: seq<MemberId>

    /** Every book is filed under its own ISBN, and catalogOrder lists the keys once each. */
    ghost predicate CatalogIndexed()
      reads this`books, this`catalogOrder
    {
      && (forall k :: k in books ==> books[k].isbn == k)
      && NoDuplicates(catalogOrder)
      && (forall k :: k in catalogOrder <==> k in books)
    }

    /** Every member is filed under its own id and is valid; memberOrder lists the keys once each. */
    ghost predicate RegistryIndexed()
      reads this`members, this`memberOrder, members.Values
    {
      && (forall id :: id in members ==> members[id].memberId == id && members[id].Valid())
      && NoDuplicates(memberOrder)
      && (forall i :: 0 <= i < |memberOrder| ==> memberOrder[i] in members)
      && (forall id :: id in members ==> id in memberOrder)
    }

    ghost predicate Wellformed()
      reads this`books, this`catalogOrder, this`members, this`memberOrder, members.Values
    {
      CatalogIndexed() && RegistryIndexed()
    }

    /**
     * The circulation invariant: every catalogued book balances its copies,
     * and every open loan of a member is a catalogued book that lists the member.
     */
    ghost predicate Consistent()
      reads this`books, this`catalogOrder, this`members, this`memberOrder, books.Values, members.Values
    {
      && Wellformed()
      && CopiesBalanced()
      && LoansFiled()
    }

    /** Every catalogued book balances its copies and has none outstanding below zero. */
    ghost predicate CopiesBalanced()
      reads this`books, books.Values
    {
      forall k :: k in books ==> books[k].Valid() && books[k].availableCopies >= 0
    }

    /** Every open loan of a member is a catalogued book that lists the member. */
    ghost predicate LoansFiled()
      reads this`books, this`members, books.Values, members.Values
    {
      forall id, k :: id in members && k in members[id].borrowedBooks ==>
        k in books && id in books[k].borrowedBy
    }

    function BookAt(isbn: Isbn): set<Book>
      reads this
    {
      if isbn in books then {books[isbn]} else {}
    }

    function MemberAt(id: MemberId): set<Member>
      reads this
    {
      if id in members then {members[id]} else {}
    }

    constructor (name: string, address: string)
      ensures this.name == name && this.address == address
      ensures books == map[] && members == map[] && transactionLog == []
      ensures catalogOrder == [] && memberOrder == []
      ensures Consistent()
    {
      this.name := name;
      this.address := address;
      books := map[];
      members := map[];
      transactionLog := [];
      catalogOrder := [];
      memberOrder := [];
    }

    /**
     * Adds a book, or merges its copies into the book already filed under
     * the same ISBN. Merging updates the stored object in place, so adding
     * the very object that is already stored doubles its total and then adds
     * the doubled total to its available copies.
     */
    method AddBook(book: Book) returns (merged: bool)
      requires Wellformed()
      modifies this, BookAt(book.isbn)
      ensures Wellformed()
      ensures merged <==> book.isbn in old(books)
      ensures members == old(members) && memberOrder == old(memberOrder) && transactionLog == old(transactionLog)
      ensures merged ==>
        var stored := old(books[book.isbn]);
        && books == old(books) && catalogOrder == old(catalogOrder)
        && stored.borrowedBy == old(stored.borrowedBy)
        && (stored != book ==>
              && stored.totalCopies == old(stored.totalCopies) + old(book.totalCopies)
              && stored.availableCopies == old(stored.availableCopies) + old(book.totalCopies))
        && (stored == book ==>
              && stored.totalCopies == 2 * old(stored.totalCopies)
              && stored.availableCopies == old(stored.availableCopies) + 2 * old(stored.totalCopies))
      ensures !merged ==> books == old(books)[book.isbn := book] && catalogOrder == old(catalogOrder) + [book.isbn]
      ensures (&& old(Consistent()) && old(book.Valid()) && old(book.availableCopies) >= 0
               && (book.isbn in old(books) ==> old(books[book.isbn]) != book)) ==> Consistent()
    {
      ghost var wasConsistent := Consistent() && book.Valid() && book.availableCopies >= 0;
      if book.isbn in books {
        var stored := books[book.isbn];
        ghost var aliased := stored == book;
        stored.totalCopies := stored.totalCopies + book.totalCopies;
        stored.availableCopies := stored.availableCopies + book.totalCopies;
        merged := true;
        if wasConsistent && !aliased {
          OtherBooksUnchanged(book.isbn);
          BookChangeKeepsBalanced(stored);
          CatalogChangeKeepsFiled();
        }
      } else {
        books := books[book.isbn := book];
        catalogOrder := catalogOrder + [book.isbn];
        merged := false;
        CatalogAdditionKeepsIndexed(book);
        if wasConsistent {
          CatalogAdditionKeepsBalanced(book);
          CatalogChangeKeepsFiled();
        }
      }
    }

    /** Filing a book under its own, new ISBN keeps the catalog indexed. */
    twostate lemma CatalogAdditionKeepsIndexed(book: Book)
      requires old(CatalogIndexed()) && book.isbn !in old(books)
      requires books == old(books)[book.isbn := book]
      requires catalogOrder == old(catalogOrder) + [book.isbn]
      ensures CatalogIndexed()
    {
      forall i, j | 0 <= i < j < |catalogOrder|
        ensures catalogOrder[i] != catalogOrder[j]
      {
        if j == |catalogOrder| - 1 {
          assert catalogOrder[i] == old(catalogOrder)[i];
        }
      }
    }

    /** Filing a balanced book under a new ISBN keeps every book balanced. */
    twostate lemma CatalogAdditionKeepsBalanced(book: Book)
      requires old(CopiesBalanced()) && book.isbn !in old(books)
      requires books == old(books)[book.isbn := book]
      requires forall b :: b in old(books.Values) ==> unchanged(b)
      requires book.Valid() && book.availableCopies >= 0
      ensures CopiesBalanced()
    {
      forall k | k in books
        ensures books[k].Valid() && books[k].availableCopies >= 0
      {
        if k != book.isbn {
          assert books[k] in old(books.Values);
        }
      }
    }

    /** Every open loan stays filed when books are only added or recounted. */
    twostate lemma CatalogChangeKeepsFiled()
      requires old(LoansFiled())
      requires members == old(members)
      requires forall m :: m in old(members.Values) ==> unchanged(m)
      requires forall k :: k in old(books) ==> k in books && books[k] == old(books[k])
      requires forall b :: b in old(books.Values) ==> b.borrowedBy == old(b.borrowedBy)
      ensures LoansFiled()
    {
      forall id, k | id in members && k in members[id].borrowedBooks
        ensures k in books && id in books[k].borrowedBy
      {
        assert members[id] in old(members.Values);
        assert k in old(members[id].borrowedBooks);
        assert old(books[k]) in old(books.Values);
      }
    }

    method LogTransaction(entry: LogEntry)
      modifies this`transactionLog
      ensures transactionLog == old(transactionLog) + [entry]
    {
      transactionLog := transactionLog + [entry];
    }

    method RegisterMember(member: Member) returns (id: MemberId)
      requires Wellformed() && member.Valid()
      modifies this
      ensures Wellformed()
      ensures id == member.memberId
      ensures members == old(members)[id := member]
      ensures memberOrder == if id in old(members) then old(memberOrder) else old(memberOrder) + [id]
      ensures transactionLog == old(transactionLog) + [MemberRegistered(member.name, id)]
      ensures books == old(books) && catalogOrder == old(catalogOrder)
      ensures old(Consistent()) && member.borrowedBooks == map[] ==> Consistent()
    {
      if member.memberId !in members {
        memberOrder := memberOrder + [member.memberId];
      }
      members := members[member.memberId := member];
      LogTransaction(MemberRegistered(member.name, member.memberId));
      RegistrationKeepsIndexed(member);
      if old(LoansFiled()) && member.borrowedBooks == map[] {
        RegistrationKeepsFiled(member);
      }
      return member.memberId;
    }

    /** Filing a valid member under its id keeps the registry indexed. */
    twostate lemma RegistrationKeepsIndexed(member: Member)
      requires old(RegistryIndexed()) && member.Valid()
      requires members == old(members)[member.memberId := member]
      requires memberOrder == if member.memberId in old(members) then old(memberOrder) else old(memberOrder) + [member.memberId]
      requires forall m :: m in old(members.Values) ==> unchanged(m)
      ensures RegistryIndexed()
    {
      forall id | id in members
        ensures members[id].memberId == id && members[id].Valid()
      {
        if id != member.memberId {
          assert old(members[id]) in old(members.Values);
        }
      }
      if member.memberId !in old(members) {
        assert member.memberId !in old(memberOrder);
        forall i, j | 0 <= i < j < |memberOrder|
          ensures memberOrder[i] != memberOrder[j]
        {
          if j == |memberOrder| - 1 {
            assert memberOrder[i] == old(memberOrder)[i];
          }
        }
      }
    }

    /** Filing a member with no open loans keeps every open loan filed. */
    twostate lemma RegistrationKeepsFiled(member: Member)
      requires old(LoansFiled())
      requires books == old(books) && member.borrowedBooks == map[]
      requires members == old(members)[member.memberId := member]
      requires forall m :: m in old(members.Values) ==> unchanged(m)
      requires forall b :: b in old(books.Values) ==> unchanged(b)
      ensures LoansFiled()
    {
      forall id, k | id in members && k in members[id].borrowedBooks
        ensures k in books && id in books[k].borrowedBy
      {
        assert id != member.memberId;
        assert old(members[id]) in old(members.Values);
        assert k in old(members[id].borrowedBooks);
        assert books[k] in old(books.Values);
      }
    }

    /** The catalogued books, in catalog order, that satisfy p. */
    function Select(keys: seq<Isbn>, p: Book -> bool): (r: seq<Book>)
      reads this
      requires forall k :: k in keys ==> k in books && books[k].isbn == k
      ensures |r| <= |keys|
      ensures forall i :: 0 <= i < |r| ==> r[i].isbn in keys && books[r[i].isbn] == r[i] && p(r[i])
      ensures forall k :: k in keys && p(books[k]) ==> books[k] in r
      ensures NoDuplicates(keys) ==> NoDuplicates(r)
    {
      if keys == [] then []
      else
        var rest := Select(keys[1..], p);
        var b := books[keys[0]];
        if p(b) then
          assert NoDuplicates(keys) ==> b !in rest by {
            if NoDuplicates(keys) && b in rest {
              assert false;
            }
          }
          [b] + rest
        else rest
    }

    /** Select over the whole catalog finds exactly the catalogued books satisfying p, each once. */
    lemma SelectAll(p: Book -> bool)
      requires CatalogIndexed()
      ensures var r := Select(catalogOrder, p);
        && (forall i :: 0 <= i < |r| ==> r[i].isbn in books && books[r[i].isbn] == r[i] && p(r[i]))
        && (forall k :: k in books && p(books[k]) ==> books[k] in r)
        && NoDuplicates(r)
    {
    }

    function FindBookByTitle(title: string): (found: seq<Book>)
      reads this
      requires CatalogIndexed()
      ensures forall i :: 0 <= i < |found| ==>
        found[i].isbn in books && books[found[i].isbn] == found[i] && TitleMatches(title, found[i])
      ensures forall k :: k in books && TitleMatches(title, books[k]) ==> books[k] in found
      ensures NoDuplicates(found)
    {
      var p := (b: Book) => TitleMatches(title, b);
      SelectAll(p);
      Select(catalogOrder, p)
    }

    function FindBooksByAuthor(author: string): (found: seq<Book>)
      reads this
      requires CatalogIndexed()
      ensures forall i :: 0 <= i < |found| ==>
        found[i].isbn in books && books[found[i].isbn] == found[i] && AuthorMatches(author, found[i])
      ensures forall k :: k in books && AuthorMatches(author, books[k]) ==> books[k] in found
      ensures NoDuplicates(found)
    {
      var p := (b: Book) => AuthorMatches(author, b);
      SelectAll(p);
      Select(catalogOrder, p)
    }

    function FindBooksByGenre(genre: Genre): (found: seq<Book>)
      reads this
      requires CatalogIndexed()
      ensures forall i :: 0 <= i < |found| ==>
        found[i].isbn in books && books[found[i].isbn] == found[i] && found[i].genre == genre
      ensures forall k :: k in books && books[k].genre == genre ==> books[k] in found
      ensures NoDuplicates(found)
    {
      var p := (b: Book) => b.genre == genre;
      SelectAll(p);
      Select(catalogOrder, p)
    }

    method BorrowBook(memberId: MemberId, isbn: Isbn, today: int) returns (outcome: BorrowOutcome)
      requires Wellformed()
      modifies this, MemberAt(memberId), BookAt(isbn)
      ensures Wellformed()
      ensures books == old(books) && members == old(members)
      ensures catalogOrder == old(catalogOrder) && memberOrder == old(memberOrder)
      ensures memberId !in members ==> outcome == MemberNotFound
      ensures memberId in members && isbn !in books ==> outcome == BookNotFound
      ensures memberId !in members || isbn !in books ==>
        && (isbn in books ==> unchanged(books[isbn]))
        && (memberId in members ==> unchanged(members[memberId]))
      ensures memberId in members && isbn in books ==>
        BorrowEffect(members[memberId], books[isbn], today, outcome)
      ensures !outcome.Borrowed? ==> transactionLog == old(transactionLog)
      ensures outcome.Borrowed? ==>
        && memberId in members && isbn in books
        && transactionLog == old(transactionLog) + [BookBorrowed(members[memberId].name, books[isbn].title)]
      ensures old(Consistent()) ==> Consistent()
    {
      if memberId !in members {
        return MemberNotFound;
      }
      if isbn !in books {
        return BookNotFound;
      }
      var member := members[memberId];
      var book := books[isbn];
      outcome := member.BorrowBook(book, today);
      if outcome.Borrowed? {
        LogTransaction(BookBorrowed(member.name, book.title));
      }
      OtherMembersUnchanged(memberId);
      OtherBooksUnchanged(isbn);
      LoanChangeKeepsWellformed(member);
      if old(CopiesBalanced() && LoansFiled()) {
        BookChangeKeepsBalanced(book);
        LoanChangeKeepsFiled(LoanStep(member, book));
      }
    }

    method ReturnBook(memberId: MemberId, isbn: Isbn, today: int) returns (outcome: ReturnOutcome)
      requires Wellformed()
      modifies this, MemberAt(memberId), BookAt(isbn)
      ensures Wellformed()
      ensures books == old(books) && members == old(members)
      ensures catalogOrder == old(catalogOrder) && memberOrder == old(memberOrder)
      ensures memberId !in members ==> outcome == NoSuchMember
      ensures memberId in members && isbn !in books ==> outcome == NoSuchBook
      ensures memberId !in members || isbn !in books ==>
        && (isbn in books ==> unchanged(books[isbn]))
        && (memberId in members ==> unchanged(members[memberId]))
      ensures memberId in members && isbn in books ==>
        ReturnEffect(members[memberId], books[isbn], today, outcome)
      ensures !outcome.Returned? ==> transactionLog == old(transactionLog)
      ensures outcome.Returned? ==>
        && memberId in members && isbn in books
        && transactionLog == old(transactionLog) + [BookReturned(members[memberId].name, books[isbn].title, outcome.fine)]
      ensures old(Consistent()) && outcome.Returned? ==>
        books[isbn].availableCopies == old(books[isbn].availableCopies) + 1
      ensures old(Consistent()) ==> Consistent()
    {
      if memberId !in members {
        return NoSuchMember;
      }
      if isbn !in books {
        return NoSuchBook;
      }
      var member := members[memberId];
      var book := books[isbn];
      ghost var borrowersBefore := book.borrowedBy;
      outcome := member.ReturnBook(book, today);
      if outcome.Returned? {
        LogTransaction(BookReturned(member.name, book.title, outcome.fine));
      }
      OtherMembersUnchanged(memberId);
      OtherBooksUnchanged(isbn);
      LoanChangeKeepsWellformed(member);
      if old(CopiesBalanced() && LoansFiled()) {
        BookChangeKeepsBalanced(book);
        forall id | id in borrowersBefore && id != memberId
          ensures id in book.borrowedBy
        {
          RemoveFirstKeepsOthers(borrowersBefore, memberId, id);
        }
        LoanChangeKeepsFiled(LoanStep(member, book));
      }
    }

    /** A borrowing or returning step changes no member but the one it names. */
    twostate lemma OtherMembersUnchanged(memberId: MemberId)
      requires old(RegistryIndexed())
      requires members == old(members) && memberId in members
      requires forall m :: m in old(members.Values) && m != members[memberId] ==> unchanged(m)
      ensures forall id :: id in members && id != memberId ==> unchanged(members[id])
    {
      forall id | id in members && id != memberId
        ensures unchanged(members[id])
      {
        assert members[id] in old(members.Values);
        assert old(members[id].memberId) == id;
        assert members[id] != members[memberId];
      }
    }

    /** A borrowing or returning step changes no book but the one it names. */
    twostate lemma OtherBooksUnchanged(isbn: Isbn)
      requires old(CatalogIndexed())
      requires books == old(books) && isbn in books
      requires forall b :: b in old(books.Values) && b != books[isbn] ==> unchanged(b)
      ensures forall k :: k in books && k != isbn ==> unchanged(books[k])
    {
      forall k | k in books && k != isbn
        ensures unchanged(books[k])
      {
        assert books[k] in old(books.Values);
        assert old(books[k].isbn) == k;
        assert books[k] != books[isbn];
      }
    }

    /** The registry stays well formed when one member changes and stays valid. */
    twostate lemma LoanChangeKeepsWellformed(member: Member)
      requires old(CatalogIndexed()) && old(RegistryIndexed())
      requires books == old(books) && members == old(members)
      requires catalogOrder == old(catalogOrder) && memberOrder == old(memberOrder)
      requires member.memberId in members && members[member.memberId] == member
      requires forall id :: id in members && id != member.memberId ==> unchanged(members[id])
      requires member.Valid()
      ensures Wellformed()
    {
      assert RegistryIndexed() by {
        forall id | id in members
          ensures members[id].memberId == id && members[id].Valid()
        {
          if id != member.memberId {
            assert old(members[id].Valid());
          }
        }
      }
    }

    /** Every book stays balanced when one book changes and stays balanced. */
    twostate lemma BookChangeKeepsBalanced(book: Book)
      requires old(CopiesBalanced())
      requires books == old(books)
      requires book.isbn in books && books[book.isbn] == book
      requires forall k :: k in books && k != book.isbn ==> unchanged(books[k])
      requires book.Valid() && book.availableCopies >= 0
      ensures CopiesBalanced()
    {
      forall k | k in books
        ensures books[k].Valid() && books[k].availableCopies >= 0
      {
        if k != book.isbn {
          assert old(books[k].Valid() && books[k].availableCopies >= 0);
        }
      }
    }

    /**
     * Every open loan stays filed when a step touches one member and one
     * book, the member gains no loan but that book, the book keeps every
     * other borrower, and a loan of the book is matched by an entry for the
     * member.
     */
    twostate lemma LoanChangeKeepsFiled(step: LoanStep)
      requires old(LoansFiled())
      requires books == old(books) && members == old(members)
      requires step.member.memberId in members && members[step.member.memberId] == step.member
      requires step.book.isbn in books && books[step.book.isbn] == step.book
      requires forall id :: id in members && id != step.member.memberId ==> unchanged(members[id])
      requires forall k :: k in books && k != step.book.isbn ==> unchanged(books[k])
      requires forall k :: k in step.member.borrowedBooks ==> k in old(step.member.borrowedBooks) || k == step.book.isbn
      requires forall id :: id in old(step.book.borrowedBy) && id != step.member.memberId ==> id in step.book.borrowedBy
      requires step.book.isbn in step.member.borrowedBooks ==> step.member.memberId in step.book.borrowedBy
      ensures LoansFiled()
    {
      var member, book := step.member, step.book;
      forall id, k | id in members && k in members[id].borrowedBooks
        ensures k in books && id in books[k].borrowedBy
      {
        if id != member.memberId {
          assert k in old(members[id].borrowedBooks);
          assert id in old(books[k].borrowedBy);
        } else if k != book.isbn {
          assert k in old(member.borrowedBooks);
          assert id in old(books[k].borrowedBy);
        }
      }
    }

    // -------------------------------------------------------------------
    // Statistics
    // -------------------------------------------------------------------

    function TotalCopies(keys: seq<Isbn>): int
      reads this, books.Values
      requires forall k :: k in keys ==> k in books
    {
      if keys == [] then 0 else books[keys[0]].totalCopies + TotalCopies(keys[1..])
    }

    function AvailableCopies(keys: seq<Isbn>): int
      reads this, books.Values
      requires forall k :: k in keys ==> k in books
    {
      if keys == [] then 0 else books[keys[0]].availableCopies + AvailableCopies(keys[1..])
    }

    /** The number of borrower entries across the given books: the copies out on loan. */
    function BorrowerCount(keys: seq<Isbn>): nat
      reads this, books.Values
      requires forall k :: k in keys ==> k in books
    {
      if keys == [] then 0 else |books[keys[0]].borrowedBy| + BorrowerCount(keys[1..])
    }

    function FinesPending(ids: seq<MemberId>): int
      reads this, members.Values
      requires forall i :: 0 <= i < |ids| ==> ids[i] in members
    {
      if ids == [] then 0
      else
        members[ids[0]].fines + FinesPending(ids[1..])
    }

    /** Over balanced books, total minus available copies counts the copies on loan. */
    lemma {:induction false} CopiesBalance(keys: seq<Isbn>)
      requires forall k :: k in keys ==> k in books && books[k].Valid()
      ensures TotalCopies(keys) - AvailableCopies(keys) == BorrowerCount(keys)
    {
      if keys != [] {
        CopiesBalance(keys[1..]);
      }
    }

    lemma {:induction false} AvailableNonNegative(keys: seq<Isbn>)
      requires forall k :: k in keys ==> k in books && books[k].availableCopies >= 0
      ensures AvailableCopies(keys) >= 0
    {
      if keys != [] {
        AvailableNonNegative(keys[1..]);
      }
    }

    lemma {:induction false} FinesNonNegative(ids: seq<MemberId>)
      requires forall i :: 0 <= i < |ids| ==> ids[i] in members && members[ids[i]].fines >= 0
      ensures FinesPending(ids) >= 0
    {
      if ids != [] {
        FinesNonNegative(ids[1..]);
      }
    }

    lemma StatsFacts()
      requires Wellformed()
      ensures FinesPending(memberOrder) >= 0
      ensures Consistent() ==>
        && TotalCopies(catalogOrder) - AvailableCopies(catalogOrder) == BorrowerCount(catalogOrder)
        && AvailableCopies(catalogOrder) >= 0
    {
      assert RegistryIndexed();
      forall i | 0 <= i < |memberOrder|
        ensures memberOrder[i] in members && members[memberOrder[i]].fines >= 0
      {
        var id := memberOrder[i];
        assert id in members;
        assert members[id].Valid();
      }
      FinesNonNegative(memberOrder);
      if Consistent() {
        CopiesBalance(catalogOrder);
        AvailableNonNegative(catalogOrder);
      }
    }

    function Stats(): (s: LibraryStats)
      reads this, books.Values, members.Values
      requires Wellformed()
      ensures s.uniqueTitles == |books| && s.totalMembers == |members|
      ensures s.totalFinesPending >= 0
      ensures Consistent() ==>
        && s.borrowedBooks == BorrowerCount(catalogOrder)
        && 0 <= s.availableBooks
        && 0 <= s.borrowedBooks <= s.totalBooks
    {
      StatsFacts();
      var total := TotalCopies(catalogOrder);
      var available := AvailableCopies(catalogOrder);
      LibraryStats(total, |books|, available, total - available, |members|, FinesPending(memberOrder))
    }
  }
}
