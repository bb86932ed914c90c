/**
 * The books table as a value: its record shape, the row sets that the
 * program's SQL statements select, insert into, overwrite and renumber, the
 * blank-keeps-old rule of an update, and the search operation.
 * Rows are kept in storage order.
 */
module Catalog {
  import opened Wrappers
  import opened Text

  /** One row of the books table: columns id, title, author and quantity. */
  datatype Book = Book(id: int, title: string, author: string, quantity: int)

  /** No two rows share an id (the id column is the primary key). */
  ghost predicate UniqueIds(s: seq<Book>) {
    forall i, j :: 0 <= i < |s| && 0 <= j < |s| && i != j ==> s[i].id != s[j].id
  }

  /** Rows are stored in strictly increasing id order, as SQLite keeps a rowid table. */
  ghost predicate AscendingIds(s: seq<Book>) {
    forall i, j :: 0 <= i < j < |s| ==> s[i].id < s[j].id
  }

  /** The ids are exactly 1, 2, ..., |s|, in order: the gap-free numbering that deletion aims at. */
  ghost predicate IdsOneTo(s: seq<Book>) {
    forall i :: 0 <= i < |s| ==> s[i].id == i + 1
  }

  /** The row at index i is the only one holding its id. */
  ghost predicate IdOnlyAt(s: seq<Book>, i: nat)
    requires i < |s|
  {
    forall j :: 0 <= j < |s| && j != i ==> s[j].id != s[i].id
  }

  // ---------------------------------------------------------------------
  // SELECT * FROM books WHERE id=? followed by fetchone()
  // ---------------------------------------------------------------------

  /** The first row, in storage order, whose id is k. */
  function Lookup(s: seq<Book>, k: int): (r: Option<Book>)
    ensures r.Some? ==> r.value in s && r.value.id == k
    ensures r.None? ==> forall b :: b in s ==> b.id != k
  {
    if s == [] then None
    else if s[0].id == k then Some(s[0])
    else Lookup(s[1..], k)
  }

  // ---------------------------------------------------------------------
  // SELECT * FROM books WHERE ... followed by fetchall()
  // ---------------------------------------------------------------------

  /** What a search compares: the id, or the lower-cased title or author against an already lower-cased term. */
  datatype Criterion = ById(id: int) | ByTitle(title: string) | ByAuthor(author: string)

  /**
   * A row meets a criterion when its id equals the term, or when its
   * lower-cased title (author) equals the term; a title or author match
   * therefore has the term's length.
   */
  predicate Matches(b: Book, c: Criterion): (r: bool)
    ensures c.ById? ==> (r <==> b.id == c.id)
    ensures c.ByTitle? && r ==> |b.title| == |c.title|
    ensures c.ByAuthor? && r ==> |b.author| == |c.author|
  {
    match c
    case ById(k) => b.id == k
    case ByTitle(t) => Lower(b.title) == t
    case ByAuthor(a) => Lower(b.author) == a
  }

  /**
   * A title or author criterion compares whole values character by character:
   * it matches exactly when the lengths agree and each character folds to
   * the term's character at the same position.
   */
  lemma MatchesFoldsEachCharacter(b: Book, t: string)
    ensures Matches(b, ByTitle(t)) <==>
      |b.title| == |t| && forall i :: 0 <= i < |t| ==> LowerChar(b.title[i]) == t[i]
    ensures Matches(b, ByAuthor(t)) <==>
      |b.author| == |t| && forall i :: 0 <= i < |t| ==> LowerChar(b.author[i]) == t[i]
  {
    if |b.title| == |t| && forall i :: 0 <= i < |t| ==> LowerChar(b.title[i]) == t[i] {
      assert Lower(b.title) == t;
    }
    if |b.author| == |t| && forall i :: 0 <= i < |t| ==> LowerChar(b.author[i]) == t[i] {
      assert Lower(b.author) == t;
    }
  }

  /** All rows that satisfy the criterion, in storage order. */
  function Select(s: seq<Book>, c: Criterion): (r: seq<Book>)
    ensures |r| <= |s|
    ensures forall i :: 0 <= i < |r| ==> Matches(r[i], c)
  {
    if s == [] then [] else (if Matches(s[0], c) then [s[0]] else []) + Select(s[1..], c)
  }

  /** The rows selected are exactly the stored rows that meet the criterion. */
  lemma {:induction false} SelectMembers(s: seq<Book>, c: Criterion)
    ensures forall b :: b in Select(s, c) <==> b in s && Matches(b, c)
  {
    if s != [] {
      SelectMembers(s[1..], c);
      assert s == [s[0]] + s[1..];
    }
  }

  /** Selection keeps storage order: selecting from a concatenation concatenates the selections. */
  lemma {:induction false} SelectAppend(s: seq<Book>, t: seq<Book>, c: Criterion)
    ensures Select(s + t, c) == Select(s, c) + Select(t, c)
  {
    if s == [] {
      assert s + t == t;
    } else {
      var head := if Matches(s[0], c) then [s[0]] else [];
      var st := s + t;
      assert st[0] == s[0] && st[1..] == s[1..] + t;
      assert Select(st, c) == head + Select(s[1..] + t, c);
      SelectAppend(s[1..], t, c);
      assert Select(s, c) == head + Select(s[1..], c);
    }
  }

  lemma {:induction false} NoMatchSelectsNothing(s: seq<Book>, c: Criterion)
    requires forall b :: b in s ==> !Matches(b, c)
    ensures Select(s, c) == []
  {
    if s != [] {
      assert s[0] in s;
      assert forall b :: b in s[1..] ==> b in s;
      NoMatchSelectsNothing(s[1..], c);
    }
  }

  /** With unique ids, selecting by id yields at most one row. */
  lemma {:induction false} SelectByIdAtMostOne(s: seq<Book>, k: int)
    requires UniqueIds(s)
    ensures |Select(s, ById(k))| <= 1
  {
    if s != [] {
      assert UniqueIds(s[1..]);
      SelectByIdAtMostOne(s[1..], k);
      if s[0].id == k {
        forall b | b in s[1..] ensures b.id != k {
          var j :| 0 <= j < |s[1..]| && s[1..][j] == b;
          assert s[j + 1] == b;
        }
        NoMatchSelectsNothing(s[1..], ById(k));
      }
    }
  }

  /** fetchone() after SELECT ... WHERE id=? is the first row that fetchall() would give. */
  lemma {:induction false} LookupIsFirstSelected(s: seq<Book>, k: int)
    ensures Lookup(s, k) == if Select(s, ById(k)) == [] then None else Some(Select(s, ById(k))[0])
  {
    if s != [] && s[0].id != k {
      LookupIsFirstSelected(s[1..], k);
    }
  }

  // ---------------------------------------------------------------------
  // INSERT INTO books (title, author, quantity) VALUES (?, ?, ?)
  // ---------------------------------------------------------------------

  /** An id larger than every id in storage keeps the ids ascending when the row is appended. */
  lemma AppendKeepsAscending(s: seq<Book>, b: Book)
    requires AscendingIds(s)
    requires forall x :: x in s ==> x.id < b.id
    ensures AscendingIds(s + [b])
  {
    var t := s + [b];
    forall i, j | 0 <= i < j < |t| ensures t[i].id < t[j].id {
      if j == |s| {
        assert t[i] == s[i];
        assert s[i] in s;
      }
    }
  }

  // ---------------------------------------------------------------------
  // UPDATE books SET title=?, author=?, quantity=? WHERE id=?
  // ---------------------------------------------------------------------

  /** Keeps the stored text when the input is blank, otherwise takes the input. */
  function KeepIfBlank(input: string, stored: string): (r: string)
    ensures r == input || r == stored
    ensures input != "" ==> r == input
    ensures r == "" <==> input == "" && stored == ""
  {
    if input == "" then stored else input
  }

  /**
   * The record an update would write for the stored row b: blank title and
   * author keep their stored values, a blank quantity keeps the stored
   * quantity, and a non-blank quantity must parse as an integer (None when
   * it does not).
   */
  function Revised(b: Book, titleInput: string, authorInput: string, quantityInput: string): (r: Option<Book>)
    ensures r.None? <==> quantityInput != "" && ParseInt(quantityInput).None?
    ensures r.Some? ==> r.value.id == b.id
    ensures r.Some? && titleInput == "" ==> r.value.title == b.title
    ensures r.Some? && titleInput != "" ==> r.value.title == titleInput
    ensures r.Some? && authorInput == "" ==> r.value.author == b.author
    ensures r.Some? && authorInput != "" ==> r.value.author == authorInput
    ensures r.Some? && quantityInput == "" ==> r.value.quantity == b.quantity
    ensures r.Some? && quantityInput != "" ==> ParseInt(quantityInput) == Some(r.value.quantity)
  {
    var title := KeepIfBlank(titleInput, b.title);
    var author := KeepIfBlank(authorInput, b.author);
    if quantityInput == "" then Some(Book(b.id, title, author, b.quantity))
    else match ParseInt(quantityInput)
      case Some(q) => Some(Book(b.id, title, author, q))
      case None => None
  }

  /** Every row whose id is k gets the given title, author and quantity; all other rows are kept. */
  function Overwrite(s: seq<Book>, k: int, title: string, author: string, quantity: int): (r: seq<Book>)
    ensures |r| == |s|
    ensures forall i :: 0 <= i < |s| && s[i].id != k ==> r[i] == s[i]
    ensures forall i :: 0 <= i < |s| && s[i].id == k ==> r[i] == Book(k, title, author, quantity)
  {
    if s == [] then []
    else
      [if s[0].id == k then Book(k, title, author, quantity) else s[0]]
      + Overwrite(s[1..], k, title, author, quantity)
  }

  /** With unique ids, an update touches exactly one row: the one at the index holding id k. */
  lemma OverwriteOneRow(s: seq<Book>, i: nat, title: string, author: string, quantity: int)
    requires UniqueIds(s) && i < |s|
    ensures Overwrite(s, s[i].id, title, author, quantity) == s[i := Book(s[i].id, title, author, quantity)]
  {
  }

  /** An update keeps the ids, so it keeps them increasing and within any bounds they had. */
  lemma OverwriteKeepsIds(s: seq<Book>, k: int, title: string, author: string, quantity: int, n: int)
    requires AscendingIds(s) && forall b :: b in s ==> 1 <= b.id <= n
    ensures AscendingIds(Overwrite(s, k, title, author, quantity))
    ensures forall b :: b in Overwrite(s, k, title, author, quantity) ==> 1 <= b.id <= n
  {
    var r := Overwrite(s, k, title, author, quantity);
    forall j | 0 <= j < |r| ensures r[j].id == s[j].id && 1 <= r[j].id <= n {
      assert s[j] in s;
    }
  }

  // ---------------------------------------------------------------------
  // DELETE FROM books WHERE id=?   then   UPDATE books SET id = id - 1 WHERE id > ?
  // ---------------------------------------------------------------------

  /** The rows whose id is not k, in storage order. */
  function RemoveId(s: seq<Book>, k: int): (r: seq<Book>)
    ensures |r| <= |s|
    ensures forall b :: b in r <==> b in s && b.id != k
  {
    if s == [] then [] else (if s[0].id == k then [] else [s[0]]) + RemoveId(s[1..], k)
  }

  /** One row after the renumbering statement: an id above k drops by one. */
  function Renumbered(b: Book, k: int): (r: Book)
    ensures r.title == b.title && r.author == b.author && r.quantity == b.quantity
    ensures b.id <= k ==> r == b
    ensures b.id > k ==> r.id == b.id - 1
    ensures b.id != k ==> (r.id < k <==> b.id < k)
  {
    if b.id > k then b.(id := b.id - 1) else b
  }

  /** The renumbering statement applied to every row. */
  function ShiftDown(s: seq<Book>, k: int): (r: seq<Book>)
    ensures |r| == |s|
    ensures forall i :: 0 <= i < |s| ==>
      r[i].title == s[i].title && r[i].author == s[i].author && r[i].quantity == s[i].quantity
    ensures forall i :: 0 <= i < |s| && s[i].id > k ==> r[i].id == s[i].id - 1
    ensures forall i :: 0 <= i < |s| && s[i].id <= k ==> r[i] == s[i]
  {
    if s == [] then [] else [Renumbered(s[0], k)] + ShiftDown(s[1..], k)
  }

  lemma ShiftDownAt(s: seq<Book>, k: int, j: nat)
    requires j < |s|
    ensures ShiftDown(s, k)[j] == Renumbered(s[j], k)
  {
  }

  /** Every row of t appears, renumbered, in the renumbered table. */
  lemma ShiftDownKeepsRows(t: seq<Book>, k: int)
    ensures forall b :: b in t ==> Renumbered(b, k) in ShiftDown(t, k)
  {
    forall b | b in t ensures Renumbered(b, k) in ShiftDown(t, k) {
      var j :| 0 <= j < |t| && t[j] == b;
      ShiftDownAt(t, k, j);
    }
  }

  /**
   * The table after deleting id k: both statements, committed together.
   * Rows with a smaller id survive as they were, rows with a larger id
   * survive with their id lowered by one, and no row is added.
   */
  function AfterDelete(s: seq<Book>, k: int): (r: seq<Book>)
    ensures |r| <= |s|
    ensures forall b :: b in s && b.id < k ==> b in r
    ensures forall b :: b in s && b.id > k ==> b.(id := b.id - 1) in r
  {
    ShiftDownKeepsRows(RemoveId(s, k), k);
    ShiftDown(RemoveId(s, k), k)
  }

  lemma {:induction false} RemoveIdAppend(s: seq<Book>, t: seq<Book>, k: int)
    ensures RemoveId(s + t, k) == RemoveId(s, k) + RemoveId(t, k)
  {
    if s == [] {
      assert s + t == t;
    } else {
      var head := if s[0].id == k then [] else [s[0]];
      assert (s + t)[0] == s[0];
      assert (s + t)[1..] == s[1..] + t;
      calc {
        RemoveId(s + t, k);
        head + RemoveId(s[1..] + t, k);
        { RemoveIdAppend(s[1..], t, k); }
        head + (RemoveId(s[1..], k) + RemoveId(t, k));
        RemoveId(s, k) + RemoveId(t, k);
      }
    }
  }

  lemma {:induction false} RemoveIdAbsent(s: seq<Book>, k: int)
    requires forall b :: b in s ==> b.id != k
    ensures RemoveId(s, k) == s
  {
    if s != [] {
      assert s[0] in s;
      assert forall b :: b in s[1..] ==> b in s;
      RemoveIdAbsent(s[1..], k);
    }
  }

  lemma UniqueCons(b: Book, t: seq<Book>)
    ensures UniqueIds([b] + t) <==> (forall x :: x in t ==> x.id != b.id) && UniqueIds(t)
  {
    var s := [b] + t;
    if UniqueIds(s) {
      forall x | x in t ensures x.id != b.id {
        var j :| 0 <= j < |t| && t[j] == x;
        assert s[0] == b && s[j + 1] == x;
      }
      forall i, j | 0 <= i < |t| && 0 <= j < |t| && i != j ensures t[i].id != t[j].id {
        assert s[i + 1] == t[i] && s[j + 1] == t[j];
      }
    }
    if (forall x :: x in t ==> x.id != b.id) && UniqueIds(t) {
      forall i, j | 0 <= i < |s| && 0 <= j < |s| && i != j ensures s[i].id != s[j].id {
        if i > 0 { assert s[i] == t[i - 1]; assert t[i - 1] in t; }
        if j > 0 { assert s[j] == t[j - 1]; assert t[j - 1] in t; }
      }
    }
  }

  lemma AscendingCons(b: Book, t: seq<Book>)
    ensures AscendingIds([b] + t) <==> (forall x :: x in t ==> b.id < x.id) && AscendingIds(t)
  {
    var s := [b] + t;
    if AscendingIds(s) {
      forall x | x in t ensures b.id < x.id {
        var j :| 0 <= j < |t| && t[j] == x;
        assert s[0] == b && s[j + 1] == x;
      }
      forall i, j | 0 <= i < j < |t| ensures t[i].id < t[j].id {
        assert s[i + 1] == t[i] && s[j + 1] == t[j];
      }
    }
    if (forall x :: x in t ==> b.id < x.id) && AscendingIds(t) {
      forall i, j | 0 <= i < j < |s| ensures s[i].id < s[j].id {
        assert s[j] == t[j - 1]; assert t[j - 1] in t;
        if i > 0 { assert s[i] == t[i - 1]; }
      }
    }
  }

  lemma {:induction false} RemoveIdKeepsUnique(s: seq<Book>, k: int)
    requires UniqueIds(s)
    ensures UniqueIds(RemoveId(s, k))
  {
    if s != [] {
      assert s == [s[0]] + s[1..];
      UniqueCons(s[0], s[1..]);
      RemoveIdKeepsUnique(s[1..], k);
      if s[0].id != k {
        UniqueCons(s[0], RemoveId(s[1..], k));
      }
    }
  }

  lemma {:induction false} RemoveIdKeepsAscending(s: seq<Book>, k: int)
    requires AscendingIds(s)
    ensures AscendingIds(RemoveId(s, k))
  {
    if s != [] {
      assert s == [s[0]] + s[1..];
      AscendingCons(s[0], s[1..]);
      RemoveIdKeepsAscending(s[1..], k);
      if s[0].id != k {
        AscendingCons(s[0], RemoveId(s[1..], k));
      }
    }
  }

  /**
   * Ids stay unique under deletion, whatever the id deleted: the deleted id
   * no longer occurs, ids below it are kept and ids above it move down by one
   * without meeting each other or the lower ones.
   */
  lemma DeleteKeepsUnique(s: seq<Book>, k: int)
    requires UniqueIds(s)
    ensures UniqueIds(AfterDelete(s, k))
  {
    var r := RemoveId(s, k);
    RemoveIdKeepsUnique(s, k);
    forall i | 0 <= i < |r| ensures r[i].id != k {
      assert r[i] in r;
    }
  }

  /** Deletion keeps the rows in increasing id order. */
  lemma DeleteKeepsAscending(s: seq<Book>, k: int)
    requires AscendingIds(s)
    ensures AscendingIds(AfterDelete(s, k))
  {
    var r := RemoveId(s, k);
    RemoveIdKeepsAscending(s, k);
    forall i | 0 <= i < |r| ensures r[i].id != k {
      assert r[i] in r;
    }
  }

  /** Deleting a positive id keeps every id within 1..n: ids only move down, and never below the deleted one. */
  lemma DeleteKeepsIdsInRange(s: seq<Book>, k: int, n: int)
    requires forall b :: b in s ==> 1 <= b.id <= n
    requires 1 <= k
    ensures forall b :: b in AfterDelete(s, k) ==> 1 <= b.id <= n
  {
    var r := RemoveId(s, k);
    forall d | d in AfterDelete(s, k) ensures 1 <= d.id <= n {
      var j :| 0 <= j < |r| && ShiftDown(r, k)[j] == d;
      assert r[j] in r;
    }
  }

  lemma OthersHaveOtherIds(s: seq<Book>, i: nat)
    requires i < |s| && IdOnlyAt(s, i)
    ensures forall b :: b in s[..i] ==> b.id != s[i].id
    ensures forall b :: b in s[i + 1..] ==> b.id != s[i].id
  {
    forall b | b in s[..i] ensures b.id != s[i].id {
      var j :| 0 <= j < i && s[..i][j] == b;
      assert s[j] == b;
    }
    forall b | b in s[i + 1..] ensures b.id != s[i].id {
      var j :| 0 <= j < |s[i + 1..]| && s[i + 1..][j] == b;
      assert s[i + 1 + j] == b;
    }
  }

  lemma RemoveIdSplit(pre: seq<Book>, b: Book, post: seq<Book>)
    requires forall x :: x in pre ==> x.id != b.id
    requires forall x :: x in post ==> x.id != b.id
    ensures RemoveId(pre + [b] + post, b.id) == pre + post
  {
    var k := b.id;
    assert RemoveId([b], k) == [] by {
      assert [b][1..] == [];
    }
    calc {
      RemoveId(pre + [b] + post, k);
      { RemoveIdAppend(pre + [b], post, k); }
      RemoveId(pre + [b], k) + RemoveId(post, k);
      { RemoveIdAppend(pre, [b], k); }
      RemoveId(pre, k) + RemoveId([b], k) + RemoveId(post, k);
      RemoveId(pre, k) + RemoveId(post, k);
      { RemoveIdAbsent(pre, k); RemoveIdAbsent(post, k); }
      pre + post;
    }
  }

  /** When only the row at index i holds id k, deleting id k removes exactly that row. */
  lemma DeleteRemovesOneRow(s: seq<Book>, i: nat)
    requires i < |s| && IdOnlyAt(s, i)
    ensures RemoveId(s, s[i].id) == s[..i] + s[i + 1..]
  {
    OthersHaveOtherIds(s, i);
    assert s == s[..i] + [s[i]] + s[i + 1..];
    RemoveIdSplit(s[..i], s[i], s[i + 1..]);
  }

  /**
   * d is the table s with the row at index i deleted: one row fewer; position
   * j holds the old row j below i and the old row j + 1 from i on, each
   * renumbered against the deleted id.
   */
  ghost predicate DeletedAt(s: seq<Book>, i: nat, d: seq<Book>)
    requires i < |s|
  {
    |d| == |s| - 1 &&
    forall j :: 0 <= j < |s| - 1 ==> d[j] == Renumbered(s[if j < i then j else j + 1], s[i].id)
  }

  /**
   * The effect of deleting the row at index i, index by index: the row count
   * drops by one, rows before i and rows after i keep their order, and each
   * row keeps its title, author and quantity while an id above the deleted
   * one drops by one and an id below it is kept.
   */
  lemma DeleteEffect(s: seq<Book>, i: nat)
    requires i < |s| && IdOnlyAt(s, i)
    ensures DeletedAt(s, i, AfterDelete(s, s[i].id))
  {
    var k := s[i].id;
    var r := s[..i] + s[i + 1..];
    DeleteRemovesOneRow(s, i);
    forall j | 0 <= j < |s| - 1 ensures AfterDelete(s, k)[j] == Renumbered(s[if j < i then j else j + 1], k) {
      assert r[j] == s[if j < i then j else j + 1];
      ShiftDownAt(r, k, j);
    }
  }

  lemma DeletedAtKeepsLowerRows(s: seq<Book>, i: nat, d: seq<Book>)
    requires i < |s| && DeletedAt(s, i, d)
    ensures forall b :: b in s && b.id < s[i].id ==> b in d
  {
    forall b | b in s && b.id < s[i].id ensures b in d {
      var j :| 0 <= j < |s| && s[j] == b;
      var o := if j < i then j else j - 1;
      assert d[o] == b;
    }
  }

  lemma DeletedAtShiftsUpperRows(s: seq<Book>, i: nat, d: seq<Book>)
    requires i < |s| && DeletedAt(s, i, d)
    ensures forall b :: b in s && b.id > s[i].id ==> b.(id := b.id - 1) in d
  {
    forall b | b in s && b.id > s[i].id ensures b.(id := b.id - 1) in d {
      var j :| 0 <= j < |s| && s[j] == b;
      var o := if j < i then j else j - 1;
      assert d[o] == b.(id := b.id - 1);
    }
  }

  lemma DeletedAtLeavesNothingElse(s: seq<Book>, i: nat, d: seq<Book>)
    requires i < |s| && IdOnlyAt(s, i) && DeletedAt(s, i, d)
    ensures forall x :: x in d ==>
      (x in s && x.id < s[i].id) || (x.id >= s[i].id && x.(id := x.id + 1) in s)
  {
    var k := s[i].id;
    forall x | x in d ensures (x in s && x.id < k) || (x.id >= k && x.(id := x.id + 1) in s) {
      var j :| 0 <= j < |d| && d[j] == x;
      var o := if j < i then j else j + 1;
      assert x == Renumbered(s[o], k);
      assert s[o] in s && s[o].id != k;
      RenumberedOrigin(s[o], k);
    }
  }

  /** A renumbered row came from a row with a smaller id, unchanged, or from one with an id one larger. */
  lemma RenumberedOrigin(b: Book, k: int)
    requires b.id != k
    ensures var x := Renumbered(b, k); (x == b && b.id < k) || (x.id >= k && x.(id := x.id + 1) == b)
  {
  }

  /**
   * The same effect stated over the rows themselves: rows below the deleted
   * id survive unchanged, rows above it survive with the id lowered by one,
   * and nothing else is in the table afterwards.
   */
  lemma DeleteEffectOnRows(s: seq<Book>, i: nat)
    requires i < |s| && IdOnlyAt(s, i)
    ensures |AfterDelete(s, s[i].id)| == |s| - 1
    ensures forall b :: b in s && b.id < s[i].id ==> b in AfterDelete(s, s[i].id)
    ensures forall b :: b in s && b.id > s[i].id ==> b.(id := b.id - 1) in AfterDelete(s, s[i].id)
    ensures forall x :: x in AfterDelete(s, s[i].id) ==>
      (x in s && x.id < s[i].id) || (x.id >= s[i].id && x.(id := x.id + 1) in s)
  {
    DeleteEffect(s, i);
    var d := AfterDelete(s, s[i].id);
    assert DeletedAt(s, i, d);
    DeletedAtKeepsLowerRows(s, i, d);
    DeletedAtShiftsUpperRows(s, i, d);
    DeletedAtLeavesNothingElse(s, i, d);
  }

  /** When ids run 1..n without gaps, deleting one of them leaves ids 1..n-1 without gaps. */
  lemma DeleteKeepsIdsOneTo(s: seq<Book>, k: int)
    requires IdsOneTo(s) && 1 <= k <= |s|
    ensures |AfterDelete(s, k)| == |s| - 1
    ensures IdsOneTo(AfterDelete(s, k))
  {
    assert s[k - 1].id == k;
    assert IdOnlyAt(s, k - 1);
    DeleteEffect(s, k - 1);
    var d := AfterDelete(s, k);
    forall j | 0 <= j < |d| ensures d[j].id == j + 1 {
      if j < k - 1 {
        assert d[j] == Renumbered(s[j], k);
      } else {
        assert d[j] == Renumbered(s[j + 1], k);
      }
    }
  }

  /** Deleting the largest id renumbers nothing: the table just loses that row. */
  lemma DeleteLargestRenumbersNothing(s: seq<Book>, i: nat)
    requires i < |s| && IdOnlyAt(s, i)
    requires forall b :: b in s ==> b.id <= s[i].id
    ensures AfterDelete(s, s[i].id) == s[..i] + s[i + 1..]
  {
    DeleteRemovesOneRow(s, i);
    var r := s[..i] + s[i + 1..];
    forall j | 0 <= j < |r| ensures r[j].id <= s[i].id {
      assert r[j] in s;
    }
  }

  // ---------------------------------------------------------------------
  // search_book
  // ---------------------------------------------------------------------

  /** The outcome of a search: a refused criterion, an id term that is not an integer, or the rows found. */
  datatype SearchResult = InvalidCriterion | TermNotInteger | Found(rows: seq<Book>)

  /**
   * A search over the stored rows. The criterion is lower-cased and must be
   * "id", "title" or "author"; the term is lower-cased. By id the term must
   * parse as an integer and rows with that id are returned; by title or
   * author the rows whose lower-cased field equals the term are returned.
   */
  function Search(s: seq<Book>, criterionInput: string, termInput: string): (r: SearchResult)
    ensures r == InvalidCriterion <==>
      Lower(criterionInput) != "id" && Lower(criterionInput) != "title" && Lower(criterionInput) != "author"
    ensures r == TermNotInteger <==> Lower(criterionInput) == "id" && ParseInt(termInput).None?
    ensures r.Found? && Lower(criterionInput) == "id" ==>
      forall b :: b in r.rows <==> b in s && ParseInt(termInput) == Some(b.id)
    ensures r.Found? && Lower(criterionInput) == "title" ==>
      forall b :: b in r.rows <==> b in s && Lower(b.title) == Lower(termInput)
    ensures r.Found? && Lower(criterionInput) == "author" ==>
      forall b :: b in r.rows <==> b in s && Lower(b.author) == Lower(termInput)
  {
    var field := Lower(criterionInput);
    var term := Lower(termInput);
    ParseIntIgnoresCase(termInput);
    if field == "id" then
      match ParseInt(term)
      case None => TermNotInteger
      case Some(k) => SelectMembers(s, ById(k)); Found(Select(s, ById(k)))
    else if field == "title" then SelectMembers(s, ByTitle(term)); Found(Select(s, ByTitle(term)))
    else if field == "author" then SelectMembers(s, ByAuthor(term)); Found(Select(s, ByAuthor(term)))
    else InvalidCriterion
  }

  /** A search by id returns at most one row. */
  lemma SearchByIdAtMostOne(s: seq<Book>, criterionInput: string, termInput: string)
    requires UniqueIds(s)
    requires Lower(criterionInput) == "id" && Search(s, criterionInput, termInput).Found?
    ensures |Search(s, criterionInput, termInput).rows| <= 1
  {
    SelectByIdAtMostOne(s, ParseInt(Lower(termInput)).value);
  }

  /**
   * Title and author search compare whole values, not substrings: every row
   * found has a title (or author) exactly as long as the term.
   */
  lemma SearchMatchesWholeValue(s: seq<Book>, criterionInput: string, termInput: string)
    requires Search(s, criterionInput, termInput).Found?
    ensures Lower(criterionInput) == "title" ==>
      forall b :: b in Search(s, criterionInput, termInput).rows ==> |b.title| == |termInput|
    ensures Lower(criterionInput) == "author" ==>
      forall b :: b in Search(s, criterionInput, termInput).rows ==> |b.author| == |termInput|
  {
  }

  /**
   * Which selection a successful search performs: its rows are the rows of
   * the table meeting the criterion, in storage order.
   */
  lemma SearchSelects(s: seq<Book>, criterionInput: string, termInput: string)
    ensures Lower(criterionInput) == "id" && ParseInt(termInput).Some? ==>
      Search(s, criterionInput, termInput) == Found(Select(s, ById(ParseInt(termInput).value)))
    ensures Lower(criterionInput) == "title" ==>
      Search(s, criterionInput, termInput) == Found(Select(s, ByTitle(Lower(termInput))))
    ensures Lower(criterionInput) == "author" ==>
      Search(s, criterionInput, termInput) == Found(Select(s, ByAuthor(Lower(termInput))))
  {
  }

  /** "Dune" does not find a longer title starting with it, such as "Dune Messiah". */
  lemma TitleSearchIsNotPrefix(title: string)
    requires |title| > 4 && title[..4] == "Dune"
    ensures Search([Book(1, title, "Herbert", 2)], "title", "Dune") == Found([])
  {
    var b := Book(1, title, "Herbert", 2);
    LowerKeepsLowerCase("title");
    SearchSelects([b], "title", "Dune");
    assert |Lower(title)| != |Lower("Dune")|;
    NoMatchSelectsNothing([b], ByTitle(Lower("Dune")));
  }

  /** A title search ignores letter case: "dune" finds "Dune". */
  lemma TitleSearchIgnoresCase()
    ensures Search([Book(1, "Dune", "Herbert", 5)], "title", "dune") == Found([Book(1, "Dune", "Herbert", 5)])
  {
    var dune := Book(1, "Dune", "Herbert", 5);
    LowerKeepsLowerCase("title");
    LowerKeepsLowerCase("dune");
    SearchSelects([dune], "title", "dune");
    assert Lower("Dune") == "dune";
    assert [dune][1..] == [];
    assert Select([dune], ByTitle("dune")) == [dune];
  }

  /** An author search ignores letter case: "tolkien" finds "Tolkien". */
  lemma AuthorSearchIgnoresCase()
    ensures Search([Book(1, "Hobbit", "Tolkien", 3)], "author", "tolkien") == Found([Book(1, "Hobbit", "Tolkien", 3)])
  {
    var hobbit := Book(1, "Hobbit", "Tolkien", 3);
    LowerKeepsLowerCase("author");
    LowerKeepsLowerCase("tolkien");
    SearchSelects([hobbit], "author", "tolkien");
    assert Lower("Tolkien") == "tolkien";
    assert [hobbit][1..] == [];
    assert Select([hobbit], ByAuthor("tolkien")) == [hobbit];
  }
}
