# eBookstore database — Dafny model

The eBookstore program keeps a bookstore's stock in one table, `books`, with
the columns `id` (auto-assigned), `title`, `author` and `quantity`. The user
can add a book, update a book's fields, delete a book (after which every
larger id moves down by one so that the ids have no gap) and search by id,
title or author. Add, update and delete each ask for a yes/no confirmation.

This project models that record-management logic. The table is kept in memory.
What the user types (inputs and answers) is passed in as parameters.

- `wrappers.dfy`, module `Wrappers`: the `Option` type. It stands in for the
  `ValueError` the program catches.
- `text.dfy`, module `Text`: ASCII lower-casing (`Lower`), the confirmation
  test (`Confirmed`: the lower-cased answer is `"yes"`), and `ParseInt`, a
  simplified model of Python's `int()` on a string. `ParseInt` accepts an
  optional `+` or `-` followed by one or more decimal digits. It is paired
  with a decimal printer, `Show`.
- `catalog.dfy`, module `Catalog`: the `Book` record and, as functions on the
  row sequence, what each SQL statement of the program does:
  - `Lookup`: `SELECT … WHERE id=?` then `fetchone()`
  - `Select`: `SELECT … WHERE …` then `fetchall()`
  - `Overwrite`: the update statement
  - `RemoveId`: the delete statement
  - `ShiftDown`: the renumbering statement

  It also holds the blank-keeps-old rule of an update (`Revised`) and the
  whole search operation (`Search`), with lemmas about all of these.
- `bookstore.dfy`, module `Bookstore`: class `Store`. Its field `books` holds
  the rows in storage order. Its field `lastId` is the AUTOINCREMENT counter:
  the largest id ever issued, which never decreases. The methods `Add`,
  `Update` and `Delete` change the table in place, and each returns an
  `Outcome`. The invariant `Valid()` says the ids are positive, at most
  `lastId`, and increase along storage order, so they are unique. Two client
  methods replay worked examples against the contracts.

Modelling choices:
- Storage order is increasing id order, which is how SQLite returns the rows
  of a rowid table. A new row gets `lastId + 1`. This is larger than every id
  in the table, so appending it keeps the order.
- Deletion runs the two statements one after the other, on the
  sequence: `RemoveId`, then `ShiftDown`. The program commits them together,
  so the model treats them as one step (`AfterDelete`).
- The source file's own comment on its renumbering (line 147) says it leaves
  no gaps in the ids. That holds only until the next add. The AUTOINCREMENT
  counter is not wound back, so an add after a delete leaves a gap.
  `GapAfterDeleteScenario` shows this, and the model keeps that behaviour.
- Confirmation is part of each operation, as in the code. The answer is a
  parameter. Any answer other than "yes" (in any letter case) cancels the
  operation and leaves the table unchanged. Search by id also
  accepts negative ids, because the code only calls `int()`.

## Model

| member | source | states |
|---|---|---|
| `Text.ParseInt` | bookstoreDatabase.py:44-45 | `int()` on an input succeeds exactly when the input is an optional `+` or `-` followed by one or more decimal digits (`IsSignedDecimal`); a negative value needs a leading minus |
| `Text.ParseShow` | bookstoreDatabase.py:44-57 | every integer written in decimal, negative ones included, parses back to itself, so any integer quantity can be entered |
| `Text.ParseSingleDigit` | bookstoreDatabase.py:44-45 | a single decimal digit parses to its value |
| `Text.ParsePlus` | bookstoreDatabase.py:44-45 | a leading `+` does not change the value: `"+" + d` parses as `d` does |
| `Text.ParseMinus` | bookstoreDatabase.py:44-45 | a leading `-` negates the value, so `"-0"` is 0 |
| `Text.ParseLeadingZero` | bookstoreDatabase.py:44-45 | a leading zero does not change the value, so `"007"` is 7 |
| `Text.ParseIntIgnoresCase` | bookstoreDatabase.py:167-175 | lower-casing the search term before `int()` does not change what it parses to |
| `Text.Lower` | bookstoreDatabase.py:184-188 | ASCII `LOWER`: the result has the input's length and folds each character on its own |
| `Text.LowerIdempotent` | bookstoreDatabase.py:167-188 | lower-casing twice gives the same string as lower-casing once |
| `Text.Confirmed` | bookstoreDatabase.py:205-219 | `confirmation.lower() == "yes"` in `confirm_update` and `confirm_deletion` holds exactly when the answer is three letters y, e, s, each in either case |
| `Catalog.Lookup` | bookstoreDatabase.py:74-78 | the row fetched by id is a stored row with that id; no row comes back only when no stored row has that id |
| `Catalog.LookupIsFirstSelected` | bookstoreDatabase.py:74-75 | `fetchone()` gives the first row, in storage order, of what `fetchall()` gives for the same query |
| `Catalog.Matches` | bookstoreDatabase.py:180-188 | the WHERE clauses: an id criterion holds exactly when the id equals the term; a title or author match has the term's length |
| `Catalog.MatchesFoldsEachCharacter` | bookstoreDatabase.py:183-188 | `LOWER(title)=?` and `LOWER(author)=?` hold exactly when the lengths agree and each character folds to the term's character at the same position |
| `Catalog.Select` | bookstoreDatabase.py:180-190 | every row returned meets the criterion, and never more rows are returned than are stored |
| `Catalog.SelectMembers` | bookstoreDatabase.py:180-190 | the rows returned are exactly the stored rows that meet the criterion |
| `Catalog.SelectAppend` | bookstoreDatabase.py:190-202 | results keep storage order: selecting from a concatenation concatenates the selections |
| `Catalog.SelectByIdAtMostOne` | bookstoreDatabase.py:180 | with unique ids, selecting by id returns at most one row |
| `Catalog.AppendKeepsAscending` | bookstoreDatabase.py:22 | inserting a row whose AUTOINCREMENT id exceeds every stored id keeps the ids increasing, hence unique |
| `Catalog.KeepIfBlank` | bookstoreDatabase.py:91-94 | a non-blank input replaces the stored text, a blank one keeps it; the result is blank only when both are |
| `Catalog.Revised` | bookstoreDatabase.py:90-101 | blank title or author keeps the stored value and non-blank replaces it; blank quantity keeps the stored one; non-blank quantity must parse; the failure case is exactly a non-blank quantity that does not parse; the id is kept |
| `Catalog.Overwrite` | bookstoreDatabase.py:105 | every row with the given id gets the new title, author and quantity (id kept); every other row is left as it was |
| `Catalog.OverwriteOneRow` | bookstoreDatabase.py:105 | with unique ids, the update changes exactly the one row holding the id and no other |
| `Catalog.OverwriteKeepsIds` | bookstoreDatabase.py:105 | the update never touches ids, so ids stay increasing, and stay within 1..n when they were |
| `Catalog.RemoveId` | bookstoreDatabase.py:145 | the rows left are exactly the stored rows whose id differs from the deleted one |
| `Catalog.Renumbered` | bookstoreDatabase.py:148 | one row under the renumbering: title, author and quantity kept; an id above the deleted one drops by one, others are kept; a row stays on its side of the deleted id |
| `Catalog.ShiftDown` | bookstoreDatabase.py:148 | the renumbering keeps row count, titles, authors and quantities; an id above the deleted one drops by one; other rows are unchanged |
| `Catalog.AfterDelete` | bookstoreDatabase.py:145-149 | the delete and the renumbering committed together: no row is added, rows with a smaller id survive unchanged, rows with a larger id survive with id − 1 |
| `Catalog.DeleteKeepsUnique` | bookstoreDatabase.py:145-148 | deletion followed by renumbering keeps ids unique, whatever id is deleted |
| `Catalog.DeleteKeepsAscending` | bookstoreDatabase.py:145-148 | deletion followed by renumbering keeps the rows in increasing id order |
| `Catalog.DeleteKeepsIdsInRange` | bookstoreDatabase.py:145-148 | deleting a positive id keeps every id positive and never above the counter |
| `Catalog.DeleteRemovesOneRow` | bookstoreDatabase.py:145 | with unique ids, the delete statement removes exactly the row holding the id |
| `Catalog.DeleteEffect` | bookstoreDatabase.py:145-148 | deleting the only row at index i (`DeletedAt`): one row fewer; position j holds the old row j below i and the old row j + 1 from i on, each with an id above the deleted one lowered by one and title, author and quantity kept |
| `Catalog.DeleteEffectOnRows` | bookstoreDatabase.py:145-148 | rows with a smaller id survive unchanged and rows with a larger id survive with id − 1; every row left is one of these |
| `Catalog.DeleteKeepsIdsOneTo` | bookstoreDatabase.py:147-148 | if ids were exactly 1..n, after deleting one of them they are exactly 1..n−1 |
| `Catalog.DeleteLargestRenumbersNothing` | bookstoreDatabase.py:147-148 | deleting the largest id renumbers nothing: the table just loses that row |
| `Catalog.Search` | bookstoreDatabase.py:157-190 | a criterion other than id, title or author (in any case) is refused before any lookup; an id term that does not parse is refused; otherwise it returns exactly the rows whose id equals the parsed term, or whose lower-cased title or author equals the lower-cased term |
| `Catalog.SearchSelects` | bookstoreDatabase.py:173-190 | a successful search returns the selection by the parsed id, or by the lower-cased title or author term, in storage order |
| `Catalog.SearchByIdAtMostOne` | bookstoreDatabase.py:173-180 | with unique ids, a search by id returns at most one row |
| `Catalog.SearchMatchesWholeValue` | bookstoreDatabase.py:183-188 | title and author search compare whole values: each row found has a title (author) exactly as long as the term |
| `Catalog.TitleSearchIsNotPrefix` | bookstoreDatabase.py:183-184 | "Dune" does not find a longer title starting with it, such as "Dune Messiah" |
| `Catalog.TitleSearchIgnoresCase` | bookstoreDatabase.py:183-184 | "dune" finds the title "Dune" |
| `Catalog.AuthorSearchIgnoresCase` | bookstoreDatabase.py:186-188 | "tolkien" finds the author "Tolkien" |
| `Bookstore.Store.constructor` | bookstoreDatabase.py:17-29 | a new table is empty, its counter is 0, and the invariant holds |
| `Bookstore.Store.Add` | bookstoreDatabase.py:32-58 | a quantity that does not parse, or an answer other than yes, inserts nothing and leaves the counter alone; otherwise the row with the given title, author and parsed quantity (negative allowed) is appended under id `lastId + 1`, above every stored id; ids stay unique |
| `Bookstore.Store.Update` | bookstoreDatabase.py:61-118 | an id that does not parse, an absent id, a quantity that does not parse or an answer other than yes leaves the table unchanged and reports which; otherwise the row with that id is overwritten with the blank-keeps-old fields and no other row changes; ids stay unique |
| `Bookstore.Store.Delete` | bookstoreDatabase.py:121-154 | an id that does not parse, an absent id or an answer other than yes leaves the table unchanged and reports which; otherwise the table becomes the delete followed by the renumbering, in one step; ids stay unique and the counter is unchanged |
| `Bookstore.RenumberingScenario` | bookstoreDatabase.py:262-275 | add Dune/Herbert/5, add Hobbit/Tolkien/3, delete id 1, search author "tolkien": the single result is the Hobbit row renumbered to id 1 |
| `Bookstore.GapAfterDeleteScenario` | bookstoreDatabase.py:262-275 | add, add, delete id 1, add: the ids are 1 and 3, because the AUTOINCREMENT counter is never wound back |

## Left out

- Terminal input and output: the prompts, `display_book`, `display_menu`,
  `display_exit_message` and the `menu` loop. Typed inputs and answers are
  parameters, and results are returned values.
- SQLite connection handling (connect, commit, close). This includes the
  paths in `delete_book` and `search_book` that return without closing the
  connection. None of it changes the table.
- The `create_table` statement, apart from the row shape and the
  AUTOINCREMENT id. It is modelled only as the constructor of an empty table.
- The `sqlite_sequence` table itself. It is modelled as `lastId`, which the
  invariant keeps at or above every stored id. So `lastId + 1` is what SQLite's
  rule (one more than the larger of the counter and the largest id) gives.
- The order in which SQLite visits rows during `UPDATE … SET id = id - 1`.
  Only the net effect is modelled.
- Text.ParseInt: it does not model the full grammar of Python's `int()`:
  surrounding whitespace, underscores between digits and non-ASCII digits.
  An input that Python accepts in these forms is refused by the model.
- Text.Lower: it folds ASCII letters only. SQLite's `LOWER` does the same, but
  Python's `str.lower`, applied to the search term and the criterion, folds
  all of Unicode. A search term with non-ASCII capitals can therefore
  match in the model but not in the program. The other direction happens
  too: `str.lower` turns some non-ASCII characters into ASCII ones (the
  Kelvin sign becomes `k`), so such a term can find a row in the program but
  not in the model, and it turns some characters into two, so the
  equal-length property of `SearchMatchesWholeValue` holds only in the model.
- Integer width: SQLite stores at most 64-bit integers. A quantity or id
  outside that range makes the program's insert, update or select raise an
  error it does not catch. The exception is an input of more than 4300
  digits: recent Python releases refuse it in `int()` with a `ValueError`,
  which the program reports as a non-integer input; the model accepts it. The model uses unbounded integers and has no
  such failure.
