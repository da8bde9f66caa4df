/** The verse store behind the command: which versions are connected, which books each
    version holds, and which rows a reference selects. Each version's SQLite table is
    modelled as the sequence of its rows in stored order; the two queries the command
    issues are modelled by the filter they describe. */
module VerseStore {
  import opened Seqs

  /** One row of a version's table: the columns book, chapter, verse and content. */
  datatype Row = Row(book: string, chapter: int, verse: int, content: string)

  /** A version's table, in stored order. */
  type Table = seq<Row>

  /** The connected versions, by name (the command connects "kjv-en"). */
  type Registry = map<string, Table>

  /** The result of a lookup that reports a missing version. */
  datatype Result<T> = Success(value: T) | Failure(message: string)

  /** A version is supported exactly when it has a connection. */
  predicate VersionExists(reg: Registry, v: string)
  {
    v in reg
  }

  /** The distinct book names of a table, each at its first occurrence
      (the rows of "SELECT DISTINCT book"). */
  function Books(rows: Table): (r: seq<string>)
    decreases |rows|
  {
    if rows == [] then []
    else
      var init := Books(rows[..|rows| - 1]);
      var b := rows[|rows| - 1].book;
      if b in init then init else init + [b]
  }

  /** Some row of the table belongs to book b. */
  predicate HasBook(rows: Table, b: string)
  {
    exists i | 0 <= i < |rows| :: rows[i].book == b
  }

  /** The book list names exactly the books that occur in the table. */
  lemma {:induction false} BooksMembership(rows: Table, b: string)
    ensures b in Books(rows) <==> HasBook(rows, b)
    decreases |rows|
  {
    if rows != [] {
      var init := rows[..|rows| - 1];
      BooksMembership(init, b);
      assert forall i | 0 <= i < |init| :: init[i] == rows[i];
      if HasBook(init, b) {
        var i :| 0 <= i < |init| && init[i].book == b;
        assert rows[i].book == b;
      }
    }
  }

  /** No book name is listed twice. */
  lemma {:induction false} BooksDistinct(rows: Table)
    ensures forall i, j | 0 <= i < j < |Books(rows)| :: Books(rows)[i] != Books(rows)[j]
    decreases |rows|
  {
    if rows != [] {
      BooksDistinct(rows[..|rows| - 1]);
    }
  }

  /** The books of a version, or the error for a version that is not connected. */
  function GetBooks(reg: Registry, v: string): (r: Result<seq<string>>)
    ensures !VersionExists(reg, v) ==> r == Failure("'" + v + "' isn't a supported version")
    ensures VersionExists(reg, v) ==> r.Success?
    ensures r.Success? ==> forall b :: b in r.value <==> HasBook(reg[v], b)
  {
    if !VersionExists(reg, v) then
      Failure("'" + v + "' isn't a supported version")
    else
      var rows := reg[v];
      assert forall b :: b in Books(rows) <==> HasBook(rows, b) by {
        forall b {
          BooksMembership(rows, b);
        }
      }
      Success(Books(rows))
  }

  /** A book exists for a version when the version is connected and its book list
      contains the name; an unknown version has no books. */
  function BookExists(reg: Registry, v: string, book: string): (r: bool)
    ensures !VersionExists(reg, v) ==> !r
    ensures VersionExists(reg, v) ==> (r <==> HasBook(reg[v], book))
  {
    match GetBooks(reg, v)
    case Failure(_) => false
    case Success(books) => book in books
  }

  /** The two queries getVerses issues: a whole chapter, or the verses between two
      numbers inclusive. */
  datatype Query =
    | WholeChapter(book: string, chapter: int)
    | VerseRange(book: string, chapter: int, lo: int, hi: int)

  /** Whether a row satisfies a query's WHERE clause. */
  predicate Matches(q: Query, row: Row)
  {
    match q
    case WholeChapter(b, c) => row.book == b && row.chapter == c
    case VerseRange(b, c, lo, hi) => row.book == b && row.chapter == c && lo <= row.verse <= hi
  }

  /** A zero start or end asks for the whole chapter; otherwise the range start..end. */
  function ChooseQuery(book: string, chapter: int, start: int, end: int): (q: Query)
    ensures forall row: Row :: Matches(q, row) <==>
      row.book == book && row.chapter == chapter && (start == 0 || end == 0 || start <= row.verse <= end)
  {
    if start == 0 || end == 0 then WholeChapter(book, chapter)
    else VerseRange(book, chapter, start, end)
  }

  /** The rows a query returns, in stored order. */
  function Select(rows: Table, q: Query): (r: Table)
    decreases |rows|
  {
    if rows == [] then []
    else
      var last := rows[|rows| - 1];
      Select(rows[..|rows| - 1], q) + (if Matches(q, last) then [last] else [])
  }

  /** The content column of a sequence of rows. */
  function Contents(rows: Table): (r: seq<string>)
    ensures |r| == |rows|
    ensures forall k | 0 <= k < |rows| :: r[k] == rows[k].content
    decreases |rows|
  {
    if rows == [] then [] else Contents(rows[..|rows| - 1]) + [rows[|rows| - 1].content]
  }

  /** Every row the query selects matches it, and is taken as many times as it is stored. */
  lemma {:induction false} SelectCount(rows: Table, q: Query, x: Row)
    ensures multiset(Select(rows, q))[x] == if Matches(q, x) then multiset(rows)[x] else 0
    decreases |rows|
  {
    if rows != [] {
      var init, last := rows[..|rows| - 1], rows[|rows| - 1];
      SelectCount(init, q, x);
      assert rows == init + [last];
    }
  }

  /** A row is selected exactly when it is stored and matches the query. */
  lemma SelectMembership(rows: Table, q: Query, x: Row)
    ensures x in Select(rows, q) <==> x in rows && Matches(q, x)
  {
    SelectCount(rows, q, x);
    assert x in Select(rows, q) <==> multiset(Select(rows, q))[x] > 0;
    assert x in rows <==> multiset(rows)[x] > 0;
  }

  /** The selected rows keep the table's order. */
  lemma {:induction false} SelectInOrder(rows: Table, q: Query)
    ensures IsSubsequence(Select(rows, q), rows)
    decreases |rows|
  {
    if rows != [] {
      var init, last := rows[..|rows| - 1], rows[|rows| - 1];
      SelectInOrder(init, q);
      var s := Select(init, q);
      assert rows == init + [last];
      if Matches(q, last) {
        assert (s + [last])[..|s|] == s;
      } else {
        assert s + [] == s;
        SubsequenceExtend(s, init, last);
      }
    }
  }

  /** A query that accepts fewer rows selects a subsequence of what a wider one selects. */
  lemma {:induction false} SelectNarrower(rows: Table, q1: Query, q2: Query)
    requires forall row: Row :: Matches(q1, row) ==> Matches(q2, row)
    ensures IsSubsequence(Select(rows, q1), Select(rows, q2))
    decreases |rows|
  {
    if rows != [] {
      var init, last := rows[..|rows| - 1], rows[|rows| - 1];
      SelectNarrower(init, q1, q2);
      var s1, s2 := Select(init, q1), Select(init, q2);
      if Matches(q1, last) {
        assert (s1 + [last])[..|s1|] == s1;
        assert (s2 + [last])[..|s2|] == s2;
      } else if Matches(q2, last) {
        assert s1 + [] == s1;
        SubsequenceExtend(s1, s2, last);
      } else {
        assert s1 + [] == s1 && s2 + [] == s2;
      }
    }
  }

  /** A range of verses is part of its chapter, in the same order. */
  lemma RangeWithinChapter(rows: Table, book: string, chapter: int, start: int, end: int)
    ensures IsSubsequence(Select(rows, ChooseQuery(book, chapter, start, end)),
                          Select(rows, WholeChapter(book, chapter)))
  {
    SelectNarrower(rows, ChooseQuery(book, chapter, start, end), WholeChapter(book, chapter));
  }

  /** A range whose end is before its start selects nothing; the whole-chapter case needs
      a zero bound. */
  lemma {:induction false} ReversedRangeEmpty(rows: Table, book: string, chapter: int, start: int, end: int)
    requires 0 < end < start
    ensures Select(rows, ChooseQuery(book, chapter, start, end)) == []
    decreases |rows|
  {
    if rows != [] {
      ReversedRangeEmpty(rows[..|rows| - 1], book, chapter, start, end);
    }
  }

  /** Every verse of a table that belongs to the chapter is selected by the whole-chapter
      query; chapter 0 gets no special treatment and selects only rows numbered 0. */
  lemma WholeChapterSelection(rows: Table, book: string, chapter: int, start: int, end: int, x: Row)
    requires start == 0 || end == 0
    ensures x in Select(rows, ChooseQuery(book, chapter, start, end)) <==>
      x in rows && x.book == book && x.chapter == chapter
  {
    SelectMembership(rows, ChooseQuery(book, chapter, start, end), x);
  }

  /** With both bounds given, a row is selected exactly when its verse lies between them,
      both ends included. */
  lemma RangeSelection(rows: Table, book: string, chapter: int, start: int, end: int, x: Row)
    requires start != 0 && end != 0
    ensures x in Select(rows, ChooseQuery(book, chapter, start, end)) <==>
      x in rows && x.book == book && x.chapter == chapter && start <= x.verse <= end
  {
    SelectMembership(rows, ChooseQuery(book, chapter, start, end), x);
  }

  /** The verses of a reference: the content of every selected row, appended in the
      order the query returns them. The version must be connected. */
  method GetVerses(reg: Registry, v: string, book: string, chapter: int, start: int, end: int)
    returns (verses: seq<string>)
    requires VersionExists(reg, v)
    ensures verses == Contents(Select(reg[v], ChooseQuery(book, chapter, start, end)))
  {
    var q := ChooseQuery(book, chapter, start, end);
    var rows := reg[v];
    verses := [];
    for i := 0 to |rows|
      invariant verses == Contents(Select(rows[..i], q))
    {
      assert rows[..i + 1][..i] == rows[..i];
      if Matches(q, rows[i]) {
        verses := verses + [rows[i].content];
      }
    }
    assert rows[..|rows|] == rows;
  }
}
