/** `load_db_to_df`: the denormalized read view. Each book is left-joined to
    its four dimension names and the result is ordered by catalog number. */
module View {
  import opened Wrappers
  import opened Store

  /** One row of the read view, the eight columns every front end shows. */
  datatype ViewRow = ViewRow(
    bookId: int,
    title: string,
    brand: Option<string>,
    model: Option<string>,
    machineType: Option<string>,
    language: Option<string>,
    editionYear: Option<string>,
    location: Option<string>)

  /** The name column of dimension `d` in a view row. */
  function Name(r: ViewRow, d: Dim): Option<string> {
    match d
    case Brand => r.brand
    case MachineType => r.machineType
    case Model => r.model
    case Language => r.language
  }

  /** `LEFT JOIN t ON fk = t.id`: the name of the row with that id, or NULL
      when the key is NULL or matches no row. */
  function Lookup(t: seq<string>, fk: Option<nat>): (name: Option<string>)
    ensures name.Some? <==> fk.Some? && 1 <= fk.value <= |t|
    ensures name.Some? ==> name.value == t[fk.value - 1]
  {
    if fk.Some? && 1 <= fk.value <= |t| then Some(t[fk.value - 1]) else None
  }

  /** One book joined with its dimension names. */
  function Join(s: Store, b: Book): (r: ViewRow)
    ensures r.bookId == b.bookId && r.title == b.title
    ensures r.editionYear == b.editionYear && r.location == b.location
    ensures forall d :: Name(r, d) == Lookup(s.Table(d), Fk(b, d))
  {
    ViewRow(b.bookId, b.title,
            Lookup(s.brands, b.brandId), Lookup(s.models, b.modelId),
            Lookup(s.machineTypes, b.machineTypeId), Lookup(s.languages, b.languageId),
            b.editionYear, b.location)
  }

  /** The join, one row per book, in the books table's insertion order. */
  function JoinAll(s: Store): (r: seq<ViewRow>)
    ensures |r| == |s.books|
    ensures forall k :: 0 <= k < |r| ==> r[k] == Join(s, s.books[k])
  {
    seq(|s.books|, k requires 0 <= k < |s.books| => Join(s, s.books[k]))
  }

  /** `ORDER BY book_id`: ascending catalog numbers. */
  predicate SortedByBookId(rows: seq<ViewRow>) {
    forall i, j :: 0 <= i < j < |rows| ==> rows[i].bookId <= rows[j].bookId
  }

  /** The tail of an ascending list is ascending and bounded below by its head. */
  lemma SortedTail(s: seq<ViewRow>)
    requires |s| > 0 && SortedByBookId(s)
    ensures SortedByBookId(s[1..])
    ensures forall y :: y in s[1..] ==> s[0].bookId <= y.bookId
  {
    forall y | y in s[1..] ensures s[0].bookId <= y.bookId {
      var j :| 0 <= j < |s[1..]| && s[1..][j] == y;
      assert s[j + 1] == y;
    }
  }

  /** Putting a row in front of an ascending list whose rows all come no earlier keeps it ascending. */
  lemma SortedCons(h: ViewRow, rest: seq<ViewRow>)
    requires SortedByBookId(rest)
    requires forall y :: y in rest ==> h.bookId <= y.bookId
    ensures SortedByBookId([h] + rest)
  {
    forall i, j | 0 <= i < j < |[h] + rest| ensures ([h] + rest)[i].bookId <= ([h] + rest)[j].bookId {
      assert ([h] + rest)[j] == rest[j - 1];
      if i > 0 {
        assert ([h] + rest)[i] == rest[i - 1];
      } else {
        assert rest[j - 1] in rest;
      }
    }
  }

  /** A lower bound on the rows of `t` and on `x` bounds every row of a permutation of `t + [x]`. */
  lemma BoundKept(x: ViewRow, t: seq<ViewRow>, r: seq<ViewRow>, lo: int)
    requires multiset(r) == multiset(t) + multiset{x}
    requires lo <= x.bookId && forall y :: y in t ==> lo <= y.bookId
    ensures forall y :: y in r ==> lo <= y.bookId
  {
    forall y | y in r ensures lo <= y.bookId {
      assert y in multiset(r);
      if y != x {
        assert y in multiset(t);
      }
    }
  }

  /** Inserting one row into an ascending list at its place. */
  function InsertByBookId(x: ViewRow, s: seq<ViewRow>): (r: seq<ViewRow>)
    requires SortedByBookId(s)
    ensures SortedByBookId(r)
    ensures multiset(r) == multiset(s) + multiset{x}
    decreases |s|
  {
    if |s| == 0 then [x]
    else if x.bookId <= s[0].bookId then
      SortedCons(x, s);
      [x] + s
    else
      SortedTail(s);
      var rest := InsertByBookId(x, s[1..]);
      BoundKept(x, s[1..], rest, s[0].bookId);
      SortedCons(s[0], rest);
      assert s == [s[0]] + s[1..];
      assert multiset([s[0]] + rest) == multiset{s[0]} + multiset(rest);
      [s[0]] + rest
  }

  /** Insertion sort by catalog number: a permutation that is ascending. */
  function SortByBookId(rows: seq<ViewRow>): (r: seq<ViewRow>)
    ensures SortedByBookId(r)
    ensures multiset(r) == multiset(rows)
    ensures |r| == |rows|
    decreases |rows|
  {
    if |rows| == 0 then []
    else
      assert rows == rows[..|rows| - 1] + [rows[|rows| - 1]];
      var r := InsertByBookId(rows[|rows| - 1], SortByBookId(rows[..|rows| - 1]));
      assert |multiset(r)| == |multiset(rows)|;
      r
  }

  /** `load_db_to_df`: one row per book, ordered by catalog number, each the
      join of a stored book. */
  function ReadAll(s: Store): (r: seq<ViewRow>)
    ensures |r| == |s.books|
    ensures SortedByBookId(r)
    ensures multiset(r) == multiset(JoinAll(s))
  {
    SortByBookId(JoinAll(s))
  }

  /** Every view row is the join of some stored book. */
  lemma ReadAllRowsAreJoins(s: Store, x: ViewRow)
    requires x in ReadAll(s)
    ensures exists k :: 0 <= k < |s.books| && x == Join(s, s.books[k])
  {
    assert x in multiset(ReadAll(s));
    assert x in multiset(JoinAll(s));
    var k :| 0 <= k < |JoinAll(s)| && JoinAll(s)[k] == x;
  }

  /** Under referential integrity a dimension name is NULL exactly when the
      book's foreign key is NULL. */
  lemma JoinNullIffKeyNull(s: Store, b: Book, d: Dim)
    requires Fk(b, d).Some? ==> 1 <= Fk(b, d).value <= |s.Table(d)|
    ensures Name(Join(s, b), d).None? <==> Fk(b, d).None?
  {
  }

  /** With unique catalog numbers the view is strictly ascending. */
  lemma ReadAllStrictlyAscending(s: Store)
    requires forall j, k :: 0 <= j < k < |s.books| ==> s.books[j].bookId != s.books[k].bookId
    ensures forall i, j :: 0 <= i < j < |ReadAll(s)| ==> ReadAll(s)[i].bookId < ReadAll(s)[j].bookId
  {
    var r := ReadAll(s);
    forall i, j | 0 <= i < j < |r| ensures r[i].bookId != r[j].bookId {
      ReadAllRowsAreJoins(s, r[i]);
      ReadAllRowsAreJoins(s, r[j]);
      var a :| 0 <= a < |s.books| && r[i] == Join(s, s.books[a]);
      var b :| 0 <= b < |s.books| && r[j] == Join(s, s.books[b]);
      if a == b {
        TwiceCounted(r, i, j);
        JoinOccursOnce(s, a);
      }
    }
  }

  /** A value found at two positions occurs at least twice. */
  lemma TwiceCounted(r: seq<ViewRow>, i: nat, j: nat)
    requires i < j < |r|
    ensures r[i] == r[j] ==> multiset(r)[r[i]] >= 2
  {
    assert r == r[..i] + [r[i]] + r[i + 1..j] + [r[j]] + r[j + 1..];
  }

  /** With unique catalog numbers each book's join occurs once in the join. */
  lemma JoinOccursOnce(s: Store, a: nat)
    requires a < |s.books|
    requires forall j, k :: 0 <= j < k < |s.books| ==> s.books[j].bookId != s.books[k].bookId
    ensures multiset(JoinAll(s))[Join(s, s.books[a])] == 1
  {
    var x := Join(s, s.books[a]);
    var js := JoinAll(s);
    assert js == js[..a] + [x] + js[a + 1..];
    assert x !in js[..a] && x !in js[a + 1..];
    assert multiset(js[..a])[x] == 0 && multiset(js[a + 1..])[x] == 0;
  }
}
