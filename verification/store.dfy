/** The catalog store: four dimension tables and the books table, with the
    get-or-create interning of dimension names. SQLite is replaced by values:
    a dimension table is the sequence of its names in insertion order, and a
    row's id is its position plus one (SQLite hands out `max(rowid) + 1`, and
    nothing is ever deleted between two resets). */
module Store {
  import opened Wrappers
  import opened StringOrder

  /** The two front ends sharing this logic: the desktop app and the web app. */
  datatype Variant = Desktop | Web

  /** The four dimensions a book is tagged with. */
  datatype Dim = Brand | MachineType | Model | Language

  /** A row of the books table; the dimension ids are nullable foreign keys. */
  datatype Book = Book(
    bookId: int,
    title: string,
    editionYear: Option<string>,
    location: Option<string>,
    brandId: Option<nat>,
    modelId: Option<nat>,
    machineTypeId: Option<nat>,
    languageId: Option<nat>)

  /** The whole database: the four dimension tables and the books table.
      The meta table is created by the schema but never written, so it is
      not represented. */
  datatype Store = Store(
    brands: seq<string>,
    machineTypes: seq<string>,
    models: seq<string>,
    languages: seq<string>,
    books: seq<Book>)
  {
    function Table(d: Dim): seq<string> {
      match d
      case Brand => brands
      case MachineType => machineTypes
      case Model => models
      case Language => languages
    }

    function WithTable(d: Dim, t: seq<string>): (s: Store)
      ensures s.Table(d) == t
      ensures forall e :: e != d ==> s.Table(e) == Table(e)
      ensures s.books == books
    {
      match d
      case Brand => this.(brands := t)
      case MachineType => this.(machineTypes := t)
      case Model => this.(models := t)
      case Language => this.(languages := t)
    }
  }

  /** The foreign key a book holds for dimension `d`. */
  function Fk(b: Book, d: Dim): Option<nat> {
    match d
    case Brand => b.brandId
    case MachineType => b.machineTypeId
    case Model => b.modelId
    case Language => b.languageId
  }

  /** A database whose tables exist and are empty. */
  const EmptyStore: Store := Store([], [], [], [], [])

  /** `create_schema`: with `drop` every table is dropped and created anew,
      so nothing of the old content survives; without it the
      `CREATE TABLE IF NOT EXISTS` statements leave an existing store alone. */
  function CreateSchema(s: Store, drop: bool): (r: Store)
    ensures drop ==> r.books == [] && forall d :: r.Table(d) == []
    ensures !drop ==> r == s
  {
    if drop then EmptyStore else s
  }

  /** Whether `get_id` looks the name up at all. The desktop version rejects
      every falsy name, so the empty string is never a dimension value there;
      the web version rejects only None and NaN and interns "" like any name. */
  predicate Internable(v: Variant, name: Option<string>) {
    name.Some? && (v == Web || name.value != "")
  }

  /** The position of the first occurrence of `n` in `t`. */
  function IndexOf(t: seq<string>, n: string): (i: nat)
    requires n in t
    ensures i < |t| && t[i] == n
    ensures forall j :: 0 <= j < i ==> t[j] != n
  {
    if t[0] == n then 0 else 1 + IndexOf(t[1..], n)
  }

  /** What `get_id` returns — the id, if any — together with the table after the call. */
  datatype Interned = Interned(id: Option<nat>, table: seq<string>)

  /** `get_id`: `INSERT OR IGNORE` the name, then `SELECT` its id.
      A name that is not internable yields no id and leaves the table alone.
      Otherwise the result is the id of the row now holding the name; the
      table grows by that one name if it was absent and is unchanged if it
      was present. The UNIQUE constraint on `name` is kept. */
  function GetId(v: Variant, t: seq<string>, name: Option<string>): (r: Interned)
    ensures !Internable(v, name) ==> r.id == None && r.table == t
    ensures Internable(v, name) ==>
      && r.id.Some? && 1 <= r.id.value <= |r.table|
      && r.table[r.id.value - 1] == name.value
      && r.table == (if name.value in t then t else t + [name.value])
    ensures Unique(t) ==> Unique(r.table)
  {
    if !Internable(v, name) then Interned(None, t)
    else
      var t' := if name.value in t then t else t + [name.value];
      Interned(Some(IndexOf(t', name.value) + 1), t')
  }

  /** After `get_id` the name is held by exactly one row, the returned one,
      and calling it again gives the same id and adds no row. */
  lemma GetIdIdempotent(v: Variant, t: seq<string>, name: Option<string>)
    requires Unique(t)
    ensures var r := GetId(v, t, name);
      && GetId(v, r.table, name) == r
      && (r.id.Some? ==> forall i :: 0 <= i < |r.table| && r.table[i] == name.value ==> i == r.id.value - 1)
  {
    var r := GetId(v, t, name);
    if Internable(v, name) {
      assert name.value in r.table;
      assert Unique(r.table);
    }
  }

  /** A name already in the table gets its existing id: the row whose name it is. */
  lemma GetIdExisting(v: Variant, t: seq<string>, name: string, k: nat)
    requires Unique(t) && k < |t| && t[k] == name && (v == Web || name != "")
    ensures GetId(v, t, Some(name)) == Interned(Some(k + 1), t)
  {
  }

  /** The desktop variant never interns the empty name; the web variant does. */
  lemma EmptyNameVariants(t: seq<string>)
    ensures GetId(Desktop, t, Some("")) == Interned(None, t)
    ensures GetId(Web, t, Some("")).id.Some? && "" in GetId(Web, t, Some("")).table
  {
  }

  /** The names of `names` that `get_id` interns, in order. */
  function InternableNames(v: Variant, names: seq<string>): (r: seq<string>)
    ensures forall n :: n in r <==> n in names && Internable(v, Some(n))
  {
    if |names| == 0 then []
    else (if Internable(v, Some(names[0])) then [names[0]] else []) + InternableNames(v, names[1..])
  }

  /** `get_id` called on each name in turn, keeping only the table. */
  function InternAll(v: Variant, t: seq<string>, names: seq<string>): (r: seq<string>)
    ensures Unique(t) ==> Unique(r)
    ensures |t| <= |r| && r[..|t|] == t
    decreases |names|
  {
    if |names| == 0 then t
    else InternAll(v, GetId(v, t, Some(names[0])).table, names[1..])
  }

  lemma ConcatAssoc<T>(a: seq<T>, b: seq<T>, c: seq<T>)
    ensures (a + b) + c == a + (b + c)
  {
  }

  lemma UniqueTail(names: seq<string>)
    requires |names| > 0 && Unique(names)
    ensures Unique(names[1..])
  {
    forall i, j | 0 <= i < j < |names[1..]| ensures names[1..][i] != names[1..][j] {
      assert names[1..][i] == names[i + 1] && names[1..][j] == names[j + 1];
    }
  }

  lemma UniqueTailOmitsHead(names: seq<string>, n: string)
    requires |names| > 0 && Unique(names) && n in names[1..]
    ensures n != names[0]
  {
    var j :| 0 <= j < |names[1..]| && names[1..][j] == n;
    assert names[j + 1] == n;
  }

  /** One step of `InternAllFresh`: after interning the first name the
      remaining names are still distinct and still absent from the table. */
  lemma FreshAfterFirst(v: Variant, t: seq<string>, names: seq<string>)
    requires |names| > 0 && Unique(names)
    requires forall n :: n in names ==> n !in t
    ensures Unique(names[1..])
    ensures forall n :: n in names[1..] ==> n !in GetId(v, t, Some(names[0])).table
  {
    UniqueTail(names);
    forall n | n in names[1..] ensures n !in GetId(v, t, Some(names[0])).table {
      UniqueTailOmitsHead(names, n);
    }
  }

  /** Interning distinct names none of which is in the table yet appends
      exactly the internable ones, in the order given: so ids follow that order. */
  lemma {:induction false} InternAllFresh(v: Variant, t: seq<string>, names: seq<string>)
    requires Unique(names)
    requires forall n :: n in names ==> n !in t
    ensures InternAll(v, t, names) == t + InternableNames(v, names)
    decreases |names|
  {
    if |names| == 0 {
      assert t + [] == t;
    } else {
      var n0 := names[0];
      var t' := GetId(v, t, Some(n0)).table;
      var rest := InternableNames(v, names[1..]);
      FreshAfterFirst(v, t, names);
      InternAllFresh(v, t', names[1..]);
      assert InternAll(v, t, names) == t' + rest;
      if Internable(v, Some(n0)) {
        assert t' == t + [n0];
        assert InternableNames(v, names) == [n0] + rest;
        ConcatAssoc(t, [n0], rest);
      } else {
        assert t' == t;
        assert InternableNames(v, names) == [] + rest == rest;
      }
    }
  }

  /** Dropping the names `get_id` rejects keeps a strictly sorted list strictly sorted. */
  lemma {:induction false} InternableNamesSorted(v: Variant, names: seq<string>)
    requires StrictlySorted(names)
    ensures StrictlySorted(InternableNames(v, names))
    decreases |names|
  {
    if |names| > 0 {
      assert StrictlySorted(names[1..]) by {
        forall i, j | 0 <= i < j < |names[1..]| ensures Less(names[1..][i], names[1..][j]) {
          assert names[1..][i] == names[i + 1] && names[1..][j] == names[j + 1];
        }
      }
      InternableNamesSorted(v, names[1..]);
      var rest := InternableNames(v, names[1..]);
      forall y | y in rest ensures Less(names[0], y) {
        var j :| 0 <= j < |names[1..]| && names[1..][j] == y;
        assert names[j + 1] == y;
      }
    }
  }
}
