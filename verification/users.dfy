/** The `usuarios` table created by `inicializar_db` and the four SQL
    statements the store issues against it (INSERT, SELECT ... fetchone,
    UPDATE ... SET, DELETE), with the schema's constraints enforced. */
module Users {
  import opened Text

  datatype Option<T> = None | Some(value: T)

  /** One row, in the schema's column order:
      (id, username, password, email, dni, rol). */
  datatype Row = Row(id: nat, username: string, password: string, email: string, dni: string, rol: string)

  /** The rows in rowid order, and the largest id ever handed out
      (AUTOINCREMENT's `sqlite_sequence` entry). */
  datatype Table = Table(rows: seq<Row>, seqId: nat)

  /** A statement's return value together with the table it leaves. */
  datatype Answer<R> = Answer(value: R, after: Table)

  /** The columns a WHERE clause compares. The id column is compared against
      the decimal text of the id. */
  datatype Column = Id | Username | Email | Dni

  /** The SET part of an UPDATE: the store only ever rewrites the password or
      the role column. */
  datatype Assignment = SetPassword(password: string) | SetRol(rol: string)

  function Cell(r: Row, c: Column): string {
    match c
    case Id => IdText(r.id)
    case Username => r.username
    case Email => r.email
    case Dni => r.dni
  }

  predicate UniqueOn(rows: seq<Row>, c: Column) {
    forall i, j :: 0 <= i < j < |rows| ==> Cell(rows[i], c) != Cell(rows[j], c)
  }

  /** Ids are positive, at most `seqId`, strictly increasing in row order, and
      the UNIQUE columns username, email and dni hold distinct values. */
  predicate WellFormed(rows: seq<Row>, seqId: nat) {
    && (forall i :: 0 <= i < |rows| ==> 1 <= rows[i].id <= seqId)
    && (forall i, j :: 0 <= i < j < |rows| ==> rows[i].id < rows[j].id)
    && UniqueOn(rows, Username) && UniqueOn(rows, Email) && UniqueOn(rows, Dni)
  }

  predicate Valid(t: Table) {
    WellFormed(t.rows, t.seqId)
  }

  /** `CREATE TABLE IF NOT EXISTS`: an existing table is kept as it is,
      otherwise the table starts empty. */
  function Initialize(existing: Option<Table>): (t: Table)
    requires existing.Some? ==> Valid(existing.value)
    ensures Valid(t)
    ensures existing.Some? ==> t == existing.value
    ensures existing.None? ==> |t.rows| == 0 && t.seqId == 0
  {
    if existing.Some? then existing.value else Table([], 0)
  }

  /** Running the initialisation again leaves the table as it was. */
  lemma InitializeIdempotent(existing: Option<Table>)
    requires existing.Some? ==> Valid(existing.value)
    ensures Initialize(Some(Initialize(existing))) == Initialize(existing)
  {
  }

  /** Ids are unique too, and so is their decimal text. */
  lemma {:induction false} IdsUnique(rows: seq<Row>, seqId: nat)
    requires WellFormed(rows, seqId)
    ensures UniqueOn(rows, Id)
  {
    forall i, j | 0 <= i < j < |rows|
      ensures Cell(rows[i], Id) != Cell(rows[j], Id)
    {
      if IdText(rows[i].id) == IdText(rows[j].id) {
        IdTextInjective(rows[i].id, rows[j].id);
      }
    }
  }

  /** Some row already holds this username, email or dni. */
  predicate Collides(rows: seq<Row>, username: string, email: string, dni: string) {
    exists i :: 0 <= i < |rows| &&
      (rows[i].username == username || rows[i].email == email || rows[i].dni == dni)
  }

  /** `INSERT INTO usuarios (...) VALUES (...)`: the row gets the next
      AUTOINCREMENT id; a row that would repeat a username, email or dni is
      refused as a whole (`sqlite3.IntegrityError`). */
  function Insert(t: Table, username: string, password: string, email: string, dni: string, rol: string): (a: Answer<bool>)
    requires Valid(t)
    ensures Valid(a.after)
    ensures a.value <==> !Collides(t.rows, username, email, dni)
    ensures a.value <==> WellFormed(t.rows + [Row(t.seqId + 1, username, password, email, dni, rol)], t.seqId + 1)
    ensures !a.value ==> a.after == t
    ensures a.value ==> && |a.after.rows| == |t.rows| + 1
                        && a.after.rows[..|t.rows|] == t.rows
                        && var n := a.after.rows[|t.rows|];
                           n.username == username && n.password == password && n.email == email
                           && n.dni == dni && n.rol == rol
                           && n.id == a.after.seqId == t.seqId + 1
                           && forall i :: 0 <= i < |t.rows| ==> t.rows[i].id < n.id
  {
    var n := Row(t.seqId + 1, username, password, email, dni, rol);
    var rows' := t.rows + [n];
    if Collides(t.rows, username, email, dni) then
      var i :| 0 <= i < |t.rows| && (t.rows[i].username == username || t.rows[i].email == email || t.rows[i].dni == dni);
      assert rows'[i] == t.rows[i] && rows'[|t.rows|] == n;
      Answer(false, t)
    else
      assert WellFormed(rows', t.seqId + 1);
      Answer(true, Table(rows', t.seqId + 1))
  }

  /** `SELECT ... WHERE c = key` followed by `fetchone()`: the first row in
      rowid order whose column equals the key. */
  function Select(rows: seq<Row>, c: Column, key: string): (r: Option<Row>)
    ensures r.Some? ==> r.value in rows && Cell(r.value, c) == key
    ensures r.None? <==> forall i :: 0 <= i < |rows| ==> Cell(rows[i], c) != key
  {
    if |rows| == 0 then None
    else if Cell(rows[0], c) == key then Some(rows[0])
    else Select(rows[1..], c, key)
  }

  /** On a UNIQUE column the row SELECT finds is the one row holding the key. */
  lemma {:induction false} SelectUnique(rows: seq<Row>, c: Column, key: string, k: nat)
    requires UniqueOn(rows, c)
    requires k < |rows| && Cell(rows[k], c) == key
    ensures Select(rows, c, key) == Some(rows[k])
  {
    if k > 0 {
      assert Cell(rows[0], c) != key;
      assert UniqueOn(rows[1..], c) by {
        forall i, j | 0 <= i < j < |rows[1..]|
          ensures Cell(rows[1..][i], c) != Cell(rows[1..][j], c)
        {
          assert rows[1..][i] == rows[i + 1] && rows[1..][j] == rows[j + 1];
        }
      }
      assert rows[1..][k - 1] == rows[k];
      SelectUnique(rows[1..], c, key, k - 1);
    }
  }

  function Assign(r: Row, a: Assignment): Row {
    match a
    case SetPassword(p) => r.(password := p)
    case SetRol(x) => r.(rol := x)
  }

  /** `UPDATE usuarios SET ... WHERE c = key`: every matching row receives the
      assignment, every other row is kept as it was, in place. */
  function Update(t: Table, c: Column, key: string, a: Assignment): (t': Table)
    requires Valid(t)
    ensures Valid(t')
    ensures t'.seqId == t.seqId && |t'.rows| == |t.rows|
    ensures forall i :: 0 <= i < |t.rows| && Cell(t.rows[i], c) != key ==> t'.rows[i] == t.rows[i]
    ensures forall i :: 0 <= i < |t.rows| && Cell(t.rows[i], c) == key ==> t'.rows[i] == Assign(t.rows[i], a)
  {
    var rows' := seq(|t.rows|, i requires 0 <= i < |t.rows| =>
      if Cell(t.rows[i], c) == key then Assign(t.rows[i], a) else t.rows[i]);
    assert forall i :: 0 <= i < |rows'| ==>
      (rows'[i].id == t.rows[i].id && rows'[i].username == t.rows[i].username
       && rows'[i].email == t.rows[i].email && rows'[i].dni == t.rows[i].dni);
    Table(rows', t.seqId)
  }

  /** How many rows hold the key in column `c`. */
  function Matches(rows: seq<Row>, c: Column, key: string): (n: nat)
    ensures n <= |rows|
    ensures n == 0 <==> forall i :: 0 <= i < |rows| ==> Cell(rows[i], c) != key
  {
    if |rows| == 0 then 0
    else (if Cell(rows[0], c) == key then 1 else 0) + Matches(rows[1..], c, key)
  }

  /** On a UNIQUE column a key that occurs at all occurs exactly once. */
  lemma {:induction false} MatchesUnique(rows: seq<Row>, c: Column, key: string, k: nat)
    requires UniqueOn(rows, c)
    requires k < |rows| && Cell(rows[k], c) == key
    ensures Matches(rows, c, key) == 1
  {
    assert UniqueOn(rows[1..], c) by {
      forall i, j | 0 <= i < j < |rows[1..]|
        ensures Cell(rows[1..][i], c) != Cell(rows[1..][j], c)
      {
        assert rows[1..][i] == rows[i + 1] && rows[1..][j] == rows[j + 1];
      }
    }
    if k == 0 {
      forall i | 0 <= i < |rows[1..]| ensures Cell(rows[1..][i], c) != key {
        assert rows[1..][i] == rows[i + 1];
      }
    } else {
      assert rows[1..][k - 1] == rows[k];
      MatchesUnique(rows[1..], c, key, k - 1);
    }
  }

  /** The rows a DELETE keeps: those whose column differs from the key, in
      their original order. */
  function Keep(rows: seq<Row>, c: Column, key: string): (r: seq<Row>)
    ensures |r| + Matches(rows, c, key) == |rows|
    ensures forall x :: x in r <==> x in rows && Cell(x, c) != key
  {
    if |rows| == 0 then []
    else
      var rest := Keep(rows[1..], c, key);
      assert rows == [rows[0]] + rows[1..];
      assert forall x :: x in rows <==> x == rows[0] || x in rows[1..];
      if Cell(rows[0], c) == key then rest else [rows[0]] + rest
  }

  lemma WellFormedTail(rows: seq<Row>, b: nat)
    requires |rows| > 0 && WellFormed(rows, b)
    ensures WellFormed(rows[1..], b)
    ensures forall x :: x in rows[1..] ==>
      (rows[0].id < x.id && rows[0].username != x.username && rows[0].email != x.email && rows[0].dni != x.dni)
  {
    forall i, j | 0 <= i < j < |rows[1..]|
      ensures rows[1..][i].id < rows[1..][j].id
      ensures Cell(rows[1..][i], Username) != Cell(rows[1..][j], Username)
      ensures Cell(rows[1..][i], Email) != Cell(rows[1..][j], Email)
      ensures Cell(rows[1..][i], Dni) != Cell(rows[1..][j], Dni)
    {
      assert rows[1..][i] == rows[i + 1] && rows[1..][j] == rows[j + 1];
    }
    forall x | x in rows[1..]
      ensures rows[0].id < x.id && rows[0].username != x.username
      ensures rows[0].email != x.email && rows[0].dni != x.dni
    {
      var m :| 0 <= m < |rows[1..]| && rows[1..][m] == x;
      assert rows[m + 1] == x;
      assert Cell(rows[0], Username) != Cell(rows[m + 1], Username);
      assert Cell(rows[0], Email) != Cell(rows[m + 1], Email);
      assert Cell(rows[0], Dni) != Cell(rows[m + 1], Dni);
    }
  }

  lemma WellFormedCons(x: Row, rows: seq<Row>, b: nat)
    requires WellFormed(rows, b) && 1 <= x.id <= b
    requires forall y :: y in rows ==>
      (x.id < y.id && x.username != y.username && x.email != y.email && x.dni != y.dni)
    ensures WellFormed([x] + rows, b)
  {
    var r := [x] + rows;
    forall i, j | 0 <= i < j < |r|
      ensures r[i].id < r[j].id
      ensures Cell(r[i], Username) != Cell(r[j], Username)
      ensures Cell(r[i], Email) != Cell(r[j], Email)
      ensures Cell(r[i], Dni) != Cell(r[j], Dni)
    {
      assert r[j] == rows[j - 1];
      if i > 0 {
        assert r[i] == rows[i - 1];
      } else {
        assert rows[j - 1] in rows;
      }
    }
  }

  /** Deleting rows never breaks the schema's constraints. */
  lemma {:induction false} KeepWellFormed(rows: seq<Row>, c: Column, key: string, b: nat)
    requires WellFormed(rows, b)
    ensures WellFormed(Keep(rows, c, key), b)
  {
    if |rows| > 0 {
      WellFormedTail(rows, b);
      KeepWellFormed(rows[1..], c, key, b);
      if Cell(rows[0], c) != key {
        WellFormedCons(rows[0], Keep(rows[1..], c, key), b);
      }
    }
  }

  /** `DELETE FROM usuarios WHERE c = key`, answering `cursor.rowcount`. The
      AUTOINCREMENT counter is not wound back. */
  function Delete(t: Table, c: Column, key: string): (a: Answer<nat>)
    requires Valid(t)
    ensures Valid(a.after) && a.after.seqId == t.seqId
    ensures forall x :: x in a.after.rows <==> x in t.rows && Cell(x, c) != key
    ensures a.value == Matches(t.rows, c, key) == |t.rows| - |a.after.rows|
  {
    var kept := Keep(t.rows, c, key);
    KeepWellFormed(t.rows, c, key, t.seqId);
    Answer(|t.rows| - |kept|, Table(kept, t.seqId))
  }

  /** A row with no match keeps the table exactly as it was. */
  lemma {:induction false} KeepNoMatch(rows: seq<Row>, c: Column, key: string)
    requires forall i :: 0 <= i < |rows| ==> Cell(rows[i], c) != key
    ensures Keep(rows, c, key) == rows
  {
    if |rows| > 0 {
      assert forall i :: 0 <= i < |rows[1..]| ==> Cell(rows[1..][i], c) != key by {
        forall i | 0 <= i < |rows[1..]| ensures Cell(rows[1..][i], c) != key {
          assert rows[1..][i] == rows[i + 1];
        }
      }
      KeepNoMatch(rows[1..], c, key);
      assert rows == [rows[0]] + rows[1..];
    }
  }
}
