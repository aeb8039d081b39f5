/** The normalising user store of `core/usuarios.py`: names, dnis and roles
    are trimmed, emails are trimmed and lower-cased, both on the way in and
    on lookup. Every empty-argument check is made on the raw argument. */
module Usuarios {
  import opened Text
  import opened Users

  /** A row of `obtener_usuarios`: every column except the password. */
  datatype Listing = Listing(id: nat, nombre: string, email: string, dni: string, rol: string)

  /** `agregar_usuario`: refuses an empty name, password, email or dni, then
      inserts the normalised row; the password is stored as given. */
  function AgregarUsuario(t: Table, nombre: string, password: string, email: string, dni: string, rol: string): (a: Answer<bool>)
    requires Valid(t)
    ensures Valid(a.after)
    ensures a.value <==> && nombre != "" && password != "" && email != "" && dni != ""
                         && !Collides(t.rows, Strip(nombre), NormEmail(email), Strip(dni))
    ensures !a.value ==> a.after == t
    ensures a.value ==> && |a.after.rows| == |t.rows| + 1
                        && a.after.rows[..|t.rows|] == t.rows
                        && var n := a.after.rows[|t.rows|];
                           n.username == Strip(nombre) && n.password == password
                           && n.email == NormEmail(email) && n.dni == Strip(dni) && n.rol == Strip(rol)
  {
    if nombre == "" || password == "" || email == "" || dni == "" then Answer(false, t)
    else Insert(t, Strip(nombre), password, NormEmail(email), Strip(dni), Strip(rol))
  }

  /** `obtener_usuarios`: one listing per row, in row order, never the
      password. */
  function ObtenerUsuarios(t: Table): (r: seq<Listing>)
    ensures |r| == |t.rows|
    ensures forall i :: 0 <= i < |r| ==>
      var x := t.rows[i];
      r[i].id == x.id && r[i].nombre == x.username && r[i].email == x.email && r[i].dni == x.dni && r[i].rol == x.rol
  {
    seq(|t.rows|, i requires 0 <= i < |t.rows| =>
      var x := t.rows[i]; Listing(x.id, x.username, x.email, x.dni, x.rol))
  }

  /** `obtener_usuario_por_dni`: an empty argument finds nothing; otherwise
      the row whose dni equals the trimmed argument. */
  function ObtenerUsuarioPorDni(t: Table, dni: string): (r: Option<Row>)
    ensures r.Some? ==> r.value in t.rows && r.value.dni == Strip(dni)
    ensures r.None? <==> dni == "" || forall i :: 0 <= i < |t.rows| ==> t.rows[i].dni != Strip(dni)
  {
    if dni == "" then None else Select(t.rows, Dni, Strip(dni))
  }

  /** `obtener_usuario_por_nombre`: trimmed, but case-sensitive. */
  function ObtenerUsuarioPorNombre(t: Table, nombre: string): (r: Option<Row>)
    ensures r.Some? ==> r.value in t.rows && r.value.username == Strip(nombre)
    ensures r.None? <==> nombre == "" || forall i :: 0 <= i < |t.rows| ==> t.rows[i].username != Strip(nombre)
  {
    if nombre == "" then None else Select(t.rows, Username, Strip(nombre))
  }

  /** `obtener_usuario_por_email`: the argument is trimmed and lower-cased
      before it is compared. */
  function ObtenerUsuarioPorEmail(t: Table, email: string): (r: Option<Row>)
    ensures r.Some? ==> r.value in t.rows && r.value.email == NormEmail(email)
    ensures r.None? <==> email == "" || forall i :: 0 <= i < |t.rows| ==> t.rows[i].email != NormEmail(email)
  {
    if email == "" then None else Select(t.rows, Email, NormEmail(email))
  }

  /** In a valid table each lookup finds the one row holding its key. Each
      conclusion rests on its own argument only: a row whose email was
      stored verbatim, and so is reached by no normalised email, is still
      found by its name and by its dni. */
  lemma LookupsFindTheRow(t: Table, k: nat, nombre: string, email: string, dni: string)
    requires Valid(t) && k < |t.rows|
    ensures nombre != "" && Strip(nombre) == t.rows[k].username ==>
      ObtenerUsuarioPorNombre(t, nombre) == Some(t.rows[k])
    ensures email != "" && NormEmail(email) == t.rows[k].email ==>
      ObtenerUsuarioPorEmail(t, email) == Some(t.rows[k])
    ensures dni != "" && Strip(dni) == t.rows[k].dni ==>
      ObtenerUsuarioPorDni(t, dni) == Some(t.rows[k])
  {
    if Strip(nombre) == t.rows[k].username {
      SelectUnique(t.rows, Username, Strip(nombre), k);
    }
    if NormEmail(email) == t.rows[k].email {
      SelectUnique(t.rows, Email, NormEmail(email), k);
    }
    if Strip(dni) == t.rows[k].dni {
      SelectUnique(t.rows, Dni, Strip(dni), k);
    }
  }

  /** The email lookup does not see letter case: two arguments whose trimmed
      forms differ only in the case of ASCII letters find the same row. */
  lemma EmailLookupIgnoresCase(t: Table, e1: string, e2: string)
    requires e1 != "" && e2 != ""
    requires |Strip(e1)| == |Strip(e2)|
    requires forall i :: 0 <= i < |Strip(e1)| ==> SameIgnoringCase(Strip(e1)[i], Strip(e2)[i])
    ensures ObtenerUsuarioPorEmail(t, e1) == ObtenerUsuarioPorEmail(t, e2)
  {
    NormEmailIgnoresCase(e1, e2);
  }

  lemma StripPaddedAlice()
    ensures Strip("  ALICE@X.COM ") == "ALICE@X.COM"
  {
    var s := "  ALICE@X.COM ";
    assert IsSpace(s[0]) && IsSpace(s[1]) && !IsSpace(s[2]);
    assert SkipSpaces(s, 0) == 2;
    assert IsSpace(s[13]) && !IsSpace(s[12]);
    assert DropTrailing(s, 2, 14) == 13;
    assert s[2..13] == "ALICE@X.COM";
  }

  lemma LowerAlice()
    ensures Lower("ALICE@X.COM") == "alice@x.com"
  {
  }

  /** Storing "alice" / "alice@x.com" / "111" in an empty table. */
  lemma AliceStored()
    ensures var a := AgregarUsuario(Table([], 0), "alice", "h", "alice@x.com", "111", "admin");
      a.value && |a.after.rows| == 1 && a.after.rows[0].username == "alice" && a.after.rows[0].email == "alice@x.com"
  {
    StripTrimmed("alice");
    StripTrimmed("alice@x.com");
    StripTrimmed("111");
    LowerOfLower("alice@x.com");
  }

  lemma PaddedUpperEmailFindsAlice(t: Table)
    requires Valid(t) && |t.rows| == 1 && t.rows[0].email == "alice@x.com"
    ensures ObtenerUsuarioPorEmail(t, "  ALICE@X.COM ") == Some(t.rows[0])
  {
    assert NormEmail("  ALICE@X.COM ") == "alice@x.com" by {
      StripPaddedAlice();
      LowerAlice();
    }
    SelectUnique(t.rows, Email, "alice@x.com", 0);
  }

  lemma UpperNameMissesAlice(t: Table)
    requires |t.rows| == 1 && t.rows[0].username == "alice"
    ensures ObtenerUsuarioPorNombre(t, "ALICE").None?
  {
    StripTrimmed("ALICE");
    assert "ALICE" != "alice";
  }

  /** The row stored from "alice@x.com" is found again from
      "  ALICE@X.COM ", while the name "ALICE" does not find the user
      stored as "alice". */
  lemma EmailLookupIgnoresCaseNameLookupDoesNot()
    ensures var t := AgregarUsuario(Table([], 0), "alice", "h", "alice@x.com", "111", "admin").after;
      && ObtenerUsuarioPorEmail(t, "  ALICE@X.COM ") == Some(t.rows[0])
      && ObtenerUsuarioPorNombre(t, "ALICE").None?
  {
    AliceStored();
    var t := AgregarUsuario(Table([], 0), "alice", "h", "alice@x.com", "111", "admin").after;
    PaddedUpperEmailFindsAlice(t);
    UpperNameMissesAlice(t);
  }

  /** `obtener_cantidad_usuarios`: `SELECT COUNT(*)`. */
  function ObtenerCantidadUsuarios(t: Table): (n: nat)
    ensures n == |ObtenerUsuarios(t)|
    ensures n == 0 <==> ObtenerUsuarios(t) == []
  {
    |t.rows|
  }

  /** The count moves with the store: an accepted insert adds exactly one, a
      refused one adds none, and the count always equals the number of
      listings. */
  lemma CountTracksInserts(t: Table, nombre: string, password: string, email: string, dni: string, rol: string)
    requires Valid(t)
    ensures var a := AgregarUsuario(t, nombre, password, email, dni, rol);
      ObtenerCantidadUsuarios(a.after) == ObtenerCantidadUsuarios(t) + (if a.value then 1 else 0)
    ensures ObtenerCantidadUsuarios(t) == |ObtenerUsuarios(t)|
  {
  }

  /** `eliminar_usuario`: an empty id fails; a DELETE that removes no row
      answers False; otherwise exactly the row with that id is gone. */
  function EliminarUsuario(t: Table, idUsuario: string): (a: Answer<bool>)
    requires Valid(t)
    ensures Valid(a.after)
    ensures a.value <==> idUsuario != "" && exists i :: 0 <= i < |t.rows| && IdText(t.rows[i].id) == idUsuario
    ensures !a.value ==> a.after == t
    ensures a.after.seqId == t.seqId
    ensures a.value ==> && |a.after.rows| == |t.rows| - 1
                        && forall x :: x in a.after.rows <==> x in t.rows && IdText(x.id) != idUsuario
  {
    if idUsuario == "" then Answer(false, t)
    else
      var d := Delete(t, Id, idUsuario);
      if d.value == 0 then Answer(false, t)
      else
        var k :| 0 <= k < |t.rows| && Cell(t.rows[k], Id) == idUsuario;
        IdsUnique(t.rows, t.seqId);
        MatchesUnique(t.rows, Id, idUsuario, k);
        Answer(true, d.after)
  }

  /** `actualizar_password`: both arguments must be non-empty and the
      normalised email must belong to a row; then only that row's password
      changes. */
  function ActualizarPassword(t: Table, email: string, nuevaPassword: string): (a: Answer<bool>)
    requires Valid(t)
    ensures Valid(a.after)
    ensures a.value <==> && email != "" && nuevaPassword != ""
                         && exists i :: 0 <= i < |t.rows| && t.rows[i].email == NormEmail(email)
    ensures !a.value ==> a.after == t
    ensures a.value ==> |a.after.rows| == |t.rows| && a.after.seqId == t.seqId
    ensures a.value ==> forall i :: 0 <= i < |t.rows| ==>
      if t.rows[i].email == NormEmail(email) then a.after.rows[i] == t.rows[i].(password := nuevaPassword)
      else a.after.rows[i] == t.rows[i]
  {
    if email == "" || nuevaPassword == "" then Answer(false, t)
    else
      var key := NormEmail(email);
      if Select(t.rows, Email, key).None? then Answer(false, t)
      else
        var t' := Update(t, Email, key, SetPassword(nuevaPassword));
        Answer(true, t')
  }

  /** `actualizar_rol_usuario` as written: the existence check looks the
      argument up as a dni, the UPDATE then matches it against the id. */
  function ActualizarRolUsuario(t: Table, idUsuario: string, nuevoRol: string): (a: Answer<bool>)
    requires Valid(t)
    ensures Valid(a.after)
    ensures a.value <==> && idUsuario != "" && nuevoRol != ""
                         && exists i :: 0 <= i < |t.rows| && t.rows[i].dni == Strip(idUsuario)
    ensures !a.value ==> a.after == t
    ensures a.value ==> |a.after.rows| == |t.rows| && a.after.seqId == t.seqId
    ensures a.value ==> forall i :: 0 <= i < |t.rows| ==>
      if IdText(t.rows[i].id) == idUsuario then a.after.rows[i] == t.rows[i].(rol := Strip(nuevoRol))
      else a.after.rows[i] == t.rows[i]
  {
    if idUsuario == "" || nuevoRol == "" then Answer(false, t)
    else if ObtenerUsuarioPorDni(t, idUsuario).None? then Answer(false, t)
    else Answer(true, Update(t, Id, idUsuario, SetRol(Strip(nuevoRol))))
  }

  /** The one-user table the counterexamples below start from. */
  function AliceTable(dni: string): (t: Table)
    ensures Valid(t) && |t.rows| == 1 && t.rows[0].id == 1 && t.rows[0].dni == dni
  {
    Table([Row(1, "alice", "h", "alice@x.com", dni, "cajero")], 1)
  }

  /** As written, asking to change the role of user 1 fails when user 1's
      dni is not "1": the row exists but the dni lookup misses it. */
  lemma RoleUpdateMissesExistingId()
    ensures ActualizarRolUsuario(AliceTable("111"), "1", "admin") == Answer(false, AliceTable("111"))
  {
    StripTrimmed("1");
  }

  /** As written, an argument that is some user's dni but no user's id
      answers True while no row changes. */
  lemma RoleUpdateReportsPhantomSuccess()
    ensures ActualizarRolUsuario(AliceTable("2"), "2", "admin") == Answer(true, AliceTable("2"))
  {
    StripTrimmed("2");
    var t := AliceTable("2");
    assert IdText(1) == "1" != "2";
    var u := Update(t, Id, "2", SetRol(Strip("admin")));
    assert u.rows[0] == t.rows[0];
    assert u.rows == t.rows;
  }

  /** The role update with its existence check made on the id it updates:
      it succeeds exactly when a row has that id, and then changes that
      row's role alone. */
  function ActualizarRolPorId(t: Table, idUsuario: string, nuevoRol: string): (a: Answer<bool>)
    requires Valid(t)
    ensures Valid(a.after)
    ensures a.value <==> && idUsuario != "" && nuevoRol != ""
                         && exists i :: 0 <= i < |t.rows| && IdText(t.rows[i].id) == idUsuario
    ensures !a.value ==> a.after == t
    ensures a.value ==> |a.after.rows| == |t.rows| && a.after.seqId == t.seqId
    ensures a.value ==> exists k ::
      (&& 0 <= k < |t.rows| && IdText(t.rows[k].id) == idUsuario
       && a.after.rows[k] == t.rows[k].(rol := Strip(nuevoRol))
       && forall i :: 0 <= i < |t.rows| && i != k ==> a.after.rows[i] == t.rows[i])
  {
    if idUsuario == "" || nuevoRol == "" then Answer(false, t)
    else if Select(t.rows, Id, idUsuario).None? then Answer(false, t)
    else
      var k :| 0 <= k < |t.rows| && Cell(t.rows[k], Id) == idUsuario;
      IdsUnique(t.rows, t.seqId);
      assert forall i :: 0 <= i < |t.rows| && i != k ==> Cell(t.rows[i], Id) != idUsuario by {
        forall i | 0 <= i < |t.rows| && i != k ensures Cell(t.rows[i], Id) != Cell(t.rows[k], Id) {
          assert i < k || k < i;
        }
      }
      var u := Update(t, Id, idUsuario, SetRol(Strip(nuevoRol)));
      assert u.rows[k] == t.rows[k].(rol := Strip(nuevoRol));
      Answer(true, u)
  }
}
