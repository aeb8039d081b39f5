/** The verbatim store of `core/database.py`: the same table, but every
    argument reaches SQL exactly as given (no trimming, no lower-casing, no
    empty-argument checks), and the UPDATE and DELETE answer True whether or
    not a row matched. */
module Database {
  import opened Text
  import opened Users
  import Usuarios

  /** `agregar_usuario`: the row is inserted with its arguments as given; only
      the UNIQUE constraints can refuse it. */
  function AgregarUsuario(t: Table, username: string, password: string, email: string, dni: string, rol: string): (a: Answer<bool>)
    requires Valid(t)
    ensures Valid(a.after)
    ensures a.value <==> !Collides(t.rows, username, email, dni)
    ensures !a.value ==> a.after == t
    ensures a.value ==> && |a.after.rows| == |t.rows| + 1
                        && a.after.rows[..|t.rows|] == t.rows
                        && var n := a.after.rows[|t.rows|];
                           n.username == username && n.password == password
                           && n.email == email && n.dni == dni && n.rol == rol
  {
    Insert(t, username, password, email, dni, rol)
  }

  /** `obtener_usuario_por_email`: exact comparison with the raw argument. */
  function ObtenerUsuarioPorEmail(t: Table, email: string): (r: Option<Row>)
    ensures r.Some? ==> r.value in t.rows && r.value.email == email
    ensures r.None? <==> forall i :: 0 <= i < |t.rows| ==> t.rows[i].email != email
  {
    Select(t.rows, Email, email)
  }

  /** `obtener_usuario_por_dni`: exact comparison with the raw argument. */
  function ObtenerUsuarioPorDni(t: Table, dni: string): (r: Option<Row>)
    ensures r.Some? ==> r.value in t.rows && r.value.dni == dni
    ensures r.None? <==> forall i :: 0 <= i < |t.rows| ==> t.rows[i].dni != dni
  {
    Select(t.rows, Dni, dni)
  }

  /** `obtener_usuario_por_username`: exact comparison with the raw argument. */
  function ObtenerUsuarioPorUsername(t: Table, username: string): (r: Option<Row>)
    ensures r.Some? ==> r.value in t.rows && r.value.username == username
    ensures r.None? <==> forall i :: 0 <= i < |t.rows| ==> t.rows[i].username != username
  {
    Select(t.rows, Username, username)
  }

  /** `actualizar_password`: the rows holding exactly this email get the new
      password, nothing else changes, and the answer is True even when no row
      matched. */
  function ActualizarPassword(t: Table, email: string, nuevaPassword: string): (a: Answer<bool>)
    requires Valid(t)
    ensures a.value
    ensures Valid(a.after) && a.after.seqId == t.seqId && |a.after.rows| == |t.rows|
    ensures forall i :: 0 <= i < |t.rows| ==>
      if t.rows[i].email == email then a.after.rows[i] == t.rows[i].(password := nuevaPassword)
      else a.after.rows[i] == t.rows[i]
  {
    Answer(true, Update(t, Email, email, SetPassword(nuevaPassword)))
  }

  /** When no row holds the email the update is a no-op, yet it answers
      True. */
  lemma PasswordUpdateOfUnknownEmail(t: Table, email: string, nuevaPassword: string)
    requires Valid(t)
    requires forall i :: 0 <= i < |t.rows| ==> t.rows[i].email != email
    ensures ActualizarPassword(t, email, nuevaPassword) == Answer(true, t)
  {
    var a := ActualizarPassword(t, email, nuevaPassword);
    assert a.after.rows == t.rows;
  }

  /** `eliminar_usuario`: deletes by username, keeps every row with another
      username, and answers True even when nothing was deleted. */
  function EliminarUsuario(t: Table, username: string): (a: Answer<bool>)
    requires Valid(t)
    ensures a.value
    ensures Valid(a.after)
    ensures forall x :: x in a.after.rows <==> x in t.rows && x.username != username
    ensures |a.after.rows| == |t.rows| - (if exists i :: 0 <= i < |t.rows| && t.rows[i].username == username then 1 else 0)
    ensures a.after.seqId == t.seqId
  {
    var d := Delete(t, Username, username);
    if exists i :: 0 <= i < |t.rows| && t.rows[i].username == username then
      var k :| 0 <= k < |t.rows| && t.rows[k].username == username;
      MatchesUnique(t.rows, Username, username, k);
      Answer(true, d.after)
    else
      Answer(true, d.after)
  }

  /** After deleting a username, looking it up finds nothing. */
  lemma DeletedUsernameIsGone(t: Table, username: string)
    requires Valid(t)
    ensures ObtenerUsuarioPorUsername(EliminarUsuario(t, username).after, username).None?
  {
    var rows := EliminarUsuario(t, username).after.rows;
    forall i | 0 <= i < |rows| ensures rows[i].username != username {
      assert rows[i] in rows;
    }
  }

  /** Deleting a username that no row holds leaves the table as it was. */
  lemma DeleteOfUnknownUsername(t: Table, username: string)
    requires Valid(t)
    requires forall i :: 0 <= i < |t.rows| ==> t.rows[i].username != username
    ensures EliminarUsuario(t, username) == Answer(true, t)
  {
    KeepNoMatch(t.rows, Username, username);
  }

  /** A row this variant stores with an upper-case email cannot be reached by
      the normalising lookup of `core/usuarios.py` with that same email: the
      normalised key has no upper-case letter. */
  lemma VerbatimEmailMissedByNormalisedLookup(t: Table, username: string, password: string, email: string, dni: string, rol: string)
    requires Valid(t)
    requires exists i :: 0 <= i < |email| && IsUpper(email[i])
    ensures var a := AgregarUsuario(t, username, password, email, dni, rol);
      a.value ==> Usuarios.ObtenerUsuarioPorEmail(a.after, email) != Some(a.after.rows[|t.rows|])
  {
    var k :| 0 <= k < |email| && IsUpper(email[k]);
    assert NormEmail(email) != email by {
      assert IsUpper(email[k]);
    }
  }
}
