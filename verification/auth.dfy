/** Login and registration policy of `core/auth.py`, on top of the
    normalising store of `core/usuarios.py`. Password hashing is an opaque
    collaborator passed in as a `Hasher`; the fresh random salt of each
    registration is an argument. */
module Auth {
  import opened Text
  import opened Users
  import Usuarios

  /** werkzeug's `generate_password_hash(password, method='pbkdf2:sha256',
      salt_length=16)` as `generate(salt, password)`, and
      `check_password_hash(digest, password)` as `check(digest, password)`. */
  datatype Hasher = Hasher(generate: (string, string) -> string, check: (string, string) -> bool)

  /** All the login and registration rules rely on: a digest is never empty
      and it verifies against the password it was made from. */
  ghost predicate Sound(h: Hasher) {
    forall salt, p :: |h.generate(salt, p)| > 0 && h.check(h.generate(salt, p), p)
  }

  /** What a successful login hands back: username, email, dni and role,
      never the stored digest. */
  datatype UserView = UserView(username: string, email: string, dni: string, rol: string)

  function View(r: Row): UserView {
    UserView(r.username, r.email, r.dni, r.rol)
  }

  /** The row a login identifier designates: the row whose email is the
      normalised identifier if there is one, otherwise the row whose username
      is the trimmed identifier. */
  function Resolve(t: Table, entrada: string): (r: Option<Row>)
    ensures r.Some? ==>
      (r.value in t.rows && (r.value.email == NormEmail(entrada) || r.value.username == Strip(entrada)))
    ensures r.None? <==>
      (|| entrada == ""
       || forall i :: 0 <= i < |t.rows| ==> t.rows[i].email != NormEmail(entrada) && t.rows[i].username != Strip(entrada))
    ensures entrada != "" && (exists i :: 0 <= i < |t.rows| && t.rows[i].email == NormEmail(entrada)) ==>
      r.Some? && r.value.email == NormEmail(entrada)
  {
    var byEmail := Usuarios.ObtenerUsuarioPorEmail(t, entrada);
    if byEmail.Some? then byEmail else Usuarios.ObtenerUsuarioPorNombre(t, entrada)
  }

  /** `autenticar_usuario`: the designated row's digest is checked against
      the password; a missing row and a wrong password give the same None.
      The table is only read. */
  function AutenticarUsuario(t: Table, h: Hasher, entrada: string, password: string): (r: Option<UserView>)
    ensures r.Some? ==> exists i ::
      (&& 0 <= i < |t.rows| && r.value == View(t.rows[i])
       && h.check(t.rows[i].password, password)
       && (t.rows[i].email == NormEmail(entrada) || t.rows[i].username == Strip(entrada)))
    ensures entrada == "" ==> r.None?
    ensures (forall i :: 0 <= i < |t.rows| ==> t.rows[i].email != NormEmail(entrada) && t.rows[i].username != Strip(entrada))
      ==> r.None?
  {
    match Resolve(t, entrada)
    case None => None
    case Some(u) =>
      assert exists i :: 0 <= i < |t.rows| && t.rows[i] == u;
      if h.check(u.password, password) then Some(View(u)) else None
  }

  /** When the identifier is some row's email, that row alone decides the
      login, even if another row has the identifier as its username. */
  lemma LoginByEmailFirst(t: Table, h: Hasher, entrada: string, password: string, k: nat)
    requires Valid(t) && k < |t.rows|
    requires entrada != "" && t.rows[k].email == NormEmail(entrada)
    ensures AutenticarUsuario(t, h, entrada, password)
         == if h.check(t.rows[k].password, password) then Some(View(t.rows[k])) else None
  {
    SelectUnique(t.rows, Email, NormEmail(entrada), k);
  }

  /** Only when no row has the identifier as its email does the username
      decide. */
  lemma LoginFallsBackToUsername(t: Table, h: Hasher, entrada: string, password: string, k: nat)
    requires Valid(t) && k < |t.rows|
    requires entrada != "" && t.rows[k].username == Strip(entrada)
    requires forall i :: 0 <= i < |t.rows| ==> t.rows[i].email != NormEmail(entrada)
    ensures AutenticarUsuario(t, h, entrada, password)
         == if h.check(t.rows[k].password, password) then Some(View(t.rows[k])) else None
  {
    SelectUnique(t.rows, Username, Strip(entrada), k);
  }

  /** The one message for every refused registration. It is written as two
      literals only because the verifier reads single characters out of
      short literals, and `SuccessMessage` needs its first character. */
  const DuplicateMessage: string := "El nombre de usuario, " + "el email o el DNI ya existen."

  const SuccessPrefix: string := "Usuario registrado exitosamente como "

  /** The success message embeds the role; it never equals the refusal
      message, so a caller can tell the two apart. */
  function SuccessMessage(rol: string): (m: string)
    ensures m != DuplicateMessage
    ensures |m| == |SuccessPrefix| + |rol| + 1
    ensures m[..|SuccessPrefix|] == SuccessPrefix && m[|SuccessPrefix|..|m| - 1] == rol && m[|m| - 1] == '.'
  {
    var m := SuccessPrefix + rol + ".";
    assert SuccessPrefix[0] == 'U';
    assert DuplicateMessage[0] == 'E';
    assert m[0] == SuccessPrefix[0];
    m
  }

  /** The role a registration asks the store for: the very first user is
      made admin whatever was requested; later users get the requested role,
      or "cajero" when none was given. No check is made on its value. */
  function AssignedRole(count: nat, rol: Option<string>): (r: string)
    ensures count == 0 ==> r == "admin"
    ensures count > 0 ==> r == (if rol.Some? then rol.value else "cajero")
  {
    if count == 0 then "admin" else if rol.Some? then rol.value else "cajero"
  }

  /** `registrar_usuario`: counts the users, picks the role, hashes the
      password with a fresh salt, and hands the digest (never the password)
      to the store. The store's refusal, for whatever reason, becomes one
      fixed message and leaves the table unchanged. */
  function RegistrarUsuario(t: Table, h: Hasher, salt: string,
                            username: string, password: string, email: string, dni: string,
                            rol: Option<string>): (a: Answer<string>)
    requires Valid(t)
    ensures Valid(a.after)
    ensures a.value == DuplicateMessage <==> a.after == t
    ensures a.value != DuplicateMessage ==> a.value == SuccessMessage(AssignedRole(|t.rows|, rol))
    ensures a.after != t ==> && |a.after.rows| == |t.rows| + 1
                             && a.after.rows[..|t.rows|] == t.rows
                             && var n := a.after.rows[|t.rows|];
                                n.username == Strip(username) && n.password == h.generate(salt, password)
                                && n.email == NormEmail(email) && n.dni == Strip(dni)
                                && n.rol == Strip(AssignedRole(|t.rows|, rol))
  {
    var cantidad := Usuarios.ObtenerCantidadUsuarios(t);
    var role := AssignedRole(cantidad, rol);
    var digest := h.generate(salt, password);
    var ins := Usuarios.AgregarUsuario(t, username, digest, email, dni, role);
    if ins.value then
      assert |ins.after.rows| != |t.rows|;
      Answer(SuccessMessage(role), ins.after)
    else Answer(DuplicateMessage, t)
  }

  /** With a sound hasher, registration succeeds exactly when username, email
      and dni are non-empty and their normalised forms are new. The password
      itself is never checked: an empty one is accepted, since only its
      non-empty digest reaches the store. */
  lemma RegistrationSucceedsIff(t: Table, h: Hasher, salt: string,
                                username: string, password: string, email: string, dni: string,
                                rol: Option<string>)
    requires Valid(t) && Sound(h)
    ensures RegistrarUsuario(t, h, salt, username, password, email, dni, rol).after != t
        <==> && username != "" && email != "" && dni != ""
             && !Collides(t.rows, Strip(username), NormEmail(email), Strip(dni))
  {
    assert |h.generate(salt, password)| > 0;
  }

  /** The first user of an empty store is made admin, whatever role was
      asked for, and the message says so. */
  lemma FirstUserIsAdmin(t: Table, h: Hasher, salt: string,
                         username: string, password: string, email: string, dni: string,
                         rol: Option<string>)
    requires Valid(t) && |t.rows| == 0
    ensures var a := RegistrarUsuario(t, h, salt, username, password, email, dni, rol);
      a.after != t ==> a.after.rows[0].rol == "admin" && a.value == SuccessMessage("admin")
  {
    StripTrimmed("admin");
  }

  /** Once the store has users, the requested role is stored (trimmed), or
      "cajero" when none was given, and the message repeats it as given. */
  lemma LaterUserGetsRequestedRole(t: Table, h: Hasher, salt: string,
                                   username: string, password: string, email: string, dni: string,
                                   rol: Option<string>)
    requires Valid(t) && |t.rows| > 0
    ensures var a := RegistrarUsuario(t, h, salt, username, password, email, dni, rol);
      var asked := if rol.Some? then rol.value else "cajero";
      a.after != t ==> a.after.rows[|t.rows|].rol == Strip(asked) && a.value == SuccessMessage(asked)
  {
  }

  /** A registration that repeats a stored username, email or dni (after
      normalisation), or leaves one of them empty, gets the single fixed
      message and changes nothing. */
  lemma RefusedRegistration(t: Table, h: Hasher, salt: string,
                            username: string, password: string, email: string, dni: string,
                            rol: Option<string>)
    requires Valid(t)
    requires || username == "" || email == "" || dni == ""
             || Collides(t.rows, Strip(username), NormEmail(email), Strip(dni))
    ensures RegistrarUsuario(t, h, salt, username, password, email, dni, rol) == Answer(DuplicateMessage, t)
  {
  }

  /** After a successful registration, logging in with the same password and
      any spelling of the email that normalises to the stored one succeeds
      and shows the stored role. */
  lemma RegisterThenLoginByEmail(t: Table, h: Hasher, salt: string,
                                 username: string, password: string, email: string, dni: string,
                                 rol: Option<string>, entrada: string)
    requires Valid(t) && Sound(h)
    requires RegistrarUsuario(t, h, salt, username, password, email, dni, rol).after != t
    requires entrada != "" && NormEmail(entrada) == NormEmail(email)
    ensures var t' := RegistrarUsuario(t, h, salt, username, password, email, dni, rol).after;
      AutenticarUsuario(t', h, entrada, password)
        == Some(UserView(Strip(username), NormEmail(email), Strip(dni), Strip(AssignedRole(|t.rows|, rol))))
  {
    var t' := RegistrarUsuario(t, h, salt, username, password, email, dni, rol).after;
    assert h.check(h.generate(salt, password), password);
    LoginByEmailFirst(t', h, entrada, password, |t.rows|);
  }

  /** Logging in by the username works too, as long as no stored email
      equals the normalised username (an email match would be tried first). */
  lemma RegisterThenLoginByUsername(t: Table, h: Hasher, salt: string,
                                    username: string, password: string, email: string, dni: string,
                                    rol: Option<string>)
    requires Valid(t) && Sound(h)
    requires RegistrarUsuario(t, h, salt, username, password, email, dni, rol).after != t
    requires var t' := RegistrarUsuario(t, h, salt, username, password, email, dni, rol).after;
      forall i :: 0 <= i < |t'.rows| ==> t'.rows[i].email != NormEmail(username)
    ensures var t' := RegistrarUsuario(t, h, salt, username, password, email, dni, rol).after;
      AutenticarUsuario(t', h, username, password)
        == Some(UserView(Strip(username), NormEmail(email), Strip(dni), Strip(AssignedRole(|t.rows|, rol))))
  {
    var t' := RegistrarUsuario(t, h, salt, username, password, email, dni, rol).after;
    assert h.check(h.generate(salt, password), password);
    LoginFallsBackToUsername(t', h, username, password, |t.rows|);
  }

  /** The first registration into an empty store, spelled out row by row. */
  lemma FirstRegistration(h: Hasher, s1: string, u1: string, p1: string, e1: string, d1: string, rol1: Option<string>)
    requires Sound(h) && u1 != "" && e1 != "" && d1 != ""
    ensures var r1 := RegistrarUsuario(Table([], 0), h, s1, u1, p1, e1, d1, rol1);
      && r1.value == SuccessMessage("admin") && Valid(r1.after) && |r1.after.rows| == 1
      && r1.after.rows[0] == Row(r1.after.rows[0].id, Strip(u1), h.generate(s1, p1), NormEmail(e1), Strip(d1), "admin")
  {
    var t0 := Table([], 0);
    RegistrationSucceedsIff(t0, h, s1, u1, p1, e1, d1, rol1);
    FirstUserIsAdmin(t0, h, s1, u1, p1, e1, d1, rol1);
  }

  /** A second registration whose normalised fields differ from the first
      user's, spelled out row by row. */
  lemma SecondRegistration(t: Table, h: Hasher, s2: string, u2: string, p2: string, e2: string, d2: string, rol2: Option<string>)
    requires Valid(t) && Sound(h) && |t.rows| == 1 && u2 != "" && e2 != "" && d2 != ""
    requires t.rows[0].username != Strip(u2) && t.rows[0].email != NormEmail(e2) && t.rows[0].dni != Strip(d2)
    ensures var r2 := RegistrarUsuario(t, h, s2, u2, p2, e2, d2, rol2);
      var asked := if rol2.Some? then rol2.value else "cajero";
      && r2.value == SuccessMessage(asked) && Valid(r2.after) && |r2.after.rows| == 2
      && r2.after.rows[0] == t.rows[0]
      && r2.after.rows[1] == Row(r2.after.rows[1].id, Strip(u2), h.generate(s2, p2), NormEmail(e2), Strip(d2), Strip(asked))
  {
    RegistrationSucceedsIff(t, h, s2, u2, p2, e2, d2, rol2);
    LaterUserGetsRequestedRole(t, h, s2, u2, p2, e2, d2, rol2);
    var r2 := RegistrarUsuario(t, h, s2, u2, p2, e2, d2, rol2);
    assert r2.after.rows[0] == r2.after.rows[..1][0];
  }

  /** In a two-user store, the first logs in through its email and the
      second, reached through its username, is refused a wrong password. */
  lemma TwoUserLogins(t: Table, h: Hasher, entrada: string, p1: string, u2: string, wrong: string)
    requires Valid(t) && |t.rows| == 2
    requires entrada != "" && t.rows[0].email == NormEmail(entrada) && h.check(t.rows[0].password, p1)
    requires u2 != "" && t.rows[1].username == Strip(u2) && !h.check(t.rows[1].password, wrong)
    requires t.rows[0].email != NormEmail(u2) && t.rows[1].email != NormEmail(u2)
    ensures AutenticarUsuario(t, h, entrada, p1) == Some(View(t.rows[0]))
    ensures AutenticarUsuario(t, h, u2, wrong).None?
  {
    LoginByEmailFirst(t, h, entrada, p1, 0);
    LoginFallsBackToUsername(t, h, u2, wrong, 1);
  }

  /** Registration followed by login, for any two users whose
      normalised username, email and dni differ: the first becomes admin
      whatever role was asked for, the second gets the requested role or
      "cajero"; the first then logs in with any spelling of the email, and
      the second is refused a wrong password. */
  lemma RegistrationAndLoginScenario(
      h: Hasher, s1: string, s2: string,
      u1: string, p1: string, e1: string, d1: string, rol1: Option<string>,
      u2: string, p2: string, e2: string, d2: string, rol2: Option<string>,
      entrada: string, wrong: string)
    requires Sound(h) && !h.check(h.generate(s2, p2), wrong)
    requires u1 != "" && e1 != "" && d1 != "" && u2 != "" && e2 != "" && d2 != ""
    requires Strip(u1) != Strip(u2) && NormEmail(e1) != NormEmail(e2) && Strip(d1) != Strip(d2)
    requires entrada != "" && NormEmail(entrada) == NormEmail(e1)
    requires NormEmail(u2) != NormEmail(e1) && NormEmail(u2) != NormEmail(e2)
    ensures var r1 := RegistrarUsuario(Table([], 0), h, s1, u1, p1, e1, d1, rol1);
      var r2 := RegistrarUsuario(r1.after, h, s2, u2, p2, e2, d2, rol2);
      && r1.value == SuccessMessage("admin")
      && r2.value == SuccessMessage(if rol2.Some? then rol2.value else "cajero")
      && AutenticarUsuario(r2.after, h, entrada, p1) == Some(UserView(Strip(u1), NormEmail(e1), Strip(d1), "admin"))
      && AutenticarUsuario(r2.after, h, u2, wrong).None?
  {
    FirstRegistration(h, s1, u1, p1, e1, d1, rol1);
    var t1 := RegistrarUsuario(Table([], 0), h, s1, u1, p1, e1, d1, rol1).after;
    SecondRegistration(t1, h, s2, u2, p2, e2, d2, rol2);
    var t2 := RegistrarUsuario(t1, h, s2, u2, p2, e2, d2, rol2).after;
    TwoUserLogins(t2, h, entrada, p1, u2, wrong);
  }
}
