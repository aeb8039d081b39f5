# ordico2 user store, login and registration, in Dafny

This project models the credential core of the ordico2 point-of-sale
application:

- the `usuarios` table created by `core/database.py`;
- the normalising store of `core/usuarios.py`, which trims names, dnis and
  roles and trims and lower-cases emails on the way in and on lookup;
- the verbatim variants in `core/database.py`, which pass every argument to
  SQL as given;
- the login and registration policy of `core/auth.py`;
- the email-format check `validar_email` of `utils/validators.py`, which is
  copied unchanged in `utils.py`.

The database is an immutable value. `Users.Table` holds the rows in rowid
order and the AUTOINCREMENT counter. Every operation that writes to the
table is a pure function that returns its answer together with the table
it leaves (`Users.Answer`). Lookups, listings, the count and login take
the table and return only their answer. The schema's constraints make up the invariant
`Users.Valid`:

- ids are positive, increasing and never reused;
- username, email and dni are each unique.

Every operation that changes the table is proved to preserve that
invariant.

The four SQL statements the store issues are modelled once, in module
`Users`: INSERT (all or nothing under the UNIQUE constraints), SELECT with
`fetchone`, UPDATE, and DELETE with `rowcount`. The two stores, `Usuarios`
and `Database`, are written on top of them.

Password hashing is the opaque `Auth.Hasher`. Its two function fields stand
for werkzeug's `generate_password_hash` and `check_password_hash`. The
random salt of each registration is an ordinary argument. `Auth.Sound`
states the only fact the policy relies on: a digest is never empty and it
verifies against the password it was made from.

The user-management window passes row ids to the store as text (taken from
a table cell). The model therefore compares the `id` column against the
decimal text of the id, `Text.IdText`. It proves that this text spells the
id in decimal with no leading zero, as `str()` does, and that it is
injective.

Some behaviours of the code may surprise a reader. The model keeps them as the code has them.

- A registration with an empty username, email or dni gets the same
  "already exists" message as a duplicate. `core/usuarios.py:10-12` answers
  False for both, and `core/auth.py:48-53` cannot tell the two apart.
- The role is never checked against a fixed set of roles. Any string
  reaches the table (`core/auth.py:36-48`, `core/usuarios.py:147`).
- `core/auth.py:2` imports `obtener_usuario_por_nombre` and
  `obtener_cantidad_usuarios` from `core/database.py`, which defines
  neither. Only `core/usuarios.py` defines them, and `core/usuarios.py:3`
  in turn imports `conectar_db`, which `core/database.py` does not define
  (it defines `conectar`). The model reads the login and registration
  policy as written against the normalising store of `core/usuarios.py`.
  `Auth` therefore calls `Usuarios`. This is a chosen resolution: the other
  two names imported there, `obtener_usuario_por_email` and
  `agregar_usuario`, do exist in `core/database.py` (lines 40 and 60), as
  the verbatim versions. Bound literally to those, registration would store
  the email as typed and login would compare it as typed, so a user
  registered as "alice@x.com" could not log in as "  ALICE@X.COM ", which
  the model proves possible.
- `core/usuarios.py` names the username column `nombre`, while the schema
  at `core/database.py:26` calls it `username`. The model has one column,
  `username`.

The `validar_email` pattern `^[a-z0-9]+[\._]?[a-z0-9]+[@]\w+[.]\w+$` is
modelled twice:

- `EmailFormat.RegexMatch` reads it piece by piece, including Python's `$`,
  which also matches just before a final newline.
- `EmailFormat.ValidarEmail` is a recogniser: it splits at the first '@'
  and checks each side.

The contract of `EmailFormat.ValidarEmail` states that the two accept the
same strings. The copy in `utils.py` has the same pattern text, so the same
predicate models it.

## Model

| member | source | states |
|---|---|---|
| Users.Initialize | core/database.py:17-38 | Creating the table keeps an existing valid table unchanged. Otherwise it starts empty, with the AUTOINCREMENT counter at zero. Either way the schema's constraints hold. |
| Users.InitializeIdempotent | core/database.py:24 | Running `CREATE TABLE IF NOT EXISTS` a second time changes nothing. |
| Users.IdsUnique | core/database.py:25 | AUTOINCREMENT ids are unique in a valid table. So is their decimal text, the form the GUI hands back. |
| Users.Insert | core/database.py:24-31 | An insert succeeds exactly when no row already holds the username, email or dni. Equivalently, it succeeds exactly when the extended table still meets the constraints. A refused insert changes nothing. An accepted one appends exactly the given row, with an id above every earlier id. |
| Users.Select | core/usuarios.py:51-52 | `fetchone` returns a row of the table holding the key. It returns nothing exactly when no row holds the key. |
| Users.SelectUnique | core/database.py:26-29 | On a UNIQUE column, the row found is the one row holding the key. |
| Users.Update | core/usuarios.py:125 | An UPDATE rewrites exactly the matching rows, in place. Every other row is untouched, and the constraints still hold. |
| Users.Matches | core/usuarios.py:101 | The count of matching rows is zero exactly when no row matches. |
| Users.MatchesUnique | core/database.py:26-29 | On a UNIQUE column, a key that occurs at all occurs exactly once. |
| Users.Keep | core/usuarios.py:100 | DELETE keeps exactly the rows whose column differs from the key. Kept rows plus deleted rows make up the original count. |
| Users.KeepWellFormed | core/database.py:24-31 | Deleting rows never breaks the constraints. |
| Users.Delete | core/usuarios.py:100-101 | `rowcount` equals both the number of matching rows and the number of rows that disappear. The id counter is not wound back. |
| Users.KeepNoMatch | core/database.py:122 | Deleting a key no row holds leaves the rows exactly as they were. |
| Text.Strip | core/usuarios.py:20 | `strip()` leaves no whitespace at either end. It removes only whitespace, and only from the two ends. |
| Text.StripTrimmed | core/usuarios.py:20 | A string with no whitespace at its ends is its own strip. |
| Text.StripIdempotent | core/usuarios.py:51 | Stripping a stored (already stripped) value again changes nothing. |
| Text.Lower | core/usuarios.py:20 | `lower()` keeps the length and leaves no upper-case letter. A character changes exactly when it was upper case, and an upper-case letter becomes the same letter in lower case. Whitespace stays whitespace. |
| Text.LowerIgnoresCase | core/usuarios.py:20 | Two strings of the same length whose characters agree up to ASCII letter case lower to the same string. |
| Text.NormEmailIgnoresCase | core/usuarios.py:85 | Two emails whose stripped forms agree up to letter case normalise to the same stored email. |
| Text.LowerOfLower | core/usuarios.py:85 | A string with no upper-case letter is unchanged by `lower()`. |
| Text.NormEmail | core/usuarios.py:85 | The normalised email has no whitespace at its ends and no upper-case letter. |
| Text.NormEmailIdempotent | core/usuarios.py:20 | Normalising a stored email again gives the stored email, so a row is found again by its own email. |
| Text.IdText | core/usuarios.py:100 | An id's text is a non-empty string of digits, one digit exactly for ids below ten. |
| Text.IdTextIsDecimal | gui/user_management_window.py:93 | The text `str(id)` that the window shows and hands back spells the id: its decimal value, read most significant digit first, is the id, and it has no leading zero. |
| Text.IdTextInjective | core/usuarios.py:100 | Two ids with the same text are the same id. |
| Usuarios.AgregarUsuario | core/usuarios.py:8-29 | An insert succeeds exactly when name, password, email and dni are non-empty as given and their normalised forms collide with no row. A failure leaves the table. A success appends the trimmed name, dni and role, the normalised email and the password as given. |
| Usuarios.ObtenerUsuarios | core/usuarios.py:31-40 | One listing per row, in row order, with id, name, email, dni and role and never the password. |
| Usuarios.ObtenerUsuarioPorDni | core/usuarios.py:42-55 | An empty dni finds nothing. Otherwise the result is a row whose dni is the trimmed argument. It is None exactly when no row has that dni. |
| Usuarios.ObtenerUsuarioPorNombre | core/usuarios.py:57-70 | An empty name finds nothing. Otherwise the result is a row whose name is the trimmed argument, compared case-sensitively. It is None exactly when no row has that name. |
| Usuarios.ObtenerUsuarioPorEmail | core/usuarios.py:72-89 | An empty email finds nothing. Otherwise the result is a row whose email is the trimmed, lower-cased argument. It is None exactly when no row has it. |
| Usuarios.LookupsFindTheRow | core/usuarios.py:42-89 | In a valid table, each of the three lookups returns the one row holding its normalised key. Each conclusion needs only its own argument to be non-empty and to normalise to that row's value. |
| Usuarios.EmailLookupIgnoresCase | core/usuarios.py:72-89 | Two non-empty email arguments whose trimmed forms differ only in letter case find the same row, or both find none. |
| Usuarios.EmailLookupIgnoresCaseNameLookupDoesNot | core/usuarios.py:85 | The user stored from "alice@x.com" is found from "  ALICE@X.COM ". The name "ALICE" does not find the user stored as "alice". |
| Usuarios.ObtenerCantidadUsuarios | core/usuarios.py:155-165 | The count equals the number of users listed, and it is zero exactly when the listing is empty. |
| Usuarios.CountTracksInserts | core/usuarios.py:155-165 | The count grows by one on an accepted insert and by none on a refused one. It always equals the number of listed users. |
| Usuarios.EliminarUsuario | core/usuarios.py:91-109 | Deletion by id text succeeds exactly when the text is non-empty and is some row's id. Then exactly that row is gone. Otherwise nothing changes. The AUTOINCREMENT counter is never lowered, so a deleted id is not reused. |
| Usuarios.ActualizarPassword | core/usuarios.py:111-131 | The update succeeds exactly when both arguments are non-empty and a row holds the normalised email. Then that row's password alone changes. Otherwise nothing changes. |
| Usuarios.ActualizarRolUsuario | core/usuarios.py:133-153 | As written: the answer is True exactly when both arguments are non-empty and some row's dni is the trimmed argument. The role changes on the rows whose id text is the argument. |
| Usuarios.RoleUpdateMissesExistingId | core/usuarios.py:139-147 | As written, changing the role of user 1, whose dni is "111", answers False and changes nothing. |
| Usuarios.RoleUpdateReportsPhantomSuccess | core/usuarios.py:139-147 | As written, an argument that is a dni but no id answers True while no row changes. |
| Usuarios.ActualizarRolPorId | core/usuarios.py:133-153 | Corrected: the update succeeds exactly when both arguments are non-empty and some row has that id. Then exactly that row's role becomes the trimmed new role. |
| Database.AgregarUsuario | core/database.py:40-58 | The verbatim insert succeeds exactly when the raw username, email and dni collide with no row. It stores them unchanged. A refusal leaves the table. |
| Database.ObtenerUsuarioPorEmail | core/database.py:60-72 | The result is a row whose email equals the raw argument. It is None exactly when no row has it. |
| Database.ObtenerUsuarioPorDni | core/database.py:74-86 | The result is a row whose dni equals the raw argument. It is None exactly when no row has it. |
| Database.ObtenerUsuarioPorUsername | core/database.py:87-99 | The result is a row whose username equals the raw argument. It is None exactly when no row has it. |
| Database.ActualizarPassword | core/database.py:100-114 | The answer is always True. Exactly the rows holding the raw email get the new password, and nothing else changes. |
| Database.PasswordUpdateOfUnknownEmail | core/database.py:106-109 | An email no row holds leaves the table unchanged, yet the answer is True. |
| Database.EliminarUsuario | core/database.py:116-130 | The answer is always True. Every row with another username is kept, and the table shrinks by one exactly when the username existed. The AUTOINCREMENT counter is left as it was. |
| Database.DeletedUsernameIsGone | core/database.py:93-125 | After deleting a username, looking it up finds nothing. |
| Database.DeleteOfUnknownUsername | core/database.py:122-125 | Deleting a username no row holds leaves the table unchanged and answers True. |
| Database.VerbatimEmailMissedByNormalisedLookup | core/database.py:46-47 | A row stored verbatim with an upper-case email is not found by the normalising lookup of `core/usuarios.py` with that same email. |
| Auth.Resolve | core/auth.py:10-12 | The row found is the one whose email is the normalised identifier, or failing that the one whose username is the trimmed identifier. An email match always takes priority. |
| Auth.AutenticarUsuario | core/auth.py:8-34 | A login succeeds only with the view of a row that matches the identifier and whose digest checks against the password. An empty identifier or an unknown user gives None. The digest is never part of the result. |
| Auth.LoginByEmailFirst | core/auth.py:10-21 | When the identifier is some row's email, that row alone decides the login, even if another row has it as username. |
| Auth.LoginFallsBackToUsername | core/auth.py:11-21 | When no row has the identifier as email, the row with that username decides the login. |
| Auth.SuccessMessage | core/auth.py:50-53 | The success message never equals the refusal message. It is "Usuario registrado exitosamente como ", then the role exactly as given, then a full stop. |
| Auth.AssignedRole | core/auth.py:35-42 | When the store is empty the role is "admin" whatever was asked for. Otherwise it is the requested role, or "cajero" when none was passed. |
| Auth.RegistrarUsuario | core/auth.py:36-53 | A refusal gets the fixed message exactly when the table is unchanged. A success names the assigned role and appends a row holding the digest of the password, never the password. |
| Auth.RegistrationSucceedsIff | core/auth.py:46-48 | With a sound hasher, registration succeeds exactly when username, email and dni are non-empty and new after normalisation. The password itself is never checked. |
| Auth.FirstUserIsAdmin | core/auth.py:38-42 | The first user of an empty store becomes admin, whatever role was asked for. |
| Auth.LaterUserGetsRequestedRole | core/auth.py:36-50 | Once users exist, the requested role is stored (trimmed), or "cajero" when none was given. |
| Auth.RefusedRegistration | core/auth.py:48-53 | A duplicate or empty username, email or dni gets the fixed message and changes nothing. |
| Auth.RegisterThenLoginByEmail | core/auth.py:21-48 | After a registration, the same password and any spelling of the email that normalises alike log in and show the stored role. |
| Auth.RegisterThenLoginByUsername | core/auth.py:21-48 | After a registration, the username logs in too, as long as no stored email equals it. |
| Auth.FirstRegistration | core/auth.py:36-50 | The first registration into an empty store yields one admin row with the normalised fields and the digest. |
| Auth.SecondRegistration | core/auth.py:36-50 | A second registration with new fields keeps the first row and appends the second with the requested or default role. |
| Auth.TwoUserLogins | core/auth.py:8-34 | In a two-user store, the first user logs in by email, and the second is refused a wrong password. |
| Auth.RegistrationAndLoginScenario | core/auth.py:8-53 | For any two distinct users registered in turn, the first is admin and the second gets the requested role or "cajero". The first logs in with any spelling of the email, and the second is refused a wrong password. |
| EmailFormat.ValidarEmail | utils/validators.py:3-8 | The recogniser accepts exactly the strings the pattern matches with `re.match`, including Python's final-newline allowance for `$`. The copy at `utils.py:5-10` is the same function. |
| EmailFormat.Body | utils/validators.py:7 | The text `$` checks is the string itself or the string minus one final newline. |
| EmailFormat.MatchedShape | utils/validators.py:7 | A matching string has at least six characters and one '@'. Before it are at least two `[a-z0-9]` characters with at most one '.' or '_', never first or last. After it are word characters around exactly one '.'. |
| EmailFormat.ValidEmailShape | utils.py:9 | An accepted string, its optional final newline set aside, has that shape: a local part of at least two lowercase letters or digits, one '@', and a domain with exactly one '.' between word characters. |
| EmailFormat.ExactlyOneAt | utils.py:9 | An accepted string holds exactly one '@'. |
| EmailFormat.LocalCharactersOfValid | utils/validators.py:7 | Before the '@' of an accepted string, at least two characters stand, all from `[a-z0-9._]`. |
| EmailFormat.UpperCaseLocalPartRejected | utils.py:9-10 | An upper-case letter before the first '@' makes the string rejected. |
| EmailFormat.EmptyLocalPartRejected | utils.py:9-10 | A string starting with '@' is rejected. |
| EmailFormat.NewlineAppended | utils/validators.py:8 | Appending one newline keeps a string accepted exactly when it was accepted and did not already end in a newline. |
| EmailFormat.StripOfValid | utils/validators.py:7-8 | `strip()` of an accepted string removes exactly the tolerated final newline. |
| EmailFormat.LowerKeepsMatch | utils/validators.py:7 | Lower-casing a matching string keeps it matching. |
| EmailFormat.NormalisedValidEmailStaysValid | utils/validators.py:7-8 | The store's normalisation of an accepted email is the lowered body and is itself accepted. |
| EmailFormat.AcceptsPlainAddress | utils/validators.py:7-8 | "alice@x.com" is accepted. |
| EmailFormat.RejectsUpperCase | utils/validators.py:7-8 | "ALICE@X.COM" is rejected. |
| EmailFormat.RejectsTwoDotDomain | utils/validators.py:7 | "ab@mail.co.uk" is rejected: its domain has two dots. |
| EmailFormat.RejectsSingleCharacterLocalPart | utils/validators.py:7 | "a@x.com" is rejected: its local part has one character. |
| EmailFormat.AcceptsTrailingNewline | utils/validators.py:8 | "ab@c.d" followed by a newline is accepted. |

## Left out

- GUI (`gui/*.py`, `main.py`): widgets and dialogs are not modelled. This includes the role toggle at `gui/user_management_window.py:131`, the name filter of the stock window, and the password-recovery window, which calls the verbatim `actualizar_password` with a dni.
- Connections and storage errors: `conectar`, `conectar_db`, cursors, commits, closing, and the `sqlite3.Error` paths other than IntegrityError are not modelled. In `core/database.py` a failed connection makes each function return None; this is not modelled either.
- Password hashing internals: PBKDF2-SHA256, salt freshness and constant-time comparison are behind the opaque `Hasher`. No claim is made that two digests differ.
- Logging, including the line at `core/auth.py:18` that logs the entered password, and the `print` of the username and role at `core/auth.py:44`.
- `core/email_service.py` (SMTP) and `utils/config.py` (configuration constants): I/O and settings outside the credential logic.
- Random generation (`generar_nueva_contrasena`, `generar_codigo_verificacion`), product and stock operations, and the Excel import: outside the credential core.
- Text.Lower: models `str.lower()` on ASCII letters only. Non-ASCII upper-case letters are left as they are, because Unicode case mapping is out of scope.
- EmailFormat.ValidarEmail: `\w` is taken over ASCII letters, digits and '_'. Python matches `\w` against all Unicode word characters, so a domain with non-ASCII letters is accepted there and rejected here.
- Text.IdText: the id column is compared with the canonical decimal text of the id only. SQLite's type affinity would also match texts such as "01" or " 1", which the model treats as matching no row.
- Usuarios.ObtenerCantidadUsuarios: the count is the number of rows; its `sqlite3.Error` path, which answers 0, is not modelled.
- Auth.RegistrarUsuario: the refusal message is the same for a storage error as for a duplicate; storage errors themselves are not modelled.

## Findings

| source | as written | input that shows it | evidently intended | confidence | as-written member | corrected member |
|---|---|---|---|---|---|---|
| core/usuarios.py:139-147 | The existence check looks the argument up as a dni (line 139), but the UPDATE matches it against the id (line 147). | A table with one user whose id is 1 and dni is "111": `actualizar_rol_usuario("1", "admin")` answers False although user 1 exists. With the user's dni "2", `actualizar_rol_usuario("2", "admin")` answers True while no row changes. | The check and the update both use the id the window passes (`gui/user_management_window.py:129`). | high; not executed | Usuarios.ActualizarRolUsuario, with Usuarios.RoleUpdateMissesExistingId and Usuarios.RoleUpdateReportsPhantomSuccess | Usuarios.ActualizarRolPorId |
