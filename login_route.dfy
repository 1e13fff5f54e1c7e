/**
 * app/api/auth/login/route.ts: password login, answering with the user, a
 * fresh session token, and every (table, character) pair the user plays,
 * newest table first.
 */
module LoginRoute {
  import opened Wrappers
  import opened Tokens
  import opened Auth
  import opened Store

  /** The JSON body `{ username, password }`. */
  datatype LoginRequest = LoginRequest(username: Option<string>, password: Option<string>)

  datatype SessionUser = SessionUser(id: nat, username: string, isMaster: bool)

  /** One element of `tables`: a table and one of the user's characters at it. */
  datatype TableEntry = TableEntry(
    tableId: nat,
    tableToken: string,
    tableName: Option<string>,
    description: Option<string>,
    characterToken: string,
    characterName: string)

  datatype LoginResult = LoginResult(user: SessionUser, sessionToken: string, tables: seq<TableEntry>)

  const MissingCredentials := "Username e password são obrigatórios"
  const InvalidCredentials := "Credenciais inválidas"

  /** The join condition `c.table_token = t.token AND c.user_id = ?`. */
  predicate Plays(t: Table, c: Character, userId: int) {
    c.tableToken == t.token && c.userId == Some(userId)
  }

  /** The joined rows for one table, characters in store order. */
  function RowsAt(t: Table, characters: seq<Character>, userId: int): (rows: seq<(Table, Character)>)
    ensures forall k :: 0 <= k < |rows| ==> rows[k].0 == t
    ensures forall p :: p in rows <==> p.0 == t && p.1 in characters && Plays(p.0, p.1, userId)
  {
    if characters == [] then []
    else
      var rest := RowsAt(t, characters[1..], userId);
      assert forall c :: c in characters <==> c == characters[0] || c in characters[1..];
      (if Plays(t, characters[0], userId) then [(t, characters[0])] else []) + rest
  }

  /**
   * `FROM tables t INNER JOIN characters c ... ORDER BY t.created_at DESC`:
   * tables from the newest (last inserted) to the oldest, each with its
   * matching characters. `DISTINCT` removes nothing, since every row carries
   * a distinct character token.
   */
  function Join(tables: seq<Table>, characters: seq<Character>, userId: int): seq<(Table, Character)>
  {
    if tables == [] then []
    else RowsAt(tables[|tables| - 1], characters, userId) + Join(tables[..|tables| - 1], characters, userId)
  }

  function EntryOf(row: (Table, Character)): TableEntry {
    TableEntry(row.0.id, row.0.token, row.0.name, row.0.description, row.1.token, row.1.name)
  }

  function Entries(rows: seq<(Table, Character)>): (entries: seq<TableEntry>)
    ensures |entries| == |rows|
    ensures forall k :: 0 <= k < |rows| ==> entries[k] == EntryOf(rows[k])
  {
    if rows == [] then [] else [EntryOf(rows[0])] + Entries(rows[1..])
  }

  /** A pair is joined exactly when its table and its character are stored and the character is the user's, at that table. */
  lemma {:induction false} JoinMembership(tables: seq<Table>, characters: seq<Character>, userId: int, p: (Table, Character))
    ensures p in Join(tables, characters, userId) <==> p.0 in tables && p.1 in characters && Plays(p.0, p.1, userId)
  {
    if tables != [] {
      var init := tables[..|tables| - 1];
      JoinMembership(init, characters, userId, p);
      assert tables == init + [tables[|tables| - 1]];
    }
  }

  /** With unique character tokens, a character of the user at a table gives exactly one row for that table. */
  lemma {:induction false} RowsAtOnce(t: Table, characters: seq<Character>, userId: int, c: Character)
    requires UniqueCharacterTokens(characters)
    requires c in characters && Plays(t, c, userId)
    ensures multiset(RowsAt(t, characters, userId))[(t, c)] == 1
  {
    var rest := characters[1..];
    assert UniqueCharacterTokens(rest);
    if characters[0] == c {
      forall j | 0 <= j < |rest|
        ensures rest[j] != c
      {
        assert rest[j] == characters[1 + j];
      }
      assert (t, c) !in RowsAt(t, rest, userId);
    } else {
      RowsAtOnce(t, rest, userId, c);
    }
  }

  /**
   * One entry per character: with unique table and character tokens, every
   * (table, character) pair the join holds occurs in it exactly once, so
   * `DISTINCT` has nothing to remove.
   */
  lemma {:induction false} JoinOnce(tables: seq<Table>, characters: seq<Character>, userId: int, t: Table, c: Character)
    requires UniqueTableTokens(tables) && UniqueCharacterTokens(characters)
    requires t in tables && c in characters && Plays(t, c, userId)
    ensures multiset(Join(tables, characters, userId))[(t, c)] == 1
  {
    var last := tables[|tables| - 1];
    var init := tables[..|tables| - 1];
    assert tables == init + [last];
    assert UniqueTableTokens(init);
    if last == t {
      RowsAtOnce(t, characters, userId, c);
      forall j | 0 <= j < |init|
        ensures init[j] != t
      {
        assert init[j] == tables[j];
      }
      JoinMembership(init, characters, userId, (t, c));
    } else {
      assert (t, c) !in RowsAt(last, characters, userId);
      assert t in init;
      JoinOnce(init, characters, userId, t, c);
    }
  }

  /** Every joined row holds a table of the store. */
  lemma {:induction false} JoinTablesStored(tables: seq<Table>, characters: seq<Character>, userId: int, k: nat)
    requires k < |Join(tables, characters, userId)|
    ensures Join(tables, characters, userId)[k].0 in tables
  {
    JoinMembership(tables, characters, userId, Join(tables, characters, userId)[k]);
  }

  /** `ORDER BY t.created_at DESC`: along the joined rows, table timestamps never increase. */
  lemma {:induction false} JoinNewestFirst(tables: seq<Table>, characters: seq<Character>, userId: int, clock: nat)
    requires TablesChronological(tables, clock)
    ensures var rows := Join(tables, characters, userId);
      forall a, b :: 0 <= a < b < |rows| ==> rows[a].0.createdAt >= rows[b].0.createdAt
  {
    if tables != [] {
      var last := tables[|tables| - 1];
      var init := tables[..|tables| - 1];
      assert TablesChronological(init, last.createdAt);
      JoinNewestFirst(init, characters, userId, last.createdAt);
      var here := RowsAt(last, characters, userId);
      var older := Join(init, characters, userId);
      assert Join(tables, characters, userId) == here + older;
      forall k | 0 <= k < |older|
        ensures older[k].0.createdAt <= last.createdAt
      {
        JoinTablesStored(init, characters, userId, k);
      }
    }
  }

  /** A user with no character gets no table. */
  lemma {:induction false} NoCharactersNoTables(tables: seq<Table>, characters: seq<Character>, userId: int)
    requires forall i :: 0 <= i < |characters| ==> characters[i].userId != Some(userId)
    ensures Join(tables, characters, userId) == []
  {
    if tables != [] {
      NoCharactersNoTables(tables[..|tables| - 1], characters, userId);
      NoCharactersNoRows(tables[|tables| - 1], characters, userId);
    }
  }

  lemma {:induction false} NoCharactersNoRows(t: Table, characters: seq<Character>, userId: int)
    requires forall i :: 0 <= i < |characters| ==> characters[i].userId != Some(userId)
    ensures RowsAt(t, characters, userId) == []
  {
    if characters != [] {
      NoCharactersNoRows(t, characters[1..], userId);
    }
  }

  /**
   * `POST /api/auth/login`: 400 for a missing field; the same 401 for an
   * unknown username and for a wrong password; otherwise the user (with
   * `is_master` as `stored == 1`), a session token from the randomness, and
   * the joined tables.
   */
  function Post(db: Database, request: LoginRequest, kdf: Kdf, sessionRandom: seq<byte>)
    : (response: Response<LoginResult>)
    reads db
    requires |sessionRandom| == 32
    ensures Missing(request.username) || Missing(request.password) ==> response == Error(400, MissingCredentials)
    ensures !Missing(request.username) && !Missing(request.password) ==>
      && (response.Ok? <==>
            FindUser(db.users, request.username.value).Some? &&
            VerifyPassword(request.password.value, FindUser(db.users, request.username.value).value.passwordHash, kdf))
      && (response.Error? ==> response == Error(401, InvalidCredentials))
    ensures response.Ok? ==>
      exists i :: 0 <= i < |db.users| && db.users[i].username == request.username.value
        && var user := db.users[i];
        && response.body.user == SessionUser(user.id, user.username, user.isMaster == 1)
        && |response.body.sessionToken| == 64 && IsLowerHex(response.body.sessionToken)
        && response.body.tables == Entries(Join(db.tables, db.characters, user.id))
  {
    if Missing(request.username) || Missing(request.password) then Error(400, MissingCredentials)
    else
      match FindUser(db.users, request.username.value)
      case None => Error(401, InvalidCredentials)
      case Some(user) =>
        if !VerifyPassword(request.password.value, user.passwordHash, kdf) then Error(401, InvalidCredentials)
        else
          Ok(LoginResult(SessionUser(user.id, user.username, user.isMaster == 1),
                         GenerateSessionToken(sessionRandom),
                         Entries(Join(db.tables, db.characters, user.id))))
  }

  /** A user whose record was made by `hashPassword(password)` logs in with that password. */
  lemma RegisteredUserLogsIn(db: Database, username: string, password: string, saltRandom: seq<byte>,
                             kdf: Kdf, sessionRandom: seq<byte>)
    requires |saltRandom| == 16 && IsHexDigestFunction(kdf) && |sessionRandom| == 32
    requires username != [] && password != []
    requires FindUser(db.users, username).Some?
    requires FindUser(db.users, username).value.passwordHash == HashPassword(password, saltRandom, kdf)
    ensures Post(db, LoginRequest(Some(username), Some(password)), kdf, sessionRandom).Ok?
  {
  }

  /** An unknown username and a wrong password get the same answer, so a caller cannot tell which names exist. */
  lemma UnknownUserLooksLikeWrongPassword(db: Database, unknown: string, password: string,
                                          known: string, wrong: string, kdf: Kdf, sessionRandom: seq<byte>)
    requires |sessionRandom| == 32
    requires unknown != [] && password != [] && known != [] && wrong != []
    requires FindUser(db.users, unknown).None?
    requires FindUser(db.users, known).Some?
    requires !VerifyPassword(wrong, FindUser(db.users, known).value.passwordHash, kdf)
    ensures Post(db, LoginRequest(Some(unknown), Some(password)), kdf, sessionRandom)
         == Post(db, LoginRequest(Some(known), Some(wrong)), kdf, sessionRandom)
  {
  }
}
