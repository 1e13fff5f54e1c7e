/**
 * The persistent store behind the route handlers, as an in-memory object.
 * Each SQLite table is a sequence of rows in insertion (rowid) order; ids
 * are AUTOINCREMENT (no row is ever deleted, so a row's id is its position
 * plus one) and `created_at` is a counter that every insert advances.
 *
 * The unique keys are `users.username` (kept by the users route),
 * `tables.token` and `characters.token`; `tables.master_token` has no unique
 * constraint in lib/db.ts.
 */
module Store {
  import opened Wrappers
  import opened Tokens

  /** The six attributes `nex, agi, for, int, pre, vig`; `for` and `int` are Dafny keywords, hence `forca` and `intelecto`. */
  datatype Attributes = Attributes(nex: int, agi: int, forca: int, intelecto: int, pre: int, vig: int)

  datatype User = User(id: nat, username: string, passwordHash: string, isMaster: int, createdAt: nat)

  datatype Table = Table(
    id: nat,
    token: string,
    masterToken: string,
    name: Option<string>,
    description: Option<string>,
    attributeMode: string,
    masterUserId: Option<int>,
    createdAt: nat)

  datatype Character = Character(
    id: nat,
    token: string,
    tableToken: string,
    userId: Option<int>,
    name: string,
    origin: Option<string>,
    attributes: Attributes,
    pv: int,
    pe: int,
    san: int,
    inventory: Option<string>,
    rituals: Option<string>,
    createdAt: nat)

  datatype Npc = Npc(
    id: nat,
    tableToken: string,
    name: string,
    origin: string,
    attributes: Attributes,
    highlightSkill: string,
    darkSecret: string,
    createdAt: nat)

  /** What a handler answers: `NextResponse.json(body)` with status 200, or `{ error }` with a status. */
  datatype Response<T> = Ok(body: T) | Error(status: int, message: string)

  // ---------------------------------------------------------------------
  // JavaScript defaults written `x || fallback` in the routes
  // ---------------------------------------------------------------------

  /** `s || null` for an optional string: the empty string is falsy too. */
  function StringOrNull(s: Option<string>): Option<string> {
    if s == Some([]) then None else s
  }

  /** `s || fallback` for an optional string. */
  function StringOr(s: Option<string>, fallback: string): string {
    if s.None? || s.value == [] then fallback else s.value
  }

  /** `n || null` for an optional number: 0 is falsy too. */
  function NumberOrNull(n: Option<int>): Option<int> {
    if n == Some(0) then None else n
  }

  /** `n || 0`. */
  function NumberOrZero(n: Option<int>): int {
    n.GetOr(0)
  }

  /** `!s` for an optional string: absent or empty. */
  predicate Missing(s: Option<string>) {
    s.None? || s.value == []
  }

  // ---------------------------------------------------------------------
  // Queries: `.get` returns the first matching row
  // ---------------------------------------------------------------------

  /** The first element satisfying `p`, as `stmt.get` returns the first matching row. */
  function First<T>(s: seq<T>, p: T -> bool): (found: Option<T>)
    ensures found.Some? <==> exists i :: 0 <= i < |s| && p(s[i])
    ensures found.Some? ==>
      exists i :: 0 <= i < |s| && s[i] == found.value && p(s[i]) && (forall j :: 0 <= j < i ==> !p(s[j]))
  {
    if s == [] then None
    else if p(s[0]) then Some(s[0])
    else
      var rest := First(s[1..], p);
      assert forall i :: 1 <= i < |s| ==> s[i] == s[1..][i - 1];
      rest
  }

  function Reverse<T>(s: seq<T>): (r: seq<T>)
    ensures |r| == |s|
    ensures forall i :: 0 <= i < |s| ==> r[i] == s[|s| - 1 - i]
  {
    if s == [] then [] else Reverse(s[1..]) + [s[0]]
  }

  /** Appending a row changes a first-match lookup only when nothing earlier matched. */
  lemma {:induction false} FirstAppend<T>(s: seq<T>, x: T, p: T -> bool)
    ensures First(s + [x], p) == if First(s, p).Some? then First(s, p) else if p(x) then Some(x) else None
  {
    if s != [] {
      assert (s + [x])[1..] == s[1..] + [x];
      FirstAppend(s[1..], x, p);
    }
  }

  function FindUser(users: seq<User>, username: string): Option<User> {
    First(users, (u: User) => u.username == username)
  }

  function FindTableByToken(tables: seq<Table>, token: string): Option<Table> {
    First(tables, (t: Table) => t.token == token)
  }

  function FindTableByMasterToken(tables: seq<Table>, masterToken: string): Option<Table> {
    First(tables, (t: Table) => t.masterToken == masterToken)
  }

  function FindCharacterByToken(characters: seq<Character>, token: string): Option<Character> {
    First(characters, (c: Character) => c.token == token)
  }

  // ---------------------------------------------------------------------
  // Store invariants
  // ---------------------------------------------------------------------

  predicate UniqueUsernames(users: seq<User>) {
    forall i, j :: 0 <= i < j < |users| ==> users[i].username != users[j].username
  }

  predicate UniqueTableTokens(tables: seq<Table>) {
    forall i, j :: 0 <= i < j < |tables| ==> tables[i].token != tables[j].token
  }

  predicate UniqueCharacterTokens(characters: seq<Character>) {
    forall i, j :: 0 <= i < j < |characters| ==> characters[i].token != characters[j].token
  }

  /** Every table holds a 32-digit shared token and a 48-digit master token, as `generateTableTokens` makes them. */
  predicate TableTokensWellFormed(tables: seq<Table>) {
    forall i :: 0 <= i < |tables| ==>
      |tables[i].token| == 32 && IsLowerHex(tables[i].token) &&
      |tables[i].masterToken| == 48 && IsLowerHex(tables[i].masterToken)
  }

  /** Rows were stamped in insertion order, each before `clock`. */
  predicate TablesChronological(tables: seq<Table>, clock: nat) {
    && (forall i, j :: 0 <= i < j < |tables| ==> tables[i].createdAt < tables[j].createdAt)
    && (forall i :: 0 <= i < |tables| ==> tables[i].createdAt < clock)
  }

  predicate NpcsChronological(npcs: seq<Npc>, clock: nat) {
    && (forall i, j :: 0 <= i < j < |npcs| ==> npcs[i].createdAt < npcs[j].createdAt)
    && (forall i :: 0 <= i < |npcs| ==> npcs[i].createdAt < clock)
  }

  class Database {
    var users: seq<User>
    var tables: seq<Table>
    var characters: seq<Character>
    var npcs: seq<Npc>
    /** `CURRENT_TIMESTAMP`, as a counter that every insert advances. */
    var clock: nat

    ghost predicate Valid()
      reads this
    {
      && UniqueUsernames(users)
      && UniqueTableTokens(tables)
      && UniqueCharacterTokens(characters)
      && TableTokensWellFormed(tables)
      && TablesChronological(tables, clock)
      && NpcsChronological(npcs, clock)
    }

    /** An empty database. */
    constructor ()
      ensures Valid()
      ensures users == [] && tables == [] && characters == [] && npcs == [] && clock == 0
    {
      users, tables, characters, npcs := [], [], [], [];
      clock := 0;
    }

    /** `INSERT INTO users (username, password_hash, is_master)`; the route has checked the name is free. */
    method InsertUser(username: string, passwordHash: string, isMaster: int) returns (user: User)
      requires Valid()
      requires FindUser(users, username).None?
      modifies this
      ensures Valid()
      ensures user == User(|old(users)| + 1, username, passwordHash, isMaster, old(clock))
      ensures users == old(users) + [user]
      ensures tables == old(tables) && characters == old(characters) && npcs == old(npcs)
      ensures clock == old(clock) + 1
    {
      user := User(|users| + 1, username, passwordHash, isMaster, clock);
      users := users + [user];
      clock := clock + 1;
    }

    /**
     * `INSERT INTO tables (token, master_token, name, description, attribute_mode, master_user_id)`.
     * A token already present violates the UNIQUE constraint: nothing is inserted.
     */
    method InsertTable(
      token: string, masterToken: string, name: Option<string>, description: Option<string>,
      attributeMode: string, masterUserId: Option<int>)
      returns (row: Option<Table>)
      requires Valid()
      requires |token| == 32 && IsLowerHex(token) && |masterToken| == 48 && IsLowerHex(masterToken)
      modifies this
      ensures Valid()
      ensures row.None? <==> FindTableByToken(old(tables), token).Some?
      ensures row.None? ==> unchanged(this)
      ensures row.Some? ==>
        && row.value == Table(|old(tables)| + 1, token, masterToken, name, description, attributeMode, masterUserId, old(clock))
        && tables == old(tables) + [row.value]
        && clock == old(clock) + 1
      ensures users == old(users) && characters == old(characters) && npcs == old(npcs)
    {
      if FindTableByToken(tables, token).Some? {
        return None;
      }
      var t := Table(|tables| + 1, token, masterToken, name, description, attributeMode, masterUserId, clock);
      tables := tables + [t];
      clock := clock + 1;
      row := Some(t);
    }

    /** `INSERT INTO characters (...)` with `pv = pe = san = 0`; the route has checked the token is free. */
    method InsertCharacter(
      token: string, tableToken: string, userId: Option<int>, name: string,
      origin: Option<string>, attributes: Attributes)
      returns (character: Character)
      requires Valid()
      requires FindCharacterByToken(characters, token).None?
      modifies this
      ensures Valid()
      ensures character == Character(|old(characters)| + 1, token, tableToken, userId, name, origin,
                                     attributes, 0, 0, 0, None, None, old(clock))
      ensures characters == old(characters) + [character]
      ensures users == old(users) && tables == old(tables) && npcs == old(npcs)
      ensures clock == old(clock) + 1
    {
      character := Character(|characters| + 1, token, tableToken, userId, name, origin,
                             attributes, 0, 0, 0, None, None, clock);
      characters := characters + [character];
      clock := clock + 1;
    }

    /** `INSERT INTO npcs (...)`. */
    method InsertNpc(
      tableToken: string, name: string, origin: string, attributes: Attributes,
      highlightSkill: string, darkSecret: string)
      returns (npc: Npc)
      requires Valid()
      modifies this
      ensures Valid()
      ensures npc == Npc(|old(npcs)| + 1, tableToken, name, origin, attributes, highlightSkill, darkSecret, old(clock))
      ensures npcs == old(npcs) + [npc]
      ensures users == old(users) && tables == old(tables) && characters == old(characters)
      ensures clock == old(clock) + 1
    {
      npc := Npc(|npcs| + 1, tableToken, name, origin, attributes, highlightSkill, darkSecret, clock);
      npcs := npcs + [npc];
      clock := clock + 1;
    }
  }
}
