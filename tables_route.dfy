/**
 * app/api/tables/route.ts: table creation (`POST`), lookup by master token
 * (`GET`) and `validateTableToken`.
 */
module TablesRoute {
  import opened Wrappers
  import opened Tokens
  import opened Store

  /** The JSON body `{ name?, description?, attribute_mode?, master_user_id? }`. */
  datatype CreateTableRequest = CreateTableRequest(
    name: Option<string>,
    description: Option<string>,
    attributeMode: Option<string>,
    masterUserId: Option<int>)

  /** The `table` object of both answers; `table_token` is the row's `token`. */
  datatype TableView = TableView(
    id: nat,
    tableToken: string,
    masterToken: string,
    name: Option<string>,
    description: Option<string>,
    attributeMode: string,
    createdAt: nat)

  const DefaultAttributeMode := "ordem_paranormal"
  const DuplicateToken := "Erro na Membrana: Token duplicado detectado. Tente novamente."
  const MasterTokenRequired := "master_token é obrigatório"
  const InvalidMasterToken := "Token inválido. A Membrana rejeitou sua autenticação."
  const TableNotFound := "Mesa não encontrada. O token pode estar incorreto ou a mesa foi apagada."

  function ViewOf(t: Table): TableView {
    TableView(t.id, t.token, t.masterToken, t.name, t.description, t.attributeMode, t.createdAt)
  }

  /**
   * `POST /api/tables`: one new table holding a fresh 32-digit token and a
   * 48-digit master token, `name`/`description` defaulting to null,
   * `attribute_mode` to 'ordem_paranormal' and `master_user_id` to null; the
   * answer echoes the stored row. A shared token already in the store
   * violates the UNIQUE constraint and gives 409 with nothing stored.
   */
  method Post(db: Database, request: CreateTableRequest, sharedRandom: seq<byte>, masterRandom: seq<byte>)
    returns (response: Response<TableView>)
    requires db.Valid()
    requires |sharedRandom| == 16 && |masterRandom| == 24
    modifies db
    ensures db.Valid()
    ensures var tokens := GenerateTableTokens(sharedRandom, masterRandom);
      if FindTableByToken(old(db.tables), tokens.tableToken).Some? then
        response == Error(409, DuplicateToken) && unchanged(db)
      else
        var row := Table(|old(db.tables)| + 1, tokens.tableToken, tokens.masterToken,
                         StringOrNull(request.name), StringOrNull(request.description),
                         StringOr(request.attributeMode, DefaultAttributeMode),
                         NumberOrNull(request.masterUserId), old(db.clock));
        && db.tables == old(db.tables) + [row]
        && db.users == old(db.users) && db.characters == old(db.characters) && db.npcs == old(db.npcs)
        && db.clock == old(db.clock) + 1
        && response == Ok(ViewOf(row))
        && ValidateTableToken(db, row.token)
        && Get(db, Some(row.masterToken)).Ok?
  {
    var tokens := GenerateTableTokens(sharedRandom, masterRandom);
    var inserted := db.InsertTable(
      tokens.tableToken,
      tokens.masterToken,
      StringOrNull(request.name),
      StringOrNull(request.description),
      StringOr(request.attributeMode, DefaultAttributeMode),
      NumberOrNull(request.masterUserId));
    if inserted.None? {
      return Error(409, DuplicateToken);
    }
    var row := inserted.value;
    assert db.tables[|db.tables| - 1] == row;
    response := Ok(ViewOf(row));
  }

  /**
   * `GET /api/tables?master_token=`: 400 when absent, 400 when malformed,
   * else the table whose `master_token` equals the cleaned input, or 404.
   */
  function Get(db: Database, masterToken: Option<string>): (response: Response<TableView>)
    reads db
    ensures Missing(masterToken) ==> response == Error(400, MasterTokenRequired)
    ensures !Missing(masterToken) && !IsValidTokenFormat(masterToken.value) ==>
      response == Error(400, InvalidMasterToken)
    ensures !Missing(masterToken) && IsValidTokenFormat(masterToken.value) ==>
      && (response.Ok? <==> exists i :: 0 <= i < |db.tables| && db.tables[i].masterToken == CleanToken(masterToken.value))
      && (response.Error? ==> response == Error(404, TableNotFound))
    ensures response.Ok? ==>
      exists i :: 0 <= i < |db.tables| && db.tables[i].masterToken == CleanToken(masterToken.value) &&
        response.body == ViewOf(db.tables[i])
  {
    if Missing(masterToken) then Error(400, MasterTokenRequired)
    else if !IsValidTokenFormat(masterToken.value) then Error(400, InvalidMasterToken)
    else match FindTableByMasterToken(db.tables, CleanToken(masterToken.value))
      case None => Error(404, TableNotFound)
      case Some(t) => Ok(ViewOf(t))
  }

  /**
   * `validateTableToken`: false for a malformed token, else whether some
   * table's `token` equals the cleaned input. It never fails.
   */
  function ValidateTableToken(db: Database, tableToken: string): (valid: bool)
    reads db
    ensures !IsValidTokenFormat(tableToken) ==> !valid
    ensures IsValidTokenFormat(tableToken) ==>
      (valid <==> exists i :: 0 <= i < |db.tables| && db.tables[i].token == CleanToken(tableToken))
  {
    IsValidTokenFormat(tableToken) && FindTableByToken(db.tables, CleanToken(tableToken)).Some?
  }

  /**
   * The master lookup never accepts a table's shared token, raw or in its
   * display form: shared tokens have 32 digits and master tokens 48.
   */
  lemma SharedTokenNeverOpensMasterLookup(db: Database, i: nat, chunkSize: nat)
    requires db.Valid() && i < |db.tables| && chunkSize > 0
    ensures Get(db, Some(db.tables[i].token)) == Error(404, TableNotFound)
    ensures Get(db, Some(Formatted(db.tables[i].token, chunkSize))) == Error(404, TableNotFound)
  {
    var token := db.tables[i].token;
    assert forall k :: 0 <= k < |token| ==> token[k] != '-';
    LowerHexIsClean(token);
    CleanFormattedRaw(token, chunkSize);
    ValidFormatOfFormatted(token, chunkSize);
    FormattedNotEmpty(token, chunkSize);
  }

  /** Every stored table is accepted by `validateTableToken`, raw or in its display form. */
  lemma StoredTablesValidate(db: Database, i: nat, chunkSize: nat)
    requires db.Valid() && i < |db.tables| && chunkSize > 0
    ensures ValidateTableToken(db, db.tables[i].token)
    ensures ValidateTableToken(db, Formatted(db.tables[i].token, chunkSize))
  {
    var token := db.tables[i].token;
    assert forall k :: 0 <= k < |token| ==> token[k] != '-';
    LowerHexIsClean(token);
    CleanFormattedRaw(token, chunkSize);
    ValidFormatOfFormatted(token, chunkSize);
  }
}
