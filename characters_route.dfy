/**
 * app/api/characters/route.ts: character creation (`POST`) with its bounded
 * retry for a fresh character token, and lookup by both tokens (`GET`).
 */
module CharactersRoute {
  import opened Wrappers
  import opened Tokens
  import opened Store

  /** The optional numeric attributes of the request body. */
  datatype AttributeInput = AttributeInput(
    nex: Option<int>, agi: Option<int>, forca: Option<int>,
    intelecto: Option<int>, pre: Option<int>, vig: Option<int>)

  /** The JSON body `{ table_token, user_id?, name, origin?, nex?, agi?, for?, int?, pre?, vig? }`. */
  datatype CreateCharacterRequest = CreateCharacterRequest(
    tableToken: Option<string>,
    userId: Option<int>,
    name: Option<string>,
    origin: Option<string>,
    attributes: AttributeInput)

  /** The `character` object of a successful `POST`. */
  datatype CreatedCharacter = CreatedCharacter(id: nat, token: string, tableToken: string, name: string)

  /** The columns `GET` selects: every column but `user_id` (`updated_at` equals `created_at`, as nothing updates a character). */
  datatype CharacterSheet = CharacterSheet(
    id: nat,
    token: string,
    tableToken: string,
    name: string,
    origin: Option<string>,
    attributes: Attributes,
    pv: int,
    pe: int,
    san: int,
    inventory: Option<string>,
    rituals: Option<string>,
    createdAt: nat)

  /** The number of existence checks the retry loop may make. */
  const MaxAttempts: nat := 10

  const FieldsRequired := "table_token e name são obrigatórios"
  const InvalidTableToken := "Token de mesa inválido"
  const TableNotFound := "Mesa não encontrada. Verifique o token da mesa."
  const NoUniqueToken := "Erro na Membrana: Não foi possível gerar token único. Tente novamente."
  const TokensRequired := "character_token e table_token são obrigatórios"
  const InvalidTokens := "Tokens inválidos"
  const CharacterNotFound := "Personagem não encontrado. Verifique os tokens fornecidos."

  function SheetOf(c: Character): CharacterSheet {
    CharacterSheet(c.id, c.token, c.tableToken, c.name, c.origin, c.attributes, c.pv, c.pe, c.san,
                   c.inventory, c.rituals, c.createdAt)
  }

  /** Each attribute `|| 0`. */
  function AttributesOf(input: AttributeInput): Attributes {
    Attributes(NumberOrZero(input.nex), NumberOrZero(input.agi), NumberOrZero(input.forca),
               NumberOrZero(input.intelecto), NumberOrZero(input.pre), NumberOrZero(input.vig))
  }

  /** The randomness for the retry loop: enough 16-byte draws for the first token and every retry. */
  predicate EnoughRandom(random: seq<seq<byte>>) {
    |random| > MaxAttempts && forall k :: 0 <= k < |random| ==> |random[k]| == 16
  }

  /** The token `generateCharacterToken` makes on its k-th call. */
  function Candidate(random: seq<seq<byte>>, k: nat): string
    requires EnoughRandom(random) && k < |random|
  {
    GenerateCharacterToken(random[k])
  }

  predicate TokenTaken(characters: seq<Character>, token: string) {
    exists i :: 0 <= i < |characters| && characters[i].token == token
  }

  /**
   * The index of the first of candidates `from` .. 9 that is not taken, or
   * 10 when all of them are.
   */
  function FirstFree(characters: seq<Character>, random: seq<seq<byte>>, from: nat := 0): (k: nat)
    requires EnoughRandom(random) && from <= MaxAttempts
    ensures from <= k <= MaxAttempts
    ensures forall j :: from <= j < k ==> TokenTaken(characters, Candidate(random, j))
    ensures k < MaxAttempts ==> !TokenTaken(characters, Candidate(random, k))
    decreases MaxAttempts - from
  {
    if from == MaxAttempts then MaxAttempts
    else if !TokenTaken(characters, Candidate(random, from)) then from
    else FirstFree(characters, random, from + 1)
  }

  /**
   * The retry loop of `POST`: check the current candidate, stop at the first
   * free one, else draw the next, for at most 10 checks. `attempts` is the
   * number of candidates found taken; 10 means failure.
   */
  method FindFreeToken(db: Database, random: seq<seq<byte>>) returns (token: string, attempts: nat, ghost checks: nat)
    requires EnoughRandom(random)
    ensures attempts == FirstFree(db.characters, random)
    ensures token == Candidate(random, attempts)
    ensures attempts < MaxAttempts <==> exists k :: 0 <= k < MaxAttempts && !TokenTaken(db.characters, Candidate(random, k))
    ensures attempts < MaxAttempts ==> !TokenTaken(db.characters, token)
    ensures checks == if attempts < MaxAttempts then attempts + 1 else MaxAttempts
  {
    token := GenerateCharacterToken(random[0]);
    attempts := 0;
    checks := 0;
    while attempts < MaxAttempts
      invariant attempts <= MaxAttempts
      invariant token == Candidate(random, attempts)
      invariant forall k :: 0 <= k < attempts ==> TokenTaken(db.characters, Candidate(random, k))
      invariant checks == attempts
      invariant FirstFree(db.characters, random) == FirstFree(db.characters, random, attempts)
    {
      var existing := FindCharacterByToken(db.characters, token);
      checks := checks + 1;
      if existing.None? {
        break;
      }
      token := GenerateCharacterToken(random[attempts + 1]);
      attempts := attempts + 1;
    }
  }

  /**
   * `POST /api/characters`: 400 without `table_token` or `name`, 400 for a
   * malformed table token, 404 when no table holds the cleaned token, 500
   * when the first 10 candidate tokens are all taken; otherwise exactly one
   * new character under the first free candidate, which `GET` then finds.
   */
  method Post(db: Database, request: CreateCharacterRequest, random: seq<seq<byte>>)
    returns (response: Response<CreatedCharacter>)
    requires db.Valid() && EnoughRandom(random)
    modifies db
    ensures db.Valid()
    ensures Missing(request.tableToken) || Missing(request.name) ==>
      response == Error(400, FieldsRequired) && unchanged(db)
    ensures !Missing(request.tableToken) && !Missing(request.name) ==>
      var tableToken := request.tableToken.value;
      if !IsValidTokenFormat(tableToken) then response == Error(400, InvalidTableToken) && unchanged(db)
      else if FindTableByToken(old(db.tables), CleanToken(tableToken)).None? then
        response == Error(404, TableNotFound) && unchanged(db)
      else
        var k := FirstFree(old(db.characters), random);
        if k == MaxAttempts then response == Error(500, NoUniqueToken) && unchanged(db)
        else
          var c := Character(|old(db.characters)| + 1, Candidate(random, k), CleanToken(tableToken),
                             NumberOrNull(request.userId), request.name.value, StringOrNull(request.origin),
                             AttributesOf(request.attributes), 0, 0, 0, None, None, old(db.clock));
          && !TokenTaken(old(db.characters), c.token)
          && db.characters == old(db.characters) + [c]
          && db.users == old(db.users) && db.tables == old(db.tables) && db.npcs == old(db.npcs)
          && db.clock == old(db.clock) + 1
          && response == Ok(CreatedCharacter(c.id, c.token, c.tableToken, c.name))
          && Get(db, Some(c.token), Some(tableToken)) == Ok(SheetOf(c))
  {
    if Missing(request.tableToken) || Missing(request.name) {
      return Error(400, FieldsRequired);
    }
    var tableToken := request.tableToken.value;
    if !IsValidTokenFormat(tableToken) {
      return Error(400, InvalidTableToken);
    }
    var cleanedTableToken := CleanToken(tableToken);
    if FindTableByToken(db.tables, cleanedTableToken).None? {
      return Error(404, TableNotFound);
    }
    var characterToken, attempts, _ := FindFreeToken(db, random);
    if attempts >= MaxAttempts {
      return Error(500, NoUniqueToken);
    }
    FirstNoneWhenAbsent(db.characters, characterToken);
    var c := db.InsertCharacter(characterToken, cleanedTableToken, NumberOrNull(request.userId),
                                request.name.value, StringOrNull(request.origin), AttributesOf(request.attributes));
    CleanIdempotent(tableToken);
    FirstAppend(old(db.characters), c, (x: Character) => MatchesTokens(x, characterToken, tableToken));
    response := Ok(CreatedCharacter(c.id, c.token, c.tableToken, c.name));
  }

  lemma FirstNoneWhenAbsent(characters: seq<Character>, token: string)
    requires !TokenTaken(characters, token)
    ensures FindCharacterByToken(characters, token).None?
  {
  }

  /** The row `WHERE token = clean(characterToken) AND table_token = clean(tableToken)` selects. */
  predicate MatchesTokens(c: Character, characterToken: string, tableToken: string) {
    c.token == CleanToken(characterToken) && c.tableToken == CleanToken(tableToken)
  }

  predicate CharacterMatches(characters: seq<Character>, characterToken: string, tableToken: string) {
    exists i :: 0 <= i < |characters| && MatchesTokens(characters[i], characterToken, tableToken)
  }

  /**
   * `GET /api/characters?character_token=&table_token=`: 400 unless both are
   * given and well formed, else the character whose token and table token
   * both equal the cleaned inputs, or 404.
   */
  function Get(db: Database, characterToken: Option<string>, tableToken: Option<string>)
    : (response: Response<CharacterSheet>)
    reads db
    ensures Missing(characterToken) || Missing(tableToken) ==> response == Error(400, TokensRequired)
    ensures !Missing(characterToken) && !Missing(tableToken) ==>
      (!IsValidTokenFormat(characterToken.value) || !IsValidTokenFormat(tableToken.value)) ==>
        response == Error(400, InvalidTokens)
    ensures !Missing(characterToken) && !Missing(tableToken) ==>
      IsValidTokenFormat(characterToken.value) && IsValidTokenFormat(tableToken.value) ==>
        && (response.Ok? <==> CharacterMatches(db.characters, characterToken.value, tableToken.value))
        && (response.Error? ==> response == Error(404, CharacterNotFound))
    ensures response.Ok? ==>
      exists i :: 0 <= i < |db.characters| && MatchesTokens(db.characters[i], characterToken.value, tableToken.value)
        && response.body == SheetOf(db.characters[i])
  {
    if Missing(characterToken) || Missing(tableToken) then Error(400, TokensRequired)
    else if !IsValidTokenFormat(characterToken.value) || !IsValidTokenFormat(tableToken.value) then
      Error(400, InvalidTokens)
    else
      match First(db.characters, (c: Character) => MatchesTokens(c, characterToken.value, tableToken.value))
      case None => Error(404, CharacterNotFound)
      case Some(c) => Ok(SheetOf(c))
  }
}
