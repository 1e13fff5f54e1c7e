/**
 * app/api/npcs/route.ts: filing an NPC under a table (`POST`) and listing a
 * table's NPCs, newest first (`GET`).
 */
module NpcsRoute {
  import opened Wrappers
  import opened Tokens
  import opened JsonValues
  import opened Store

  /**
   * The JSON body. The six attributes keep their parsed JSON values, since
   * the route checks their `typeof`; the other fields are strings or absent.
   */
  datatype CreateNpcRequest = CreateNpcRequest(
    name: Option<string>,
    origin: Option<string>,
    attributes: map<string, Json>,
    highlightSkill: Option<string>,
    darkSecret: Option<string>,
    tableToken: Option<string>)

  /** A row of `GET`: every column but `table_token`. */
  datatype NpcView = NpcView(
    id: nat, name: string, origin: string, attributes: Attributes,
    highlightSkill: string, darkSecret: string, createdAt: nat)

  datatype NpcList = NpcList(npcs: seq<NpcView>, count: nat)

  const NameAndOriginRequired := "Nome e origem são obrigatórios"
  const TableTokenRequired := "table_token é obrigatório"
  const InvalidTableToken := "Token de mesa inválido"
  const TableNotFound := "Mesa não encontrada. Verifique o token da mesa."

  /** The attributes in the order the route checks them. */
  const AttributeNames: seq<string> := ["nex", "agi", "for", "int", "pre", "vig"]

  function AttributeMessage(name: string): string {
    "Atributo " + name + " deve ser um número"
  }

  /** `npcData[name]`: the member, or `undefined`. */
  function Field(attributes: map<string, Json>, name: string): Option<Json> {
    if name in attributes then Some(attributes[name]) else None
  }

  /** The first of `names` whose value is not a number, if any. */
  function FirstNonNumber(attributes: map<string, Json>, names: seq<string>): (failed: Option<string>)
    ensures failed.None? <==> forall i :: 0 <= i < |names| ==> IsNumber(Field(attributes, names[i]))
    ensures failed.Some? ==>
      exists i :: 0 <= i < |names| && names[i] == failed.value && !IsNumber(Field(attributes, names[i]))
        && forall j :: 0 <= j < i ==> IsNumber(Field(attributes, names[j]))
  {
    if names == [] then None
    else if !IsNumber(Field(attributes, names[0])) then Some(names[0])
    else
      var rest := FirstNonNumber(attributes, names[1..]);
      assert forall i :: 1 <= i < |names| ==> names[i] == names[1..][i - 1];
      rest
  }

  /** The attribute loop of `POST`: stop at the first attribute that is not a number. */
  method CheckAttributes(attributes: map<string, Json>) returns (failed: Option<string>)
    ensures failed == FirstNonNumber(attributes, AttributeNames)
  {
    for k := 0 to |AttributeNames|
      invariant FirstNonNumber(attributes, AttributeNames) == FirstNonNumber(attributes, AttributeNames[k..])
    {
      var attribute := AttributeNames[k];
      if !IsNumber(Field(attributes, attribute)) {
        return Some(attribute);
      }
      assert AttributeNames[k..][1..] == AttributeNames[k + 1..];
    }
    return None;
  }

  /** The number of an attribute that passed the check. */
  function NumberAt(attributes: map<string, Json>, name: string): int
    requires IsNumber(Field(attributes, name))
  {
    attributes[name].n
  }

  function AttributesOf(attributes: map<string, Json>): Attributes
    requires FirstNonNumber(attributes, AttributeNames).None?
  {
    assert forall i :: 0 <= i < |AttributeNames| ==> IsNumber(Field(attributes, AttributeNames[i]));
    Attributes(NumberAt(attributes, AttributeNames[0]), NumberAt(attributes, AttributeNames[1]),
               NumberAt(attributes, AttributeNames[2]), NumberAt(attributes, AttributeNames[3]),
               NumberAt(attributes, AttributeNames[4]), NumberAt(attributes, AttributeNames[5]))
  }

  /** `WHERE table_token = ?`: the table's NPCs in store order. */
  function NpcsAt(npcs: seq<Npc>, tableToken: string): (kept: seq<Npc>)
    ensures forall n :: n in kept <==> n in npcs && n.tableToken == tableToken
    ensures |kept| <= |npcs|
  {
    if npcs == [] then []
    else
      var rest := NpcsAt(npcs[1..], tableToken);
      assert forall n :: n in npcs <==> n == npcs[0] || n in npcs[1..];
      if npcs[0].tableToken == tableToken then [npcs[0]] + rest else rest
  }

  lemma {:induction false} NpcsAtAppend(npcs: seq<Npc>, npc: Npc, tableToken: string)
    ensures NpcsAt(npcs + [npc], tableToken) ==
      NpcsAt(npcs, tableToken) + (if npc.tableToken == tableToken then [npc] else [])
  {
    if npcs != [] {
      assert (npcs + [npc])[1..] == npcs[1..] + [npc];
      NpcsAtAppend(npcs[1..], npc, tableToken);
    }
  }

  /** Selecting keeps the insertion order, hence the timestamp order. */
  lemma {:induction false} NpcsAtChronological(npcs: seq<Npc>, tableToken: string, clock: nat)
    requires NpcsChronological(npcs, clock)
    ensures NpcsChronological(NpcsAt(npcs, tableToken), clock)
  {
    if npcs != [] {
      var rest := npcs[1..];
      assert NpcsChronological(rest, clock);
      NpcsAtChronological(rest, tableToken, clock);
      var kept := NpcsAt(rest, tableToken);
      forall k | 0 <= k < |kept|
        ensures npcs[0].createdAt < kept[k].createdAt
      {
        assert kept[k] in rest;
      }
    }
  }

  function ViewOf(n: Npc): NpcView {
    NpcView(n.id, n.name, n.origin, n.attributes, n.highlightSkill, n.darkSecret, n.createdAt)
  }

  function Views(npcs: seq<Npc>): (views: seq<NpcView>)
    ensures |views| == |npcs|
    ensures forall k :: 0 <= k < |npcs| ==> views[k] == ViewOf(npcs[k])
  {
    if npcs == [] then [] else [ViewOf(npcs[0])] + Views(npcs[1..])
  }

  /** `... ORDER BY created_at DESC`. */
  function Listing(npcs: seq<Npc>, tableToken: string): seq<NpcView> {
    Views(Reverse(NpcsAt(npcs, tableToken)))
  }

  /** The listing holds exactly the views of the table's NPCs. */
  lemma ListingContents(npcs: seq<Npc>, tableToken: string)
    ensures var listed := Listing(npcs, tableToken);
      && (forall k :: 0 <= k < |listed| ==>
            exists i :: 0 <= i < |npcs| && npcs[i].tableToken == tableToken && listed[k] == ViewOf(npcs[i]))
      && (forall i :: 0 <= i < |npcs| && npcs[i].tableToken == tableToken ==> ViewOf(npcs[i]) in listed)
  {
    var kept := NpcsAt(npcs, tableToken);
    var listed := Listing(npcs, tableToken);
    forall k | 0 <= k < |listed|
      ensures exists i :: 0 <= i < |npcs| && npcs[i].tableToken == tableToken && listed[k] == ViewOf(npcs[i])
    {
      var n := kept[|kept| - 1 - k];
      assert n in kept;
      var i :| 0 <= i < |npcs| && npcs[i] == n;
    }
    forall i | 0 <= i < |npcs| && npcs[i].tableToken == tableToken
      ensures ViewOf(npcs[i]) in listed
    {
      assert npcs[i] in kept;
      var m :| 0 <= m < |kept| && kept[m] == npcs[i];
      assert listed[|kept| - 1 - m] == ViewOf(npcs[i]);
    }
  }

  /**
   * `GET /api/npcs?table_token=`: 400 without a token or with a malformed
   * one, else the NPCs filed under the cleaned token and their count.
   */
  function Get(db: Database, tableToken: Option<string>): (response: Response<NpcList>)
    reads db
    ensures Missing(tableToken) ==> response == Error(400, TableTokenRequired)
    ensures !Missing(tableToken) && !IsValidTokenFormat(tableToken.value) ==> response == Error(400, InvalidTableToken)
    ensures !Missing(tableToken) && IsValidTokenFormat(tableToken.value) ==> response.Ok?
    ensures response.Ok? ==>
      && response.body.count == |response.body.npcs|
      && (forall k :: 0 <= k < |response.body.npcs| ==>
            exists i :: 0 <= i < |db.npcs| && db.npcs[i].tableToken == CleanToken(tableToken.value)
              && response.body.npcs[k] == ViewOf(db.npcs[i]))
      && (forall i :: 0 <= i < |db.npcs| && db.npcs[i].tableToken == CleanToken(tableToken.value) ==>
            ViewOf(db.npcs[i]) in response.body.npcs)
  {
    if Missing(tableToken) then Error(400, TableTokenRequired)
    else if !IsValidTokenFormat(tableToken.value) then Error(400, InvalidTableToken)
    else
      var listed := Listing(db.npcs, CleanToken(tableToken.value));
      ListingContents(db.npcs, CleanToken(tableToken.value));
      Ok(NpcList(listed, |listed|))
  }

  /** The listing is newest first: timestamps strictly decrease along it. */
  lemma ListingNewestFirst(db: Database, tableToken: string)
    requires db.Valid()
    ensures var listed := Listing(db.npcs, tableToken);
      forall a, b :: 0 <= a < b < |listed| ==> listed[a].createdAt > listed[b].createdAt
  {
    NpcsAtChronological(db.npcs, tableToken, db.clock);
  }

  /**
   * `POST /api/npcs`: 400 without a name or an origin, 400 naming the first
   * attribute that is not a number, 400 without a table token or with a
   * malformed one, 404 for an unknown table; otherwise one new NPC with
   * `highlight_skill` and `dark_secret` defaulting to `''`, which heads the
   * table's listing.
   */
  method Post(db: Database, request: CreateNpcRequest) returns (response: Response<nat>)
    requires db.Valid()
    modifies db
    ensures db.Valid()
    ensures Missing(request.name) || Missing(request.origin) ==>
      response == Error(400, NameAndOriginRequired) && unchanged(db)
    ensures !Missing(request.name) && !Missing(request.origin) ==>
      var failed := FirstNonNumber(request.attributes, AttributeNames);
      if failed.Some? then response == Error(400, AttributeMessage(failed.value)) && unchanged(db)
      else if Missing(request.tableToken) then response == Error(400, TableTokenRequired) && unchanged(db)
      else if !IsValidTokenFormat(request.tableToken.value) then response == Error(400, InvalidTableToken) && unchanged(db)
      else if FindTableByToken(old(db.tables), CleanToken(request.tableToken.value)).None? then
        response == Error(404, TableNotFound) && unchanged(db)
      else
        var npc := Npc(|old(db.npcs)| + 1, CleanToken(request.tableToken.value), request.name.value,
                       request.origin.value, AttributesOf(request.attributes),
                       StringOr(request.highlightSkill, ""), StringOr(request.darkSecret, ""), old(db.clock));
        && db.npcs == old(db.npcs) + [npc]
        && db.users == old(db.users) && db.tables == old(db.tables) && db.characters == old(db.characters)
        && db.clock == old(db.clock) + 1
        && response == Ok(npc.id)
        && Get(db, request.tableToken).Ok?
        && Get(db, request.tableToken).body.npcs[0] == ViewOf(npc)
  {
    if Missing(request.name) || Missing(request.origin) {
      return Error(400, NameAndOriginRequired);
    }
    var failed := CheckAttributes(request.attributes);
    if failed.Some? {
      return Error(400, AttributeMessage(failed.value));
    }
    if Missing(request.tableToken) {
      return Error(400, TableTokenRequired);
    }
    if !IsValidTokenFormat(request.tableToken.value) {
      return Error(400, InvalidTableToken);
    }
    var tableToken := CleanToken(request.tableToken.value);
    if FindTableByToken(db.tables, tableToken).None? {
      return Error(404, TableNotFound);
    }
    var npc := db.InsertNpc(tableToken, request.name.value, request.origin.value, AttributesOf(request.attributes),
                            StringOr(request.highlightSkill, ""), StringOr(request.darkSecret, ""));
    NpcsAtAppend(old(db.npcs), npc, tableToken);
    response := Ok(npc.id);
  }
}
