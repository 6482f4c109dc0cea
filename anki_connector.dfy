/**
 * Card assembly for Anki (`AnkiConnector` in modules/anki_connector.py).
 *
 * The HTTP exchange with AnkiConnect is an oracle: every call of `_invoke`
 * receives the decoded reply of the server as a parameter, `None` standing
 * for a transport failure (connection refused, timeout, HTTP error status,
 * undecodable body). `CheckReply` is what `_invoke` does with that reply.
 * Python's `None` is `Null` throughout; an `_invoke` that raises is `None`.
 * The requests the connector sends are recorded, as `Request` values, in a
 * ghost log so that what is sent (and in which order) can be stated;
 * `RequestPayload` is the JSON body each of them is posted as.
 */
module AnkiConnect {
  import opened Wrappers
  import CardFormatter

  /** A JSON value as `requests` decodes it. */
  datatype Json =
    | Null
    | Bool(b: bool)
    | Int(i: int)
    | Str(s: string)
    | List(items: seq<Json>)
    | Object(members: map<string, Json>)

  const ApiVersion: int := 6
  const DefaultFront: string := "Frente"
  const DefaultBack: string := "Verso"

  /** The field names used when the model cannot be queried. */
  const FallbackNames: Json := List([Str(DefaultFront), Str(DefaultBack)])

  /** The note `create_card` builds, before it is encoded as JSON. */
  datatype Note = Note(deckName: string, modelName: string, fields: map<string, string>,
                       tags: seq<string>, allowDuplicate: bool)

  /** The two actions of the card path: `modelFieldNames` and `addNote`. */
  datatype Request =
    | ModelFieldNames(modelName: string)
    | AddNote(note: Note)

  // ------------------------------------------------ _invoke

  /** The body posted for `action` with `params`. */
  function Payload(action: string, params: map<string, Json>): (p: Json)
    ensures p.Object? && p.members.Keys == {"action", "version", "params"}
    ensures p.members["action"] == Str(action)
    ensures p.members["version"] == Int(ApiVersion)
    ensures p.members["params"] == Object(params)
  {
    Object(map["action" := Str(action), "version" := Int(ApiVersion), "params" := Object(params)])
  }

  /** `_invoke`'s check of the decoded reply: `None` when it raises. A reply
      must be an object with exactly two keys whose "error" is missing or
      null; then its "result" (null when missing) is returned. Anything
      other than an object fails on `len` or `.get`. */
  function CheckReply(reply: Option<Json>): (r: Option<Json>)
    ensures r.Some? <==>
              && reply.Some? && reply.value.Object?
              && |reply.value.members| == 2
              && ("error" in reply.value.members ==> reply.value.members["error"] == Null)
    ensures r.Some? && "result" in reply.value.members ==> r.value == reply.value.members["result"]
    ensures r.Some? && "result" !in reply.value.members ==> r.value == Null
  {
    match reply
    case None => None
    case Some(Object(m)) =>
      if |m| != 2 then None
      else if "error" in m && m["error"] != Null then None
      else if "result" in m then Some(m["result"])
      else Some(Null)
    case Some(_) => None
  }

  /** What AnkiConnect sends back for a successful action. */
  function SuccessReply(result: Json): Json {
    Object(map["result" := result, "error" := Null])
  }

  /** What AnkiConnect sends back for a failed action. */
  function ErrorReply(message: string): Json {
    Object(map["result" := Null, "error" := Str(message)])
  }

  /** The reply check undoes AnkiConnect's reply wrapping: a success reply
      yields its result, an error reply is a failure. */
  lemma ReplyRoundTrip(result: Json, message: string)
    ensures CheckReply(Some(SuccessReply(result))) == Some(result)
    ensures CheckReply(Some(ErrorReply(message))) == None
  {
    assert SuccessReply(result).members.Keys == {"result", "error"};
    assert ErrorReply(message).members.Keys == {"result", "error"};
  }

  // ------------------------------------------------ field names and notes

  /** The cache after `get_model_field_names`: a cached value is kept and no
      query is made; otherwise the query's result is stored, and the Portuguese
      defaults when the query fails. A query that returns null leaves the
      cache empty, so the next call queries again. */
  function NextFieldNames(cached: Json, reply: Option<Json>): Json {
    if cached != Null then cached
    else match CheckReply(reply)
      case None => FallbackNames
      case Some(r) => r
  }

  /** The cache is filled at most once: once it holds a value, no reply
      changes it, and a failed query fills it with the defaults. */
  lemma CacheIsOneShot(cached: Json, reply: Option<Json>, later: Option<Json>)
    ensures cached != Null ==> NextFieldNames(cached, reply) == cached
    ensures cached == Null && CheckReply(reply) == None ==> NextFieldNames(cached, reply) == FallbackNames
    ensures NextFieldNames(cached, reply) != Null ==>
              NextFieldNames(NextFieldNames(cached, reply), later) == NextFieldNames(cached, reply)
  {
  }

  /** `create_card`'s choice of the front and back field names from the
      cached value: the first and second names, "Frente" and "Verso" for the
      missing ones. `len` and indexing fail on null, numbers, booleans and on
      a non-empty object; an indexed string gives its characters. */
  function FieldNamesFor(names: Json): (r: Option<(string, string)>)
    ensures names.List? && |names.items| >= 2 && names.items[0].Str? && names.items[1].Str? ==>
              r == Some((names.items[0].s, names.items[1].s))
    ensures names.List? && |names.items| == 1 && names.items[0].Str? ==> r == Some((names.items[0].s, DefaultBack))
    ensures names == List([]) || names == Object(map[]) ==> r == Some((DefaultFront, DefaultBack))
    ensures names.Null? || names.Int? || names.Bool? ==> r == None
  {
    match names
    case List(items) =>
      if |items| > 0 && !items[0].Str? then None
      else if |items| > 1 && !items[1].Str? then None
      else Some((if |items| > 0 then items[0].s else DefaultFront, if |items| > 1 then items[1].s else DefaultBack))
    case Str(s) =>
      Some((if |s| > 0 then [s[0]] else DefaultFront, if |s| > 1 then [s[1]] else DefaultBack))
    case Object(m) =>
      if |m| == 0 then Some((DefaultFront, DefaultBack)) else None
    case _ => None
  }

  /** The fallback names are the Portuguese defaults, in order. */
  lemma FallbackFieldNames()
    ensures FieldNamesFor(FallbackNames) == Some((DefaultFront, DefaultBack))
  {
  }

  /** The tags as a JSON list. */
  function TagList(tags: seq<string>): (r: Json)
    ensures r.List? && |r.items| == |tags|
    ensures forall k :: 0 <= k < |tags| ==> r.items[k] == Str(tags[k])
  {
    List(seq(|tags|, k requires 0 <= k < |tags| => Str(tags[k])))
  }

  /** The note `create_card` sends. Its field map is a Python dict literal:
      when both names are equal the back wins and only one field is sent. */
  function BuildNote(deck: string, model: string, frontField: string, backField: string,
                     front: string, back: string, tags: seq<string>): (note: Note)
    ensures note.deckName == deck && note.modelName == model && note.tags == tags
    ensures !note.allowDuplicate
    ensures note.fields.Keys == {frontField, backField}
    ensures note.fields[backField] == back
    ensures frontField != backField ==> note.fields[frontField] == front
  {
    Note(deck, model, map[frontField := front][backField := back], tags, false)
  }

  /** A note as the JSON object AnkiConnect expects. */
  function NoteJson(note: Note): Json {
    Object(map[
      "deckName" := Str(note.deckName),
      "modelName" := Str(note.modelName),
      "fields" := Object(map f | f in note.fields :: Str(note.fields[f])),
      "tags" := TagList(note.tags),
      "options" := Object(map["allowDuplicate" := Bool(note.allowDuplicate)])])
  }

  /** The body `_invoke` posts for a request. */
  function RequestPayload(r: Request): Json {
    match r
    case ModelFieldNames(model) => Payload("modelFieldNames", map["modelName" := Str(model)])
    case AddNote(note) => Payload("addNote", map["note" := NoteJson(note)])
  }

  /** The `addNote` body carries the deck, the model, one string field per
      field name, the tags in order and `allowDuplicate: false`, under
      version 6. */
  lemma AddNotePayload(deck: string, model: string, frontField: string, backField: string,
                       front: string, back: string, tags: seq<string>)
    ensures var p := RequestPayload(AddNote(BuildNote(deck, model, frontField, backField, front, back, tags)));
            && p.Object? && p.members["action"] == Str("addNote") && p.members["version"] == Int(ApiVersion)
            && p.members["params"].Object? && p.members["params"].members.Keys == {"note"}
            && var n := p.members["params"].members["note"];
               && n.Object? && n.members.Keys == {"deckName", "modelName", "fields", "tags", "options"}
               && n.members["deckName"] == Str(deck) && n.members["modelName"] == Str(model)
               && n.members["fields"].Object? && n.members["fields"].members.Keys == {frontField, backField}
               && n.members["fields"].members[backField] == Str(back)
               && (frontField != backField ==> n.members["fields"].members[frontField] == Str(front))
               && n.members["tags"].List? && |n.members["tags"].items| == |tags|
               && (forall k :: 0 <= k < |tags| ==> n.members["tags"].items[k] == Str(tags[k]))
               && n.members["options"] == Object(map["allowDuplicate" := Bool(false)])
  {
    var note := BuildNote(deck, model, frontField, backField, front, back, tags);
    var fields := map f | f in note.fields :: Str(note.fields[f]);
    assert fields.Keys == note.fields.Keys;
  }

  /** The `modelFieldNames` body asks for the model by name, under version 6. */
  lemma FieldNamesPayload(model: string)
    ensures var p := RequestPayload(ModelFieldNames(model));
            && p.Object? && p.members["action"] == Str("modelFieldNames")
            && p.members["version"] == Int(ApiVersion)
            && p.members["params"] == Object(map["modelName" := Str(model)])
  {
  }

  /** The id `create_card` returns, given the field-name cache it ends with:
      null when the names cannot be used or the request fails, the server's
      result otherwise. */
  function CardId(names: Json, addReply: Option<Json>): (id: Json)
    ensures FieldNamesFor(names) == None || CheckReply(addReply) == None ==> id == Null
    ensures FieldNamesFor(names) != None && CheckReply(addReply) != None ==> id == CheckReply(addReply).value
  {
    if FieldNamesFor(names) == None then Null
    else match CheckReply(addReply)
      case None => Null
      case Some(r) => r
  }

  /** The requests one `create_card` call sends: the field-name query when the
      cache is empty, then the note when the names are usable. */
  function CardRequests(cached: Json, namesReply: Option<Json>, deck: string, model: string,
                        front: string, back: string, tags: seq<string>): seq<Request>
  {
    var names := NextFieldNames(cached, namesReply);
    (if cached == Null then [ModelFieldNames(model)] else [])
    + match FieldNamesFor(names)
      case None => []
      case Some((f, b)) => [AddNote(BuildNote(deck, model, f, b, front, back, tags))]
  }

  // ------------------------------------------------ collecting ids

  /** Python truthiness of a decoded id. */
  predicate Truthy(j: Json) {
    match j
    case Null => false
    case Bool(b) => b
    case Int(i) => i != 0
    case Str(s) => s != []
    case List(items) => items != []
    case Object(m) => |m| > 0
  }

  /** The truthy ids, in order. */
  function KeepTruthy(ids: seq<Json>): (r: seq<Json>)
    ensures |r| <= |ids|
    ensures forall k :: 0 <= k < |r| ==> Truthy(r[k]) && r[k] in ids
    ensures |r| == |ids| <==> forall k :: 0 <= k < |ids| ==> Truthy(ids[k])
  {
    if ids == [] then []
    else if Truthy(ids[0]) then [ids[0]] + KeepTruthy(ids[1..])
    else KeepTruthy(ids[1..])
  }

  /** Filtering works item by item and keeps the order: the ids kept from
      `a + b` are those kept from `a`, then those kept from `b`. */
  lemma {:induction false} KeepTruthyAppend(a: seq<Json>, b: seq<Json>)
    ensures KeepTruthy(a + b) == KeepTruthy(a) + KeepTruthy(b)
  {
    if a == [] {
      assert a + b == b;
    } else {
      assert (a + b)[1..] == a[1..] + b;
      KeepTruthyAppend(a[1..], b);
    }
  }

  /** One id is kept exactly when it is truthy. */
  lemma KeepTruthyOne(x: Json)
    ensures KeepTruthy([x]) == if Truthy(x) then [x] else []
  {
    assert [x][1..] == [];
  }

  /** The `if id: card_ids.append(id)` step: a truthy id is appended at the
      end, any other id is dropped. */
  lemma KeepTruthySnoc(ids: seq<Json>, x: Json)
    ensures KeepTruthy(ids + [x]) == KeepTruthy(ids) + (if Truthy(x) then [x] else [])
  {
    KeepTruthyAppend(ids, [x]);
    KeepTruthyOne(x);
  }

  /** For the two cards: card 1's id comes first, and both are kept iff both
      are truthy. */
  lemma KeepTruthyPair(id1: Json, id2: Json)
    ensures KeepTruthy([id1, id2]) ==
              (if Truthy(id1) then [id1] else []) + (if Truthy(id2) then [id2] else [])
    ensures |KeepTruthy([id1, id2])| == 2 <==> Truthy(id1) && Truthy(id2)
  {
    assert [id1, id2][1..] == [id2];
    assert [id2][1..] == [];
  }

  /** Appending each truthy id in turn keeps exactly the truthy ones. */
  lemma CollectTwo(id1: Json, id2: Json, kept1: seq<Json>, kept2: seq<Json>)
    requires kept1 == if Truthy(id1) then [] + [id1] else []
    requires kept2 == if Truthy(id2) then kept1 + [id2] else kept1
    ensures kept2 == KeepTruthy([id1, id2])
  {
    KeepTruthyPair(id1, id2);
  }

  // ------------------------------------------------ the connector

  class AnkiConnector {
    const ankiUrl: string
    const cardModel: string
    /** `_field_names`: `Null` until a query returned a value. */
    var fieldNames: Json
    /** The requests posted so far, in order. */
    ghost var sent: seq<Request>

    constructor(ankiUrl: string, cardModel: string)
      ensures this.ankiUrl == ankiUrl && this.cardModel == cardModel
      ensures fieldNames == Null && sent == []
    {
      this.ankiUrl := ankiUrl;
      this.cardModel := cardModel;
      fieldNames := Null;
      sent := [];
    }

    /** `_invoke`: posts the request's payload and checks the reply. */
    method Invoke(request: Request, reply: Option<Json>) returns (r: Option<Json>)
      modifies this
      ensures r == CheckReply(reply)
      ensures sent == old(sent) + [request]
      ensures fieldNames == old(fieldNames)
    {
      sent := sent + [request];
      r := CheckReply(reply);
    }

    /** `get_model_field_names`: queries only while nothing is cached, stores
        the result or, on failure, the defaults, and returns the cache. */
    method GetModelFieldNames(reply: Option<Json>) returns (names: Json)
      modifies this
      ensures names == fieldNames == NextFieldNames(old(fieldNames), reply)
      ensures sent == old(sent) + (if old(fieldNames) == Null then [ModelFieldNames(cardModel)] else [])
    {
      if fieldNames == Null {
        var r := Invoke(ModelFieldNames(cardModel), reply);
        match r {
          case None => fieldNames := FallbackNames;
          case Some(v) => fieldNames := v;
        }
      }
      names := fieldNames;
    }

    /** `create_card`: the field names (through the cache), the note, the
        `addNote` request; null instead of an exception on any failure. */
    method CreateCard(deck: string, front: string, back: string, tags: seq<string>,
                      namesReply: Option<Json>, addReply: Option<Json>) returns (noteId: Json)
      modifies this
      ensures fieldNames == NextFieldNames(old(fieldNames), namesReply)
      ensures noteId == CardId(fieldNames, addReply)
      ensures sent == old(sent) + CardRequests(old(fieldNames), namesReply, deck, cardModel, front, back, tags)
    {
      var names := GetModelFieldNames(namesReply);
      match FieldNamesFor(names) {
        case None =>
          noteId := Null;
        case Some((frontField, backField)) =>
          var note := BuildNote(deck, cardModel, frontField, backField, front, back, tags);
          var r := Invoke(AddNote(note), addReply);
          noteId := if r.Some? then r.value else Null;
      }
    }

    /** `create_flashcards`: card 1 is the image front with the back without
        image, card 2 the word front with the back with image, created in
        that order; the truthy ids are returned, card 1's first. */
    method CreateFlashcards(word: string, content: string, imageFilename: string, deck: string,
                            tags: seq<string>,
                            namesReply1: Option<Json>, addReply1: Option<Json>,
                            namesReply2: Option<Json>, addReply2: Option<Json>)
      returns (cardIds: seq<Json>)
      modifies this
      ensures var names1 := NextFieldNames(old(fieldNames), namesReply1);
              var names2 := NextFieldNames(names1, namesReply2);
              && fieldNames == names2
              && cardIds == KeepTruthy([CardId(names1, addReply1), CardId(names2, addReply2)])
              && sent == old(sent)
                 + CardRequests(old(fieldNames), namesReply1, deck, cardModel,
                                CardFormatter.FormatFrontImage(imageFilename),
                                CardFormatter.BackHtml(word, content, imageFilename, false), tags)
                 + CardRequests(names1, namesReply2, deck, cardModel,
                                CardFormatter.FormatFrontWord(word),
                                CardFormatter.BackHtml(word, content, imageFilename, true), tags)
    {
      cardIds := [];
      var frontImage := CardFormatter.FormatFrontImage(imageFilename);
      var backFull := CardFormatter.FormatBack(word, content, imageFilename, false);
      var id1 := CreateCard(deck, frontImage, backFull, tags, namesReply1, addReply1);
      if Truthy(id1) {
        cardIds := cardIds + [id1];
      }
      ghost var kept1 := cardIds;
      var frontWord := CardFormatter.FormatFrontWord(word);
      var backWithImage := CardFormatter.FormatBack(word, content, imageFilename, true);
      var id2 := CreateCard(deck, frontWord, backWithImage, tags, namesReply2, addReply2);
      if Truthy(id2) {
        cardIds := cardIds + [id2];
      }
      CollectTwo(id1, id2, kept1, cardIds);
    }
  }
}
