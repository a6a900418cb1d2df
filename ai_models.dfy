/**
 * The AI-model registry: a list of model records keyed by `id`, kept as one
 * stored document. `addModel`, `updateModel` and `deleteModel` read the list,
 * validate, change it (append, replace the first match, remove the first
 * match) and write it back; every failure leaves the stored document as it was.
 */
module AiModels {
  import opened Wrappers

  /** One configured model. The optional fields are carried along but never inspected. */
  datatype AiModel = AiModel(
    id: string,
    modelLabel: string,
    apiUrl: string,
    apiKey: string,
    description: Option<string>,
    icon: Option<string>,
    cost: Option<real>)

  /**
   * What the database holds under the registry's key: no document, a read
   * that throws, an array of models, or any other (non-array) value.
   */
  datatype StoredDoc = NoDocument | ReadError | ArrayDoc(items: seq<AiModel>) | OtherDoc

  datatype Error = MissingFields | DuplicateId | NotFound

  /** The error text reported for each failure. */
  function Message(e: Error): string
  {
    match e
    case MissingFields => "模型ID、名称、API地址和密钥不能为空"
    case DuplicateId => "该模型ID已存在"
    case NotFound => "未找到该模型"
  }

  /** The `{ success, error? }` reply of the three operations. */
  datatype Response = Response(success: bool, error: Option<string>)

  /** The list the operations start from: the stored array, or the empty list otherwise. */
  function ModelsOf(doc: StoredDoc): seq<AiModel>
  {
    if doc.ArrayDoc? then doc.items else []
  }

  // ---------------------------------------------------------------------
  // Searches and validation
  // ---------------------------------------------------------------------

  /** No required field is empty (`id`, `label`, `apiUrl`, `apiKey`; `label` is `modelLabel` here, `label` being a Dafny keyword). */
  predicate HasRequiredFields(m: AiModel)
  {
    m.id != "" && m.modelLabel != "" && m.apiUrl != "" && m.apiKey != ""
  }

  /** `models.some(m => m.id === id)`. */
  function ContainsId(models: seq<AiModel>, id: string): (b: bool)
    ensures b <==> exists j :: 0 <= j < |models| && models[j].id == id
  {
    if models == [] then false
    else models[0].id == id || ContainsId(models[1..], id)
  }

  /** `models.findIndex(m => m.id === id)`: the first matching position, or -1. */
  function FindIndex(models: seq<AiModel>, id: string): (k: int)
    ensures -1 <= k < |models|
    ensures k == -1 <==> !ContainsId(models, id)
    ensures k >= 0 ==> models[k].id == id
    ensures k >= 0 ==> forall j :: 0 <= j < k ==> models[j].id != id
  {
    if models == [] then -1
    else if models[0].id == id then 0
    else
      var k := FindIndex(models[1..], id);
      if k == -1 then -1 else k + 1
  }

  /** No two entries share an `id`. */
  predicate UniqueIds(models: seq<AiModel>)
  {
    forall i, j :: 0 <= i < j < |models| ==> models[i].id != models[j].id
  }

  // ---------------------------------------------------------------------
  // The three operations on the list
  // ---------------------------------------------------------------------

  /** Adding: validate, reject a duplicate `id`, append at the end. */
  function Add(models: seq<AiModel>, m: AiModel): (r: Result<seq<AiModel>, Error>)
    ensures !HasRequiredFields(m) ==> r == Err(MissingFields)
    ensures HasRequiredFields(m) && ContainsId(models, m.id) ==> r == Err(DuplicateId)
    ensures r.Ok? <==> HasRequiredFields(m) && !ContainsId(models, m.id)
    ensures r.Ok? ==> |r.value| == |models| + 1 && r.value[..|models|] == models && r.value[|models|] == m
  {
    if !HasRequiredFields(m) then Err(MissingFields)
    else if ContainsId(models, m.id) then Err(DuplicateId)
    else Ok(models + [m])
  }

  /** Updating: validate, find the first entry with the same `id`, replace it. */
  function Update(models: seq<AiModel>, m: AiModel): (r: Result<seq<AiModel>, Error>)
    ensures !HasRequiredFields(m) ==> r == Err(MissingFields)
    ensures HasRequiredFields(m) && !ContainsId(models, m.id) ==> r == Err(NotFound)
    ensures r.Ok? <==> HasRequiredFields(m) && ContainsId(models, m.id)
    ensures r.Ok? ==> |r.value| == |models|
    ensures r.Ok? ==> r.value[FindIndex(models, m.id)] == m
    ensures r.Ok? ==> forall j :: 0 <= j < |models| && j != FindIndex(models, m.id) ==> r.value[j] == models[j]
  {
    if !HasRequiredFields(m) then Err(MissingFields)
    else
      var index := FindIndex(models, m.id);
      if index == -1 then Err(NotFound) else Ok(models[index := m])
  }

  /** Deleting: find the first entry with the given `id` and splice it out. */
  function Delete(models: seq<AiModel>, id: string): (r: Result<seq<AiModel>, Error>)
    ensures !ContainsId(models, id) ==> r == Err(NotFound)
    ensures r.Ok? <==> ContainsId(models, id)
    ensures r.Ok? ==> |r.value| == |models| - 1
    ensures r.Ok? ==> forall j :: 0 <= j < FindIndex(models, id) ==> r.value[j] == models[j]
    ensures r.Ok? ==> forall j :: FindIndex(models, id) <= j < |r.value| ==> r.value[j] == models[j + 1]
  {
    var index := FindIndex(models, id);
    if index == -1 then Err(NotFound) else Ok(models[..index] + models[index + 1..])
  }

  // ---------------------------------------------------------------------
  // What the operations keep and undo
  // ---------------------------------------------------------------------

  /** The duplicate check keeps the ids unique, and the new id is then present. */
  lemma AddPreservesUnique(models: seq<AiModel>, m: AiModel)
    requires UniqueIds(models) && Add(models, m).Ok?
    ensures UniqueIds(Add(models, m).value)
    ensures ContainsId(Add(models, m).value, m.id)
  {
    var after := Add(models, m).value;
    forall i, j | 0 <= i < j < |after| ensures after[i].id != after[j].id {
      if j == |models| {
        assert after[i] == models[i];
      } else {
        assert after[i] == models[i] && after[j] == models[j];
      }
    }
    assert after[|models|].id == m.id;
  }

  /** The replacement carries the id it replaces, so the ids stay unique. */
  lemma UpdatePreservesUnique(models: seq<AiModel>, m: AiModel)
    requires UniqueIds(models) && Update(models, m).Ok?
    ensures UniqueIds(Update(models, m).value)
  {
    var after := Update(models, m).value;
    forall i, j | 0 <= i < j < |after| ensures after[i].id != after[j].id {
      assert after[i].id == models[i].id && after[j].id == models[j].id;
    }
  }

  /** Removing one entry keeps the ids unique and, with unique ids, leaves none with the removed id. */
  lemma DeletePreservesUnique(models: seq<AiModel>, id: string)
    requires UniqueIds(models) && Delete(models, id).Ok?
    ensures UniqueIds(Delete(models, id).value)
    ensures !ContainsId(Delete(models, id).value, id)
  {
    var after := Delete(models, id).value;
    var k := FindIndex(models, id);
    assert forall j :: 0 <= j < |after| ==> after[j] == models[if j < k then j else j + 1];
    forall i, j | 0 <= i < j < |after| ensures after[i].id != after[j].id {
      var i', j' := if i < k then i else i + 1, if j < k then j else j + 1;
      assert after[i] == models[i'] && after[j] == models[j'] && i' < j';
    }
    forall j | 0 <= j < |after| ensures after[j].id != id {
      var j' := if j < k then j else j + 1;
      assert after[j] == models[j'] && j' != k;
    }
  }

  /** Without unique ids only the first match goes: a later entry with the same id remains. */
  lemma DeleteKeepsLaterDuplicates(models: seq<AiModel>, id: string, j: nat)
    requires FindIndex(models, id) < j < |models| && models[j].id == id
    ensures Delete(models, id).Ok? && ContainsId(Delete(models, id).value, id)
  {
    var after := Delete(models, id).value;
    assert after[j - 1] == models[j];
  }

  /** Deleting the model just added gives the original list back. */
  lemma AddThenDelete(models: seq<AiModel>, m: AiModel)
    requires Add(models, m).Ok?
    ensures Delete(Add(models, m).value, m.id) == Ok(models)
  {
    var after := Add(models, m).value;
    var k := FindIndex(after, m.id);
    assert after[|models|].id == m.id;
    assert k == |models|;
    assert after[..k] + after[k + 1..] == models;
  }

  /** Updating twice with the same record changes nothing the second time. */
  lemma UpdateIdempotent(models: seq<AiModel>, m: AiModel)
    requires Update(models, m).Ok?
    ensures Update(Update(models, m).value, m) == Update(models, m)
  {
    var after := Update(models, m).value;
    var k := FindIndex(models, m.id);
    assert FindIndex(after, m.id) == k by {
      assert forall j :: 0 <= j < k ==> after[j] == models[j];
      assert after[k].id == m.id;
    }
    assert after[k := m] == after;
  }

  // ---------------------------------------------------------------------
  // The registry object: one stored document, read and written back
  // ---------------------------------------------------------------------

  class AiModelsApi {
    /** The document stored under the registry's key. */
    var stored: StoredDoc

    constructor (doc: StoredDoc)
      ensures stored == doc
    {
      stored := doc;
    }

    /** The stored array when there is one; the empty list when it is missing, not an array, or unreadable. */
    method GetAllModels() returns (models: seq<AiModel>)
      ensures stored.ArrayDoc? ==> models == stored.items
      ensures !stored.ArrayDoc? ==> models == []
    {
      if stored.ReadError? {
        return [];
      }
      if stored.ArrayDoc? {
        return stored.items;
      }
      return [];
    }

    method AddModel(model: AiModel) returns (response: Response)
      modifies this
      ensures response.success <==> Add(ModelsOf(old(stored)), model).Ok?
      ensures response.success ==> stored == ArrayDoc(Add(ModelsOf(old(stored)), model).value) && response.error == None
      ensures !response.success ==> stored == old(stored)
      ensures !response.success ==> response.error == Some(Message(Add(ModelsOf(old(stored)), model).error))
      ensures UniqueIds(ModelsOf(old(stored))) ==> UniqueIds(ModelsOf(stored))
    {
      if !HasRequiredFields(model) {
        return Response(false, Some(Message(MissingFields)));
      }
      var models := GetAllModels();
      if ContainsId(models, model.id) {
        return Response(false, Some(Message(DuplicateId)));
      }
      if UniqueIds(models) {
        AddPreservesUnique(models, model);
      }
      models := models + [model];
      stored := ArrayDoc(models);
      return Response(true, None);
    }

    method UpdateModel(model: AiModel) returns (response: Response)
      modifies this
      ensures response.success <==> Update(ModelsOf(old(stored)), model).Ok?
      ensures response.success ==> stored == ArrayDoc(Update(ModelsOf(old(stored)), model).value) && response.error == None
      ensures !response.success ==> stored == old(stored)
      ensures !response.success ==> response.error == Some(Message(Update(ModelsOf(old(stored)), model).error))
      ensures UniqueIds(ModelsOf(old(stored))) ==> UniqueIds(ModelsOf(stored))
    {
      if !HasRequiredFields(model) {
        return Response(false, Some(Message(MissingFields)));
      }
      var models := GetAllModels();
      var index := FindIndex(models, model.id);
      if index == -1 {
        return Response(false, Some(Message(NotFound)));
      }
      if UniqueIds(models) {
        UpdatePreservesUnique(models, model);
      }
      models := models[index := model];
      stored := ArrayDoc(models);
      return Response(true, None);
    }

    method DeleteModel(modelId: string) returns (response: Response)
      modifies this
      ensures response.success <==> Delete(ModelsOf(old(stored)), modelId).Ok?
      ensures response.success ==> stored == ArrayDoc(Delete(ModelsOf(old(stored)), modelId).value) && response.error == None
      ensures !response.success ==> stored == old(stored)
      ensures !response.success ==> response.error == Some(Message(NotFound))
      ensures UniqueIds(ModelsOf(old(stored))) ==> UniqueIds(ModelsOf(stored)) && !ContainsId(ModelsOf(stored), modelId)
    {
      var models := GetAllModels();
      var index := FindIndex(models, modelId);
      if index == -1 {
        return Response(false, Some(Message(NotFound)));
      }
      if UniqueIds(models) {
        DeletePreservesUnique(models, modelId);
      }
      models := models[..index] + models[index + 1..];
      stored := ArrayDoc(models);
      return Response(true, None);
    }
  }
}
