/**
 * The model records the web client holds and the shared `Models` service that keeps the
 * current user's list of them, looked up by id.
 */
module ModelStore {
  import opened Wrappers

  type ModelId = int

  /** A model as the server sends it: its id, the four editable fields and its proof count. */
  datatype Model = Model(
    id: ModelId,
    name: string,
    title: string,
    description: string,
    keyFile: string,
    numAllProofSteps: nat,
    isExercise: bool)

  /**
   * The position of the first model with the given id, if there is one: `Models.getModel(id)`
   * returns the model at that position, or undefined.
   */
  function FindModel(models: seq<Model>, id: ModelId): (r: Option<nat>)
    ensures r.Some? ==> r.value < |models| && models[r.value].id == id
    ensures r.Some? ==> forall k :: 0 <= k < r.value ==> models[k].id != id
    ensures r.None? <==> forall k :: 0 <= k < |models| ==> models[k].id != id
  {
    if models == [] then None
    else if models[0].id == id then Some(0)
    else
      match FindModel(models[1..], id)
      case None => None
      case Some(k) => Some(k + 1)
  }

  /** The registry entry after the dialog's update: the four edited fields, everything else kept. */
  function WithEdits(entry: Model, edited: Model): (r: Model)
    ensures r.id == entry.id && r.numAllProofSteps == entry.numAllProofSteps && r.isExercise == entry.isExercise
    ensures r.name == edited.name && r.title == edited.title
    ensures r.description == edited.description && r.keyFile == edited.keyFile
  {
    entry.(name := edited.name, title := edited.title, description := edited.description, keyFile := edited.keyFile)
  }

  /** The `Models` service: the list of the user's models, shared by all controllers. */
  class Registry {
    var models: seq<Model>

    constructor(models: seq<Model>)
      ensures this.models == models
    {
      this.models := models;
    }
  }
}
