/**
 * The model dialog (`ModelDialogCtrl`): an edit session on one model. The dialog keeps the
 * working copy `model` the form edits and a snapshot `origModel` of the model as loaded or
 * last saved. Saving first deletes the model's proof steps when there are any, then posts the
 * four editable fields; on success the shared registry entry takes them over.
 *
 * The server's replies are parameters, so each save runs as one sequential chain, and the
 * requests and interface actions the dialog issues are recorded, in order, as effects.
 */
module ModelDialog {
  import opened Wrappers
  import opened JsLib
  import opened ModelStore

  /** The requests and interface actions of the dialog, in the order they are issued. */
  datatype Effect =
    | DeleteProofStepsRequest
    | UpdateRequest(name: string, title: string, description: string, content: string)
    | CloseDialog
    | RunSaveCmd
    | FormError(textStatus: string)
    | ParseErrorShown(keyFile: string, textStatus: string)

  /** The reply to the update request. */
  datatype UpdateReply = UpdateOk | UpdateFailed(textStatus: string)

  /** The result of `checkName`: `true`, or the message shown for an invalid name. */
  datatype NameCheck = NameOk | NameRejected(message: string)

  /** Ten underscores: the placeholder a model still to be completed contains. */
  const CompletenessMarker: string := "__________"

  const MandatoryMessage: string := "Name is mandatory. Please enter a name."

  function DuplicateMessage(name: string): string {
    "Model with name " + name + " already exists. Please choose a different name."
  }

  /** The working copy differs from the snapshot in one of the four editable fields. */
  predicate IsDirty(model: Model, orig: Model) {
    orig.name != model.name || orig.title != model.title
    || orig.description != model.description || orig.keyFile != model.keyFile
  }

  /** `modelIsComplete`: a loaded model whose key file contains no placeholder. */
  function ModelIsComplete(model: Option<Model>): (r: bool)
    ensures r <==> model.Some? && forall i: nat :: !OccursAt(model.value.keyFile, CompletenessMarker, i)
  {
    model.Some? && IndexOfSub(model.value.keyFile, CompletenessMarker) < 0
  }

  /** The models other than the one with id `self` that have the given name (the `$.grep`). */
  function OthersNamed(models: seq<Model>, name: string, self: ModelId): (r: seq<Model>)
    ensures forall m :: m in r ==> m in models && m.name == name && m.id != self
    ensures forall m :: m in models && m.name == name && m.id != self ==> m in r
  {
    if models == [] then []
    else
      var rest := OthersNamed(models[1..], name, self);
      if models[0].name == name && models[0].id != self then [models[0]] + rest else rest
  }

  /**
   * `checkName`: a name must be given, and no other model may carry it; the model's own
   * entry does not count against it.
   */
  function CheckName(models: seq<Model>, self: ModelId, name: Option<string>): (r: NameCheck)
    ensures name.None? || name.value == "" ==> r == NameRejected(MandatoryMessage)
    ensures name.Some? && name.value != "" ==>
              (r == NameRejected(DuplicateMessage(name.value)) <==>
                 exists k :: 0 <= k < |models| && models[k].name == name.value && models[k].id != self)
    ensures r == NameOk <==>
              (name.Some? && name.value != ""
               && forall k :: 0 <= k < |models| ==> models[k].name != name.value || models[k].id == self)
  {
    if name.None? || name.value == "" then NameRejected(MandatoryMessage)
    else if |OthersNamed(models, name.value, self)| != 0 then
      assert OthersNamed(models, name.value, self)[0] in OthersNamed(models, name.value, self);
      NameRejected(DuplicateMessage(name.value))
    else
      assert forall k :: 0 <= k < |models| ==> models[k] in models;
      NameOk
  }

  /** A missing name is refused, another model's name is taken, and the model's own name is free. */
  lemma CheckNameExamples(m: Model, other: ModelId)
    requires m.name == "Existing" && other != m.id
    ensures CheckName([m], m.id, None) == NameRejected(MandatoryMessage)
    ensures CheckName([m], other, Some("Existing")) == NameRejected(DuplicateMessage("Existing"))
    ensures CheckName([m], m.id, Some("Existing")) == NameOk
  {
    assert [m][0] == m;
  }

  /** What the dialog's save flow reads and writes: the two copies, the registry and the effects. */
  datatype DialogState = DialogState(model: Model, origModel: Model, models: seq<Model>, effects: seq<Effect>)

  /** The update request for the working copy. */
  function UpdateOf(model: Model): Effect {
    UpdateRequest(model.name, model.title, model.description, model.keyFile)
  }

  /** Closing the dialog, then running the save command when one is set. */
  function CloseAndSave(saveCmdSet: bool): (r: seq<Effect>)
    ensures |r| >= 1 && r[0] == CloseDialog
    ensures DeleteProofStepsRequest !in r
    ensures RunSaveCmd in r <==> saveCmdSet
  {
    [CloseDialog] + if saveCmdSet then [RunSaveCmd] else []
  }

  /**
   * `uploadModel` with the server's reply. When the request succeeds and the registry has an
   * entry with the dialog's id, that entry takes over the four edited fields and the snapshot
   * becomes the working copy. The dialog then closes and runs the save command, if any (the
   * source calls it unguarded; an unset one throws, which ends the flow without further effect).
   * When the request fails, the form shows the error and the parse-error view opens.
   */
  function AfterUpload(st: DialogState, self: ModelId, saveCmdSet: bool, reply: UpdateReply): (r: DialogState)
    ensures r.model == st.model
    ensures |r.models| == |st.models|
    ensures |r.effects| > |st.effects| && r.effects[..|st.effects|] == st.effects
    ensures r.effects[|st.effects|] == UpdateOf(st.model)
    ensures DeleteProofStepsRequest !in r.effects[|st.effects|..]
    ensures CloseDialog in r.effects[|st.effects|..] <==> reply.UpdateOk?
    ensures RunSaveCmd in r.effects[|st.effects|..] <==> reply.UpdateOk? && saveCmdSet
    ensures reply.UpdateFailed? || FindModel(st.models, self).None? ==>
              r.origModel == st.origModel && r.models == st.models
    ensures reply.UpdateOk? && FindModel(st.models, self).Some? ==>
              var k := FindModel(st.models, self).value;
              r.origModel == st.model && !IsDirty(r.model, r.origModel)
              && r.models[k] == WithEdits(st.models[k], st.model)
              && forall k' :: 0 <= k' < |st.models| && k' != k ==> r.models[k'] == st.models[k']
  {
    var sent := st.effects + [UpdateOf(st.model)];
    match reply
    case UpdateFailed(textStatus) =>
      st.(effects := sent + [FormError(textStatus), ParseErrorShown(st.model.keyFile, textStatus)])
    case UpdateOk =>
      var closing := sent + CloseAndSave(saveCmdSet);
      assert closing[|st.effects|..] == [UpdateOf(st.model)] + CloseAndSave(saveCmdSet);
      match FindModel(st.models, self)
      case None => st.(effects := closing)
      case Some(k) =>
        st.(models := st.models[k := WithEdits(st.models[k], st.model)], origModel := st.model, effects := closing)
  }

  /** `deleteModelProofSteps` with the server's reply: on success the working copy has no proof steps. */
  function AfterDelete(st: DialogState, deleted: bool): (r: DialogState)
    ensures r.effects == st.effects + [DeleteProofStepsRequest]
    ensures r.origModel == st.origModel && r.models == st.models
    ensures deleted ==> r.model == st.model.(numAllProofSteps := 0)
    ensures !deleted ==> r.model == st.model
  {
    var sent := st.effects + [DeleteProofStepsRequest];
    if deleted then st.(model := st.model.(numAllProofSteps := 0), effects := sent)
    else st.(effects := sent)
  }

  /**
   * `checkModelData`: an unchanged model closes the dialog and reports `true`; a changed one
   * is saved, after deleting its proof steps when it has any, and reports `false`.
   */
  function AfterCheck(st: DialogState, self: ModelId, saveCmdSet: bool, deleted: bool, reply: UpdateReply)
    : (r: (DialogState, bool))
    ensures r.1 <==> !IsDirty(st.model, st.origModel)
    ensures r.1 ==> r.0 == st.(effects := st.effects + CloseAndSave(saveCmdSet))
    ensures !r.1 && st.model.numAllProofSteps == 0 ==> r.0 == AfterUpload(st, self, saveCmdSet, reply)
    ensures !r.1 && st.model.numAllProofSteps > 0 && !deleted ==>
              r.0 == st.(effects := st.effects + [DeleteProofStepsRequest])
    ensures !r.1 && st.model.numAllProofSteps > 0 && deleted ==>
              r.0 == AfterUpload(AfterDelete(st, true), self, saveCmdSet, reply)
  {
    if !IsDirty(st.model, st.origModel) then
      (st.(effects := st.effects + CloseAndSave(saveCmdSet)), true)
    else if st.model.numAllProofSteps > 0 then
      var afterDelete := AfterDelete(st, deleted);
      (if deleted then AfterUpload(afterDelete, self, saveCmdSet, reply) else afterDelete, false)
    else
      (AfterUpload(st, self, saveCmdSet, reply), false)
  }

  /** An unchanged model is never sent: closing it issues no request and changes no state. */
  lemma CleanCheckSendsNothing(st: DialogState, self: ModelId, saveCmdSet: bool, deleted: bool, reply: UpdateReply)
    requires !IsDirty(st.model, st.origModel)
    ensures var r := AfterCheck(st, self, saveCmdSet, deleted, reply);
            r.1 && r.0.model == st.model && r.0.origModel == st.origModel && r.0.models == st.models
            && forall e :: e in r.0.effects[|st.effects|..] ==> !e.UpdateRequest? && !e.DeleteProofStepsRequest?
  {
    var r := AfterCheck(st, self, saveCmdSet, deleted, reply);
    assert r.0.effects[|st.effects|..] == CloseAndSave(saveCmdSet);
  }

  /**
   * The proof steps are deleted before the update is sent, and the update is sent only when
   * the deletion succeeded; a failed deletion leaves everything but the effects unchanged.
   */
  lemma DeleteBeforeUpdate(st: DialogState, self: ModelId, saveCmdSet: bool, deleted: bool, reply: UpdateReply)
    requires IsDirty(st.model, st.origModel) && st.model.numAllProofSteps > 0
    ensures var r := AfterCheck(st, self, saveCmdSet, deleted, reply).0;
            var issued := r.effects[|st.effects|..];
            |issued| >= 1 && issued[0] == DeleteProofStepsRequest
            && (deleted ==> |issued| >= 2 && issued[1] == UpdateOf(st.model) && r.model.numAllProofSteps == 0)
            && (!deleted ==> issued == [DeleteProofStepsRequest] && r.model == st.model
                             && r.origModel == st.origModel && r.models == st.models)
  {
    var r := AfterCheck(st, self, saveCmdSet, deleted, reply).0;
    if deleted {
      var d := AfterDelete(st, true);
      assert r == AfterUpload(d, self, saveCmdSet, reply);
      assert r.effects[..|d.effects|] == d.effects;
      assert r.effects[|st.effects|..][0] == d.effects[|st.effects|];
      assert r.effects[|st.effects|..][1] == r.effects[|d.effects|];
    }
  }

  /** A model without proof steps is sent straight away, without a deletion. */
  lemma NoProofStepsNoDelete(st: DialogState, self: ModelId, saveCmdSet: bool, deleted: bool, reply: UpdateReply)
    requires IsDirty(st.model, st.origModel) && st.model.numAllProofSteps == 0
    ensures var r := AfterCheck(st, self, saveCmdSet, deleted, reply).0;
            r.effects[|st.effects|] == UpdateOf(st.model) && DeleteProofStepsRequest !in r.effects[|st.effects|..]
  {
  }

  /** After a successful save of a model the registry holds, checking again just closes the dialog. */
  lemma SavedModelIsClean(st: DialogState, self: ModelId, saveCmdSet: bool, deleted: bool)
    requires IsDirty(st.model, st.origModel) && FindModel(st.models, self).Some?
    requires st.model.numAllProofSteps > 0 ==> deleted
    ensures var r := AfterCheck(st, self, saveCmdSet, deleted, UpdateOk).0;
            !IsDirty(r.model, r.origModel) && AfterCheck(r, self, saveCmdSet, deleted, UpdateOk).1
  {
    if st.model.numAllProofSteps > 0 {
      var d := AfterDelete(st, true);
      assert FindModel(d.models, self).Some?;
    }
  }

  /** The dialog of one model: the working copy, the snapshot, the save command and its effects. */
  class Dialog {
    const modelId: ModelId
    const registry: Registry
    var model: Model
    var origModel: Model
    var saveCmdSet: bool
    var effects: seq<Effect>

    function State(): DialogState
      reads this, registry
    {
      DialogState(model, origModel, registry.models, effects)
    }

    /** The dialog once the model has been loaded: both copies are the loaded record. */
    constructor(modelId: ModelId, registry: Registry, loaded: Model)
      ensures this.modelId == modelId && this.registry == registry
      ensures model == loaded && origModel == loaded && !saveCmdSet && effects == []
    {
      this.modelId := modelId;
      this.registry := registry;
      model := loaded;
      origModel := loaded;
      saveCmdSet := false;
      effects := [];
    }

    /** The form's edits of the working copy. */
    method Edit(name: string, title: string, description: string, keyFile: string)
      modifies this
      ensures model == old(model).(name := name, title := title, description := description, keyFile := keyFile)
      ensures origModel == old(origModel) && saveCmdSet == old(saveCmdSet) && effects == old(effects)
    {
      model := model.(name := name, title := title, description := description, keyFile := keyFile);
    }

    /** A submit button sets `save.cmd`. */
    method SetSaveCommand()
      modifies this
      ensures saveCmdSet && model == old(model) && origModel == old(origModel) && effects == old(effects)
    {
      saveCmdSet := true;
    }

    method DeleteModelProofSteps(deleted: bool) returns (proceed: bool)
      modifies this
      ensures State() == AfterDelete(old(State()), deleted) && proceed == deleted
      ensures saveCmdSet == old(saveCmdSet)
    {
      effects := effects + [DeleteProofStepsRequest];
      if deleted {
        model := model.(numAllProofSteps := 0);
      }
      proceed := deleted;
    }

    method UploadModel(reply: UpdateReply)
      modifies this, registry
      ensures State() == AfterUpload(old(State()), modelId, saveCmdSet, reply)
      ensures saveCmdSet == old(saveCmdSet)
    {
      effects := effects + [UpdateOf(model)];
      match reply
      case UpdateFailed(textStatus) =>
        effects := effects + [FormError(textStatus), ParseErrorShown(model.keyFile, textStatus)];
      case UpdateOk =>
        var k := FindModel(registry.models, modelId);
        if k.Some? {
          registry.models := registry.models[k.value := WithEdits(registry.models[k.value], model)];
          origModel := model;
        }
        effects := effects + CloseAndSave(saveCmdSet);
    }

    method CheckModelData(deleted: bool, reply: UpdateReply) returns (closed: bool)
      modifies this, registry
      ensures (State(), closed) == AfterCheck(old(State()), modelId, saveCmdSet, deleted, reply)
      ensures saveCmdSet == old(saveCmdSet)
    {
      if IsDirty(model, origModel) {
        if model.numAllProofSteps > 0 {
          var proceed := DeleteModelProofSteps(deleted);
          if proceed {
            UploadModel(reply);
          }
        } else {
          UploadModel(reply);
        }
        closed := false;
      } else {
        effects := effects + CloseAndSave(saveCmdSet);
        closed := true;
      }
    }

    /** `cancel`: only the key file reverts; edited name, title and description stay. */
    method Cancel()
      modifies this
      ensures model == old(model).(keyFile := old(origModel).keyFile)
      ensures origModel == old(origModel) && saveCmdSet == old(saveCmdSet)
      ensures effects == old(effects) + [CloseDialog]
    {
      model := model.(keyFile := origModel.keyFile);
      effects := effects + [CloseDialog];
    }
  }

  /** Cancelling after edits keeps the edited name although the key file reverts. */
  method EditThenCancel(d: Dialog, name: string, keyFile: string)
    modifies d
    ensures d.model.name == name && d.model.keyFile == old(d.origModel.keyFile)
    ensures d.registry.models == old(d.registry.models)
  {
    d.Edit(name, d.model.title, d.model.description, keyFile);
    d.Cancel();
  }
}
