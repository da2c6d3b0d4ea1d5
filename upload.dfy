/**
 * The upload dialog (`ModelUploadCtrl`): the text being uploaded and the name it is stored
 * under, filled in from a chosen file, and the decision to start a proof right after upload.
 */
module ModelUpload {
  import opened Wrappers
  import opened JsLib
  import opened ArchiveClassifier

  /** The rest of the template after its archive-entry header. */
  const TemplateBody: string := "\n\nProblem\n" + "  /* fill in dL formula here */\n" + "End.\nEnd."

  /** The text a new upload dialog starts with: `ArchiveEntry "New Entry"` and an empty problem. */
  const Template: string := Entry("ArchiveEntry", "New Entry") + TemplateBody

  /**
   * The flag `uploadContent` hands to `upload`: start a proof after uploading only when asked
   * to, and only for text with at most one archive entry and no labelled tactic anywhere.
   */
  function AutoStartProof(startProof: bool, content: string): (r: bool)
    ensures r <==> startProof && NumKyxEntries(Some(content)) <= 1
                   && forall p: nat :: !HasMatchAt(Matcher(content, TacticKeywords), p)
  {
    CountZeroIffNoMatch(content, TacticKeywords);
    startProof && NumKyxEntries(Some(content)) <= 1 && NumKyxTactics(Some(content)) <= 0
  }

  /** `fileName.substring(0, fileName.indexOf('.'))`: the file name before its first dot. */
  function FileNamePrefix(fileName: string): (r: string)
    ensures '.' !in r
    ensures '.' in fileName ==> |r| < |fileName| && r == fileName[..|r|] && fileName[|r|] == '.'
    ensures '.' !in fileName ==> r == ""
  {
    SubstringTo(fileName, IndexOf(fileName, '.'))
  }

  /** The outcome of posting the text to the server. */
  datatype UploadReply =
    | Stored(modelId: int)                  // success, with the id of the new model
    | Refused(errorText: Option<string>)    // `success` false, with or without an error text
    | RequestFailed(error: string)          // the request itself failed (e.g. a parse error)

  /** What the dialog does in response, in order. */
  datatype UploadEffect =
    | ShowMessage(title: string, text: string)
    | CloseUploadDialog
    | CreateProof(modelId: int)
    | RefreshModelList
    | ShowParseError(content: string, error: string)

  const UnknownErrorText: string :=
    "An unknown error that did not raise an uncaught exception occurred while trying to insert a model into the database. Perhaps see the server console output for more information."

  /** `upload`'s reaction to the server's reply (a JavaScript empty error text counts as absent). */
  function UploadEffects(reply: UploadReply, content: string, autoStart: bool): (effects: seq<UploadEffect>)
    ensures CloseUploadDialog in effects <==> reply.Stored?
    ensures reply.Stored? ==> effects[0] == CloseUploadDialog
    ensures reply.Stored? ==> (CreateProof(reply.modelId) in effects <==> autoStart)
    ensures reply.Stored? ==> (RefreshModelList in effects <==> !autoStart)
    ensures reply.Stored? ==>
              effects == [CloseUploadDialog, if autoStart then CreateProof(reply.modelId) else RefreshModelList]
    ensures reply.Refused? ==> |effects| == 1 && effects[0].ShowMessage?
    ensures reply.Refused? && reply.errorText.Some? && reply.errorText.value != "" ==>
              effects == [ShowMessage("Error Uploading Model", reply.errorText.value)]
    ensures reply.Refused? && (reply.errorText.None? || reply.errorText.value == "") ==>
              effects == [ShowMessage("Unknown Error Uploading Model", UnknownErrorText)]
    ensures reply.RequestFailed? ==> effects == [ShowParseError(content, reply.error)]
  {
    match reply
    case Stored(id) => [CloseUploadDialog, if autoStart then CreateProof(id) else RefreshModelList]
    case Refused(text) =>
      if text.Some? && text.value != "" then [ShowMessage("Error Uploading Model", text.value)]
      else [ShowMessage("Unknown Error Uploading Model", UnknownErrorText)]
    case RequestFailed(error) => [ShowParseError(content, error)]
  }

  /** The dialog's `$scope.model`: the name to store the upload under and the text to upload. */
  class UploadDialog {
    var modelName: Option<string>
    var content: string

    constructor()
      ensures modelName == None && content == Template
    {
      modelName := None;
      content := Template;
    }

    /**
     * `updateModelContentFromFile`: take over the file's text, falling back to the template
     * for an empty or undefined file, and name the model after the file when the file holds
     * no archive entry (an archive names its entries itself).
     */
    method UpdateModelContentFromFile(fileName: string, fileContent: Option<string>)
      modifies this
      ensures content == if fileContent.None? || fileContent.value == "" then Template else fileContent.value
      ensures modelName == if NumKyxEntries(fileContent) == 0 then Some(FileNamePrefix(fileName)) else old(modelName)
    {
      if fileContent.None? || fileContent.value == "" {
        content := Template;
      } else {
        content := fileContent.value;
      }
      if NumKyxEntries(fileContent) <= 0 {
        modelName := Some(FileNamePrefix(fileName));
      }
    }

    /**
     * `uploadContent` followed by `upload`'s handling of the server's reply: the name and text
     * sent, whether a proof is started, and what the dialog does next.
     */
    method UploadContent(startProof: bool, reply: UploadReply)
      returns (name: Option<string>, sent: string, autoStart: bool, effects: seq<UploadEffect>)
      ensures name == modelName && sent == content
      ensures autoStart <==> startProof && NumKyxEntries(Some(content)) <= 1 && NumKyxTactics(Some(content)) == 0
      ensures effects == UploadEffects(reply, content, autoStart)
    {
      name := modelName;
      sent := content;
      autoStart := AutoStartProof(startProof, content);
      effects := UploadEffects(reply, sent, autoStart);
    }
  }

  lemma TemplateHeaderMatches()
    ensures MatchAt(Template, 0, EntryKeywords) == Some(24)
  {
    KeywordMatchIn([], EntryKeywords, 2, "New Entry", TemplateBody);
    assert [] + Entry("ArchiveEntry", "New Entry") + TemplateBody == Template;
  }

  lemma TemplateBodyMatchesNothing()
    ensures Scan(|Template|, 24, Matcher(Template, EntryKeywords)) == []
  {
    assert Quote !in TemplateBody;
    forall q | 24 <= q < |Template| ensures Template[q] != Quote {
      assert Template[q] == TemplateBody[q - 24];
    }
    NoQuoteNoMatch(Template, 24, EntryKeywords);
  }

  lemma TemplateHasNoTactic()
    ensures NumKyxTactics(Some(Template)) == 0
  {
    assert 'T' !in Template;
    NoInitialNoMatch(Template, TacticKeywords);
  }

  /** The template is one archive entry without tactics, so uploading it may start a proof. */
  lemma TemplateStartsProof()
    ensures NumKyxEntries(Some(Template)) == 1
    ensures NumKyxTactics(Some(Template)) == 0
    ensures AutoStartProof(true, Template)
  {
    TemplateHeaderMatches();
    TemplateBodyMatchesNothing();
    ScanMatchStep(|Template|, 0, Matcher(Template, EntryKeywords), 24);
    TemplateHasNoTactic();
  }
}
