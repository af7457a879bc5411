/** The prompts page: form validation, the in-memory list after an update, a
    create or a delete, and the form state machine (add / edit / reset). */
module PromptsPage {
  import opened Wrappers
  import opened Seqs
  import opened Text
  import opened Records

  const RequiredMessage: string := "Title and Content are required"
  const NoSessionMessage: string := "No active session found"
  const SaveFailedPrefix: string := "Failed to save prompt. Please try again: "
  const UnknownErrorMessage: string := "Unknown error"
  const UpdatedMessage: string := "Prompt updated successfully"
  const CreatedMessage: string := "Prompt created successfully"
  const DeletedMessage: string := "Prompt deleted successfully"
  const DeleteFailedMessage: string := "Failed to delete prompt. Please try again."

  datatype Page = Page(
    prompts: seq<Prompt>,
    isAdding: bool,
    isEditing: bool,
    current: Option<Prompt>,
    title: string,
    content: string,
    error: string,
    success: string)

  /** `resetForm`: empty form, no current prompt, neither adding nor editing. */
  function ResetForm(page: Page): (r: Page)
    ensures r.title == "" && r.content == "" && r.current.None? && !r.isAdding && !r.isEditing
    ensures r.prompts == page.prompts && r.error == page.error && r.success == page.success
  {
    page.(title := "", content := "", current := None, isAdding := false, isEditing := false)
  }

  /** `handleEditPrompt`: load the prompt into the form and open it for editing. */
  function EditPrompt(page: Page, prompt: Prompt): (r: Page)
    ensures r.title == prompt.title && r.content == prompt.content && r.current == Some(prompt)
    ensures r.isAdding && r.isEditing
    ensures r.prompts == page.prompts && r.error == page.error && r.success == page.success
  {
    page.(current := Some(prompt), title := prompt.title, content := prompt.content, isEditing := true, isAdding := true)
  }

  /** The validation of `handleSubmit`: both fields must have a non-whitespace character. */
  predicate FormIsValid(page: Page) {
    Trim(page.title) != "" && Trim(page.content) != ""
  }

  /** The remote write a valid submission issues. */
  datatype SaveRequest =
    | UpdatePrompt(id: string, title: string, content: string)
    | CreatePrompt(title: string, content: string, userId: string)

  /** Which write is issued: an update when editing an existing prompt, otherwise a create. */
  function RequestFor(page: Page, userId: string): (req: SaveRequest)
    ensures req.UpdatePrompt? <==> page.isEditing && page.current.Some?
    ensures req.UpdatePrompt? ==> req == UpdatePrompt(page.current.value.id, page.title, page.content)
    ensures req.CreatePrompt? ==> req == CreatePrompt(page.title, page.content, userId)
  {
    if page.isEditing && page.current.Some? then UpdatePrompt(page.current.value.id, page.title, page.content)
    else CreatePrompt(page.title, page.content, userId)
  }

  /** The local copy of an updated prompt (`{ ...p, title, content, updated_at }`). */
  function Revised(p: Prompt, title: string, content: string, now: string): Prompt {
    p.(title := title, content := content, updatedAt := now)
  }

  /** The list after an update: the rows with that id are revised, all others stay. */
  function ApplyUpdate(prompts: seq<Prompt>, id: string, title: string, content: string, now: string): (r: seq<Prompt>)
    ensures |r| == |prompts|
    ensures forall i :: 0 <= i < |r| && prompts[i].id != id ==> r[i] == prompts[i]
    ensures forall i :: 0 <= i < |r| && prompts[i].id == id ==>
      r[i].title == title && r[i].content == content && r[i].updatedAt == now &&
      r[i].id == id && r[i].createdAt == prompts[i].createdAt
  {
    MapWhere(prompts, (p: Prompt) => p.id == id, (p: Prompt) => Revised(p, title, content, now))
  }

  /** An update keeps the ids of the list, in order, and changes nothing when no row has the id. */
  lemma ApplyUpdateKeepsIds(prompts: seq<Prompt>, id: string, title: string, content: string, now: string)
    ensures forall i :: 0 <= i < |prompts| ==> ApplyUpdate(prompts, id, title, content, now)[i].id == prompts[i].id
    ensures (forall i :: 0 <= i < |prompts| ==> prompts[i].id != id) ==> ApplyUpdate(prompts, id, title, content, now) == prompts
  {
  }

  /** The list after a create: the first returned row in front; unchanged if none came back. */
  function ApplyCreate(prompts: seq<Prompt>, returned: seq<Prompt>): (r: seq<Prompt>)
    ensures |returned| > 0 ==> |r| == |prompts| + 1 && r[0] == returned[0] && r[1..] == prompts
    ensures |returned| == 0 ==> r == prompts
  {
    if |returned| > 0 then [returned[0]] + prompts else prompts
  }

  /** The list after a delete: exactly the rows with another id, in order. */
  function ApplyDelete(prompts: seq<Prompt>, id: string): (r: seq<Prompt>)
    ensures forall i :: 0 <= i < |r| ==> r[i].id != id
    ensures forall p :: p in prompts && p.id != id <==> p in r
    ensures IsSubsequence(r, prompts)
  {
    FilterIsSubsequence(prompts, (p: Prompt) => p.id != id);
    Filter(prompts, (p: Prompt) => p.id != id)
  }

  /** Deleting an id that no row has leaves the list as it is; deleting twice is deleting once. */
  lemma ApplyDeleteProperties(prompts: seq<Prompt>, id: string)
    ensures (forall i :: 0 <= i < |prompts| ==> prompts[i].id != id) ==> ApplyDelete(prompts, id) == prompts
    ensures ApplyDelete(ApplyDelete(prompts, id), id) == ApplyDelete(prompts, id)
  {
    FilterAll(ApplyDelete(prompts, id), (p: Prompt) => p.id != id);
    if forall i :: 0 <= i < |prompts| ==> prompts[i].id != id {
      FilterAll(prompts, (p: Prompt) => p.id != id);
    }
  }

  /** Deleting a freshly created row undoes the create. */
  lemma ApplyCreateThenDelete(prompts: seq<Prompt>, created: Prompt)
    requires forall i :: 0 <= i < |prompts| ==> prompts[i].id != created.id
    ensures ApplyDelete(ApplyCreate(prompts, [created]), created.id) == prompts
  {
    var keep := (p: Prompt) => p.id != created.id;
    FilterConcat([created], prompts, keep);
    assert Filter([created], keep) == [];
    FilterAll(prompts, keep);
  }

  /** The outcome of the remote write: the rows it returned, or the error's message. */
  datatype SaveOutcome = Saved(rows: seq<Prompt>) | SaveFailed(message: string)

  /** `handleSubmit`. `userId` is the session's user (absent without a session),
      `outcome` what the write returned, `now` the ISO time of an update. Returns the
      page afterwards and the write issued, if any. */
  function Submit(page: Page, userId: Option<string>, outcome: SaveOutcome, now: string): (r: (Page, Option<SaveRequest>))
    ensures !FormIsValid(page) ==> r == (page.(error := RequiredMessage, success := ""), None)
    ensures FormIsValid(page) && userId.None? ==>
      r == (page.(error := SaveFailedPrefix + NoSessionMessage, success := ""), None)
    ensures r.1.Some? <==> FormIsValid(page) && userId.Some?
    ensures r.1.Some? ==> r.1.value == RequestFor(page, userId.value)
    ensures r.1.Some? && outcome.Saved? ==>
      !r.0.isAdding && !r.0.isEditing && r.0.current.None? && r.0.title == "" && r.0.content == "" &&
      r.0.error == "" && r.0.success == (if r.1.value.UpdatePrompt? then UpdatedMessage else CreatedMessage)
    ensures r.1.Some? && outcome.Saved? && r.1.value.UpdatePrompt? ==>
      r.0.prompts == ApplyUpdate(page.prompts, page.current.value.id, page.title, page.content, now)
    ensures r.1.Some? && outcome.Saved? && r.1.value.CreatePrompt? ==>
      r.0.prompts == ApplyCreate(page.prompts, outcome.rows)
    ensures outcome.SaveFailed? || r.1.None? ==>
      r.0.prompts == page.prompts && r.0.title == page.title && r.0.content == page.content &&
      r.0.current == page.current && r.0.isEditing == page.isEditing
  {
    var cleared := page.(error := "", success := "");
    if !FormIsValid(page) then (cleared.(error := RequiredMessage), None)
    else if userId.None? then (cleared.(error := SaveFailedPrefix + NoSessionMessage), None)
    else
      var req := RequestFor(page, userId.value);
      var after := match outcome
        case SaveFailed(msg) =>
          cleared.(error := SaveFailedPrefix + (if msg == "" then UnknownErrorMessage else msg))
        case Saved(rows) =>
          if req.UpdatePrompt? then
            ResetForm(cleared.(success := UpdatedMessage,
                               prompts := ApplyUpdate(page.prompts, req.id, page.title, page.content, now)))
          else
            ResetForm(cleared.(success := CreatedMessage, prompts := ApplyCreate(page.prompts, rows)));
      (after, Some(req))
  }

  /** A blank title or content is refused before any remote call, whatever the session and outcome. */
  lemma BlankIsRefused(page: Page, userId: Option<string>, outcome: SaveOutcome, now: string)
    requires IsBlank(page.title) || IsBlank(page.content)
    ensures Submit(page, userId, outcome, now).1.None?
    ensures Submit(page, userId, outcome, now).0.error == RequiredMessage
  {
    TrimEmptyIffBlank(page.title);
    TrimEmptyIffBlank(page.content);
  }

  /** `handleDeletePrompt`; `deleteError` is the outcome of the remote delete. On
      success the row goes and the form is reset only if it held that prompt. */
  function Delete(page: Page, id: string, deleteError: Option<string>): (r: Page)
    ensures deleteError.Some? ==> r == page.(error := DeleteFailedMessage)
    ensures deleteError.None? ==> r.prompts == ApplyDelete(page.prompts, id) && r.success == DeletedMessage
    ensures deleteError.None? && page.current.Some? && page.current.value.id == id ==>
      r.current.None? && !r.isAdding && !r.isEditing && r.title == "" && r.content == ""
    ensures deleteError.None? && !(page.current.Some? && page.current.value.id == id) ==>
      r.current == page.current && r.isAdding == page.isAdding && r.isEditing == page.isEditing &&
      r.title == page.title && r.content == page.content
  {
    if deleteError.Some? then page.(error := DeleteFailedMessage)
    else
      var removed := page.(prompts := ApplyDelete(page.prompts, id), success := DeletedMessage);
      if page.current.Some? && page.current.value.id == id then ResetForm(removed) else removed
  }

  /** Editing a prompt and saving it changes exactly that prompt's row. */
  lemma EditThenSaveTouchesOnlyThatRow(page: Page, prompt: Prompt, title: string, content: string, userId: string, now: string)
    requires Trim(title) != "" && Trim(content) != ""
    ensures var edited := EditPrompt(page, prompt).(title := title, content := content);
            var after := Submit(edited, Some(userId), Saved([]), now).0;
            |after.prompts| == |page.prompts| &&
            (forall i :: 0 <= i < |page.prompts| && page.prompts[i].id != prompt.id ==> after.prompts[i] == page.prompts[i]) &&
            (forall i :: 0 <= i < |page.prompts| && page.prompts[i].id == prompt.id ==>
               after.prompts[i].title == title && after.prompts[i].content == content)
  {
  }
}
