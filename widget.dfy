/** The note widget's state and event handlers (app.js): the editor state
    (the id being edited, the title and content fields, the save button's
    label), the markup of the notes list, and the handlers that change them.
    Replies from the notes API and the user's answer to the confirmation
    prompt are parameters of the handlers; the requests a handler sends and
    what the user then sees are its results. */
module Widget {
  import opened Records
  import opened Markup

  const AddLabel: string := "Ajouter une note"
  const UpdateLabel: string := "Mettre à jour"
  const MissingFieldsMessage: string := "Veuillez remplir le titre et le contenu"
  const SaveFailedMessage: string := "Erreur lors de la sauvegarde"
  const DeleteFailedMessage: string := "Erreur lors de la suppression"
  const NotesPath: string := "/api/notes"

  datatype Verb = Get | Post | Put | Delete

  datatype Payload = Payload(title: string, content: string)

  datatype Request = Request(verb: Verb, path: string, payload: Option<Payload>)

  /** The reply to a save or delete request: a success status; a failure
      status whose JSON body has the given `error` field (None when it is
      absent or null); or no usable reply at all (the request threw, or the
      failure body was not JSON). */
  datatype Reply = Ok | NotOk(error: Option<string>) | Lost

  /** The reply to `GET /api/notes`: status 401; a list of notes; or anything
      the widget cannot render (the request threw, or the body was not a
      list). */
  datatype ListReply = Unauthenticated | Listed(notes: seq<Note>) | Unusable

  /** What the user is shown once a handler is done. `RefreshList` is a call
      of `loadNotes`, `ReloadPage` a reload of the whole page and `Logged` a
      message on the console only. */
  datatype Effect = Quiet | Alert(message: string) | RefreshList | ReloadPage | Logged

  /** `window.userRole || 'reader'`: a missing or empty role reads as
      `reader`. */
  function EffectiveRole(injected: Option<string>): (r: string)
    ensures r != ""
    ensures r == "admin" <==> injected == Some("admin")
    ensures injected.Some? && injected.value != "" ==> r == injected.value
  {
    if injected.Some? && injected.value != "" then injected.value else "reader"
  }

  /** JavaScript truthiness of `editingId`: both `null` and the id 0 are
      false. */
  predicate IsEditing(editingId: Option<int>) {
    editingId.Some? && editingId.value != 0
  }

  function NotePath(id: int): (p: string) {
    NotesPath + "/" + Decimal(id)
  }

  /** Two note paths are equal only for equal ids. */
  lemma NotePathInjective(a: int, b: int)
    requires NotePath(a) == NotePath(b)
    ensures a == b
  {
    assert Decimal(a) == NotePath(a)[|NotesPath| + 1..];
    assert Decimal(b) == NotePath(b)[|NotesPath| + 1..];
    DecimalInjective(a, b);
  }

  /** The request `saveNote` sends for the trimmed fields: an update of the
      note being edited when `editingId` is truthy, a creation otherwise (so
      an `editingId` of 0 creates a new note). Both carry the two fields. */
  function SaveRequest(editingId: Option<int>, title: string, content: string): (r: Request)
    ensures r.payload == Some(Payload(title, content))
    ensures r.verb == Put <==> IsEditing(editingId)
    ensures r.verb == Put ==> r.path == NotePath(editingId.value)
    ensures r.verb != Put ==> r.verb == Post && r.path == NotesPath
  {
    if IsEditing(editingId) then Request(Put, NotePath(editingId.value), Some(Payload(title, content)))
    else Request(Post, NotesPath, Some(Payload(title, content)))
  }

  /** `err.error || fallback`: the server's message unless it is missing or
      empty. */
  function AlertText(error: Option<string>, fallback: string): (m: string)
    ensures error.Some? && error.value != "" ==> m == error.value
    ensures error.None? || error.value == "" ==> m == fallback
  {
    if error.Some? && error.value != "" then error.value else fallback
  }

  /** `notes.find(n => n.id === id)`, as the position of the note found: the
      first note with that id, or None when no note has it. */
  function FindNote(notes: seq<Note>, id: int): (r: Option<nat>)
    ensures r.Some? ==> r.value < |notes| && notes[r.value].id == id
    ensures r.Some? ==> forall j :: 0 <= j < r.value ==> notes[j].id != id
    ensures r.None? ==> forall j :: 0 <= j < |notes| ==> notes[j].id != id
  {
    if notes == [] then None
    else if notes[0].id == id then Some(0)
    else
      match FindNote(notes[1..], id)
      case Some(i) => Some(i + 1)
      case None => None
  }

  class NoteWidget {
    const role: string
    var editingId: Option<int>
    var titleField: string
    var contentField: string
    var buttonLabel: string
    var listMarkup: string

    /** The button reads "Mettre à jour" exactly while an id is being
        edited, and "Ajouter une note" otherwise. */
    ghost predicate Valid()
      reads this
    {
      || (editingId.None? && buttonLabel == AddLabel)
      || (editingId.Some? && buttonLabel == UpdateLabel)
    }

    /** Set-up on page load: the role defaults to `reader` and no note is
        being edited. */
    constructor (injectedRole: Option<string>, title: string, content: string, markup: string)
      ensures Valid()
      ensures role == EffectiveRole(injectedRole)
      ensures editingId == None && buttonLabel == AddLabel
      ensures titleField == title && contentField == content && listMarkup == markup
    {
      role := EffectiveRole(injectedRole);
      editingId := None;
      titleField := title;
      contentField := content;
      buttonLabel := AddLabel;
      listMarkup := markup;
    }

    /** `loadNotes`, given the reply to the `GET /api/notes` it sends. */
    method LoadNotes(reply: ListReply) returns (request: Request, effect: Effect)
      requires Valid()
      modifies this`listMarkup
      ensures Valid()
      ensures request == Request(Get, NotesPath, None)
      ensures reply.Listed? ==> listMarkup == RenderNotes(reply.notes, role) && effect == Quiet
      ensures reply.Unauthenticated? ==> listMarkup == old(listMarkup) && effect == ReloadPage
      ensures reply.Unusable? ==> listMarkup == old(listMarkup) && effect == Logged
    {
      request := Request(Get, NotesPath, None);
      match reply
      case Unauthenticated =>
        effect := ReloadPage;
      case Listed(notes) =>
        listMarkup := RenderNotes(notes, role);
        effect := Quiet;
      case Unusable =>
        effect := Logged;
    }

    /** `saveNote`, given the reply to the request it sends. With a blank
        title or content nothing is sent and nothing changes; otherwise the
        request of `SaveRequest` is sent. A success clears both fields and
        leaves edit mode; a failure or a lost reply changes nothing. */
    method SaveNote(reply: Reply) returns (request: Option<Request>, effect: Effect)
      requires Valid()
      modifies this`editingId, this`titleField, this`contentField, this`buttonLabel
      ensures Valid()
      ensures Trim(old(titleField)) == "" || Trim(old(contentField)) == "" ==>
        && request == None && effect == Alert(MissingFieldsMessage)
        && editingId == old(editingId) && buttonLabel == old(buttonLabel)
        && titleField == old(titleField) && contentField == old(contentField)
      ensures Trim(old(titleField)) != "" && Trim(old(contentField)) != "" ==>
        request == Some(SaveRequest(old(editingId), Trim(old(titleField)), Trim(old(contentField))))
      ensures Trim(old(titleField)) != "" && Trim(old(contentField)) != "" && reply == Ok ==>
        && titleField == "" && contentField == "" && editingId == None && buttonLabel == AddLabel
        && effect == RefreshList
      ensures Trim(old(titleField)) != "" && Trim(old(contentField)) != "" && reply != Ok ==>
        && editingId == old(editingId) && buttonLabel == old(buttonLabel)
        && titleField == old(titleField) && contentField == old(contentField)
        && effect == (if reply.NotOk? then Alert(AlertText(reply.error, SaveFailedMessage)) else Logged)
    {
      var title := Trim(titleField);
      var content := Trim(contentField);
      if title == "" || content == "" {
        request := None;
        effect := Alert(MissingFieldsMessage);
        return;
      }
      request := Some(SaveRequest(editingId, title, content));
      match reply
      case Ok =>
        titleField := "";
        contentField := "";
        editingId := None;
        buttonLabel := AddLabel;
        effect := RefreshList;
      case NotOk(error) =>
        effect := Alert(AlertText(error, SaveFailedMessage));
      case Lost =>
        effect := Logged;
    }

    /** `editNote(id)`: it sends `GET /api/notes` and is given the list that
        request returned (None when the request or its body failed). When a note with that exact id
        is in the list, the fields take the first such note's title and
        content and edit mode starts for `id`; otherwise nothing changes. */
    method EditNote(id: int, fetched: Option<seq<Note>>) returns (request: Request, effect: Effect)
      requires Valid()
      modifies this`editingId, this`titleField, this`contentField, this`buttonLabel
      ensures Valid()
      ensures request == Request(Get, NotesPath, None)
      ensures fetched.Some? && FindNote(fetched.value, id).Some? ==>
        && titleField == fetched.value[FindNote(fetched.value, id).value].title
        && contentField == fetched.value[FindNote(fetched.value, id).value].content
        && editingId == Some(id) && buttonLabel == UpdateLabel
      ensures fetched.None? || FindNote(fetched.value, id).None? ==>
        && editingId == old(editingId) && buttonLabel == old(buttonLabel)
        && titleField == old(titleField) && contentField == old(contentField)
      ensures effect == if fetched.None? then Logged else Quiet
    {
      request := Request(Get, NotesPath, None);
      if fetched.None? {
        effect := Logged;
        return;
      }
      effect := Quiet;
      var found := FindNote(fetched.value, id);
      if found.Some? {
        var note := fetched.value[found.value];
        titleField := note.title;
        contentField := note.content;
        editingId := Some(id);
        buttonLabel := UpdateLabel;
      }
    }

    /** `deleteNote(id)`, given the user's answer to the confirmation prompt
        and the reply to the request. Refusing sends nothing; confirming sends
        `DELETE /api/notes/{id}`. The editor state is not touched. */
    method DeleteNote(id: int, confirmed: bool, reply: Reply) returns (request: Option<Request>, effect: Effect)
      ensures !confirmed ==> request == None && effect == Quiet
      ensures confirmed ==> request == Some(Request(Delete, NotePath(id), None))
      ensures confirmed && reply == Ok ==> effect == RefreshList
      ensures confirmed && reply.NotOk? ==> effect == Alert(AlertText(reply.error, DeleteFailedMessage))
      ensures confirmed && reply == Lost ==> effect == Logged
    {
      if !confirmed {
        return None, Quiet;
      }
      request := Some(Request(Delete, NotePath(id), None));
      match reply
      case Ok =>
        effect := RefreshList;
      case NotOk(error) =>
        effect := Alert(AlertText(error, DeleteFailedMessage));
      case Lost =>
        effect := Logged;
    }
  }
}
