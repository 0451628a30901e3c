/**
 * The state-changing handlers as transitions of the store: each maps the
 * store before the request (and the calling user and request fields) to the
 * tagged result and the store after it. A failed request leaves the store
 * as it was.
 */
module NoteOps {
  import opened NoteModel
  import opened NoteQueries

  /** A registration field that is absent or empty (both falsy in the handler). */
  function Missing(field: Option<string>): (b: bool)
    ensures !b <==> field.Some? && |field.value| > 0
  {
    field.None? || field.value == ""
  }

  /** Registration: both fields required, the username must be new. */
  function Register(t: Tables, username: Option<string>, password: Option<string>): (out: (Result<()>, Tables))
    ensures Missing(username) || Missing(password) ==> out == (Err(BadRequest), t)
    ensures !Missing(username) && !Missing(password) && username.value in t.users ==>
      out == (Err(Conflict), t)
    ensures out.0.Ok? <==> !Missing(username) && !Missing(password) && username.value !in t.users
    ensures out.0.Ok? ==>
      && out.1.users == t.users + {username.value}
      && |out.1.users| == |t.users| + 1
      && out.1.notes == t.notes && out.1.categories == t.categories
      && out.1.nextNoteId == t.nextNoteId && out.1.nextCategoryId == t.nextCategoryId
    ensures Valid(t) ==> Valid(out.1)
  {
    if Missing(username) || Missing(password) then (Err(BadRequest), t)
    else if username.value in t.users then (Err(Conflict), t)
    else (Ok(()), t.(users := t.users + {username.value}))
  }

  /** A username that registered once cannot register again. */
  lemma RegisterTwiceConflicts(t: Tables, username: string, password: string, password2: string)
    requires username != "" && password != "" && password2 != ""
    requires Register(t, Some(username), Some(password)).0.Ok?
    ensures Register(Register(t, Some(username), Some(password)).1, Some(username), Some(password2)).0
      == Err(Conflict)
  {
  }

  /**
   * Note creation: a new note of the caller under the next id, with no
   * category and not a favourite.
   */
  function CreateNote(t: Tables, user: string, title: string, content: string): (out: (nat, Tables))
    requires Valid(t)
    ensures out.0 !in t.notes
    ensures out.1.notes.Keys == t.notes.Keys + {out.0}
    ensures out.1.notes[out.0] == Note(title, content, user, None, false)
    ensures forall id :: id in t.notes ==> out.1.notes[id] == t.notes[id]
    ensures out.1.users == t.users && out.1.categories == t.categories
    ensures out.1.nextCategoryId == t.nextCategoryId
    ensures OthersUnchanged(t, out.1, user)
    ensures user in t.users ==> Valid(out.1)
  {
    var id := t.nextNoteId;
    var notes := t.notes[id := Note(title, content, user, None, false)];
    assert id !in t.notes;
    assert notes.Keys == t.notes.Keys + {id};
    (id, t.(notes := notes, nextNoteId := id + 1))
  }

  /** What the view handler shows of a note just created. */
  lemma CreateThenView(t: Tables, user: string, title: string, content: string)
    requires Valid(t)
    ensures View(CreateNote(t, user, title, content).1, user, CreateNote(t, user, title, content).0)
      == Ok(NoteView(CreateNote(t, user, title, content).0, title, content, None, false))
  {
  }

  /** The fields an update request carries; an absent field keeps its old value. */
  datatype UpdateRequest = UpdateRequest(title: Option<string>, content: Option<string>)

  /** Note update: replaces the fields the request carries, on the caller's note only. */
  function UpdateNote(t: Tables, user: string, id: nat, req: UpdateRequest): (out: (Result<()>, Tables))
    ensures !OwnsNote(t, user, id) ==> out == (Err(NotFound), t)
    ensures OwnsNote(t, user, id) ==>
      && out.0 == Ok(())
      && out.1.notes.Keys == t.notes.Keys
      && (forall k :: k in t.notes && k != id ==> out.1.notes[k] == t.notes[k])
      && out.1.notes[id].title == (if req.title.Some? then req.title.value else t.notes[id].title)
      && out.1.notes[id].content == (if req.content.Some? then req.content.value else t.notes[id].content)
      && out.1.notes[id].owner == t.notes[id].owner
      && out.1.notes[id].category == t.notes[id].category
      && out.1.notes[id].isFavorite == t.notes[id].isFavorite
      && out.1.users == t.users && out.1.categories == t.categories
      && out.1.nextNoteId == t.nextNoteId && out.1.nextCategoryId == t.nextCategoryId
    ensures OthersUnchanged(t, out.1, user)
    ensures Valid(t) ==> Valid(out.1)
  {
    match ScopedNote(t, user, id)
    case None => (Err(NotFound), t)
    case Some(n) =>
      var title := match req.title case Some(s) => s case None => n.title;
      var content := match req.content case Some(s) => s case None => n.content;
      (Ok(()), t.(notes := t.notes[id := n.(title := title, content := content)]))
  }

  /** An update with neither field leaves the store as it was. */
  lemma EmptyUpdateChangesNothing(t: Tables, user: string, id: nat)
    requires OwnsNote(t, user, id)
    ensures UpdateNote(t, user, id, UpdateRequest(None, None)) == (Ok(()), t)
  {
    assert t.notes[id := t.notes[id]] == t.notes;
  }

  /** Note deletion: removes exactly the caller's note with this id. */
  function DeleteNote(t: Tables, user: string, id: nat): (out: (Result<()>, Tables))
    ensures !OwnsNote(t, user, id) ==> out == (Err(NotFound), t)
    ensures OwnsNote(t, user, id) ==>
      && out.0 == Ok(())
      && out.1.notes.Keys == t.notes.Keys - {id}
      && (forall k :: k in out.1.notes ==> out.1.notes[k] == t.notes[k])
      && out.1.users == t.users && out.1.categories == t.categories
      && out.1.nextNoteId == t.nextNoteId && out.1.nextCategoryId == t.nextCategoryId
    ensures OthersUnchanged(t, out.1, user)
    ensures Valid(t) ==> Valid(out.1)
  {
    match ScopedNote(t, user, id)
    case None => (Err(NotFound), t)
    case Some(_) => (Ok(()), t.(notes := t.notes - {id}))
  }

  /** After a deletion the note is gone for every handler; other notes are shown as before. */
  lemma DeleteThenNotFound(t: Tables, user: string, id: nat, req: UpdateRequest, other: nat)
    requires DeleteNote(t, user, id).0.Ok?
    requires other != id
    ensures View(DeleteNote(t, user, id).1, user, id) == Err(NotFound)
    ensures UpdateNote(DeleteNote(t, user, id).1, user, id, req).0 == Err(NotFound)
    ensures ToggleFavorite(DeleteNote(t, user, id).1, user, id).0 == Err(NotFound)
    ensures DeleteNote(DeleteNote(t, user, id).1, user, id).0 == Err(NotFound)
    ensures View(DeleteNote(t, user, id).1, user, other) == View(t, user, other)
  {
  }

  /** Category creation: a new category of the caller under the next category id. */
  function CreateCategory(t: Tables, user: string, name: string): (out: (nat, Tables))
    requires Valid(t)
    ensures out.0 !in t.categories
    ensures out.1.categories.Keys == t.categories.Keys + {out.0}
    ensures out.1.categories[out.0] == Category(name, user)
    ensures forall id :: id in t.categories ==> out.1.categories[id] == t.categories[id]
    ensures out.1.users == t.users && out.1.notes == t.notes
    ensures out.1.nextNoteId == t.nextNoteId
    ensures OthersUnchanged(t, out.1, user)
    ensures user in t.users ==> Valid(out.1)
  {
    var id := t.nextCategoryId;
    var categories := t.categories[id := Category(name, user)];
    assert id !in t.categories;
    assert categories.Keys == t.categories.Keys + {id};
    (id, t.(categories := categories, nextCategoryId := id + 1))
  }

  /**
   * Category assignment: both the note and the category must be the
   * caller's; otherwise one combined error, whichever lookup failed.
   */
  function AssignCategory(t: Tables, user: string, noteId: nat, categoryId: Option<nat>): (out: (Result<()>, Tables))
    ensures out.0.Ok? <==>
      OwnsNote(t, user, noteId) && categoryId.Some? && OwnsCategory(t, user, categoryId.value)
    ensures out.0.Err? ==> out == (Err(InvalidRef), t)
    ensures out.0.Ok? ==>
      && out.1.notes.Keys == t.notes.Keys
      && (forall k :: k in t.notes && k != noteId ==> out.1.notes[k] == t.notes[k])
      && out.1.notes[noteId] == t.notes[noteId].(category := categoryId)
      && out.1.users == t.users && out.1.categories == t.categories
      && out.1.nextNoteId == t.nextNoteId && out.1.nextCategoryId == t.nextCategoryId
    ensures OthersUnchanged(t, out.1, user)
    ensures Valid(t) ==> Valid(out.1)
  {
    var note := ScopedNote(t, user, noteId);
    var category := ScopedCategory(t, user, categoryId);
    if note.None? || category.None? then (Err(InvalidRef), t)
    else (Ok(()), t.(notes := t.notes[noteId := note.value.(category := categoryId)]))
  }

  /** After an assignment the view handler shows the category's name. */
  lemma AssignThenView(t: Tables, user: string, noteId: nat, categoryId: nat)
    requires AssignCategory(t, user, noteId, Some(categoryId)).0.Ok?
    ensures View(AssignCategory(t, user, noteId, Some(categoryId)).1, user, noteId).Ok?
    ensures View(AssignCategory(t, user, noteId, Some(categoryId)).1, user, noteId).value.category
      == Some(t.categories[categoryId].name)
  {
  }

  /** Favourite toggle: flips the flag of the caller's note and returns the new value. */
  function ToggleFavorite(t: Tables, user: string, id: nat): (out: (Result<bool>, Tables))
    ensures !OwnsNote(t, user, id) ==> out == (Err(NotFound), t)
    ensures OwnsNote(t, user, id) ==>
      && out.0 == Ok(!t.notes[id].isFavorite)
      && out.1.notes.Keys == t.notes.Keys
      && (forall k :: k in t.notes && k != id ==> out.1.notes[k] == t.notes[k])
      && out.1.notes[id] == t.notes[id].(isFavorite := out.0.value)
      && out.1.users == t.users && out.1.categories == t.categories
      && out.1.nextNoteId == t.nextNoteId && out.1.nextCategoryId == t.nextCategoryId
    ensures OthersUnchanged(t, out.1, user)
    ensures Valid(t) ==> Valid(out.1)
  {
    match ScopedNote(t, user, id)
    case None => (Err(NotFound), t)
    case Some(n) =>
      var favorite := !n.isFavorite;
      (Ok(favorite), t.(notes := t.notes[id := n.(isFavorite := favorite)]))
  }

  /** Toggling twice gives back the first answer negated and restores the store. */
  lemma ToggleTwiceRestores(t: Tables, user: string, id: nat)
    ensures var (r1, t1) := ToggleFavorite(t, user, id);
            var (r2, t2) := ToggleFavorite(t1, user, id);
            t2 == t && (r1.Ok? ==> r2 == Ok(!r1.value)) && (r1.Err? ==> r2 == r1)
  {
    if OwnsNote(t, user, id) {
      var n := t.notes[id];
      assert t.notes[id := n.(isFavorite := !n.isFavorite)][id := n] == t.notes;
    }
  }

  /** In a valid store a caller who is not a registered user owns nothing, so every write fails. */
  lemma UnregisteredCallerChangesNothing(t: Tables, caller: string, id: nat, req: UpdateRequest, categoryId: Option<nat>)
    requires Valid(t) && caller !in t.users
    ensures UpdateNote(t, caller, id, req) == (Err(NotFound), t)
    ensures DeleteNote(t, caller, id) == (Err(NotFound), t)
    ensures ToggleFavorite(t, caller, id) == (Err(NotFound), t)
    ensures AssignCategory(t, caller, id, categoryId) == (Err(InvalidRef), t)
  {
    assert !OwnsNote(t, caller, id);
  }

  /** A note of another user is out of reach of every handler called by `caller`. */
  lemma OtherUsersNotesUntouchable(t: Tables, caller: string, id: nat, req: UpdateRequest, categoryId: Option<nat>)
    requires id in t.notes && t.notes[id].owner != caller
    ensures UpdateNote(t, caller, id, req) == (Err(NotFound), t)
    ensures DeleteNote(t, caller, id) == (Err(NotFound), t)
    ensures ToggleFavorite(t, caller, id) == (Err(NotFound), t)
    ensures AssignCategory(t, caller, id, categoryId) == (Err(InvalidRef), t)
  {
  }
}
