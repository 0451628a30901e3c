/**
 * The in-memory store the request handlers work on: three tables the
 * handlers update in place, plus the two auto-increment counters. Each
 * state-changing handler is a method that takes the authenticated caller
 * explicitly and performs the same steps as the handler. Its result and
 * the new state are those of the matching transition in `NoteOps`.
 */
module NoteStore {
  import opened NoteModel
  import opened NoteQueries
  import NoteOps

  class Store {
    var users: set<string>
    var notes: map<nat, Note>
    var categories: map<nat, Category>
    var nextNoteId: nat
    var nextCategoryId: nat

    /** The tables as a value. */
    function State(): Tables
      reads this
    {
      Tables(users, notes, categories, nextNoteId, nextCategoryId)
    }

    ghost predicate Valid()
      reads this
    {
      NoteModel.Valid(State())
    }

    constructor ()
      ensures Valid() && State() == Empty
    {
      users, notes, categories := {}, map[], map[];
      nextNoteId, nextCategoryId := 1, 1;
      EmptyValid();
    }

    method RegisterUser(username: Option<string>, password: Option<string>) returns (r: Result<()>)
      requires Valid()
      modifies this
      ensures Valid()
      ensures (r, State()) == NoteOps.Register(old(State()), username, password)
    {
      if username.None? || username.value == "" || password.None? || password.value == "" {
        return Err(BadRequest);
      }
      if username.value in users {
        return Err(Conflict);
      }
      users := users + {username.value};
      r := Ok(());
    }

    method CreateNote(user: string, title: string, content: string) returns (id: nat)
      requires Valid() && user in users
      modifies this
      ensures Valid()
      ensures (id, State()) == NoteOps.CreateNote(old(State()), user, title, content)
    {
      id := nextNoteId;
      nextNoteId := nextNoteId + 1;
      notes := notes[id := Note(title, content, user, None, false)];
    }

    method UpdateNote(user: string, id: nat, req: NoteOps.UpdateRequest) returns (r: Result<()>)
      requires Valid()
      modifies this
      ensures Valid()
      ensures (r, State()) == NoteOps.UpdateNote(old(State()), user, id, req)
    {
      if id !in notes || notes[id].owner != user {
        return Err(NotFound);
      }
      var note := notes[id];
      if req.title.Some? {
        note := note.(title := req.title.value);
      }
      if req.content.Some? {
        note := note.(content := req.content.value);
      }
      notes := notes[id := note];
      r := Ok(());
    }

    method DeleteNote(user: string, id: nat) returns (r: Result<()>)
      requires Valid()
      modifies this
      ensures Valid()
      ensures (r, State()) == NoteOps.DeleteNote(old(State()), user, id)
    {
      if id !in notes || notes[id].owner != user {
        return Err(NotFound);
      }
      notes := notes - {id};
      r := Ok(());
    }

    method CreateCategory(user: string, name: string) returns (id: nat)
      requires Valid() && user in users
      modifies this
      ensures Valid()
      ensures (id, State()) == NoteOps.CreateCategory(old(State()), user, name)
    {
      id := nextCategoryId;
      nextCategoryId := nextCategoryId + 1;
      categories := categories[id := Category(name, user)];
    }

    method AssignCategory(user: string, noteId: nat, categoryId: Option<nat>) returns (r: Result<()>)
      requires Valid()
      modifies this
      ensures Valid()
      ensures (r, State()) == NoteOps.AssignCategory(old(State()), user, noteId, categoryId)
    {
      var noteFound := noteId in notes && notes[noteId].owner == user;
      var categoryFound := categoryId.Some? && categoryId.value in categories
        && categories[categoryId.value].owner == user;
      if !noteFound || !categoryFound {
        return Err(InvalidRef);
      }
      notes := notes[noteId := notes[noteId].(category := categoryId)];
      r := Ok(());
    }

    method ToggleFavorite(user: string, id: nat) returns (r: Result<bool>)
      requires Valid()
      modifies this
      ensures Valid()
      ensures (r, State()) == NoteOps.ToggleFavorite(old(State()), user, id)
    {
      if id !in notes || notes[id].owner != user {
        return Err(NotFound);
      }
      var favorite := !notes[id].isFavorite;
      notes := notes[id := notes[id].(isFavorite := favorite)];
      r := Ok(favorite);
    }
  }

  /**
   * A session of one user: register, create a note and a category, assign
   * the category and view the note; then `FavoriteAndSearch`. The session
   * is split over three methods so that each proof stays within the
   * solver's budget; each later part restates, as its requires, the state
   * the earlier part has reached.
   */
  method Walkthrough() {
    var store := new Store();
    var registered := store.RegisterUser(Some("alice"), Some("pw1"));
    assert registered == Ok(());
    var n := store.CreateNote("alice", "Shopping", "milk, eggs");
    assert store.notes[n] == Note("Shopping", "milk, eggs", "alice", None, false);
    var c := store.CreateCategory("alice", "Errands");
    assert store.categories[c] == Category("Errands", "alice");
    var linked := store.AssignCategory("alice", n, Some(c));
    assert linked == Ok(());
    var shown := View(store.State(), "alice", n);
    assert shown == Ok(NoteView(n, "Shopping", "milk, eggs", Some("Errands"), false));
    FavoriteAndSearch(store, n);
  }

  /** The session goes on: mark the note a favourite; then `SearchAndRegisterAgain`. */
  method FavoriteAndSearch(store: Store, n: nat)
    requires store.Valid() && "alice" in store.users
    requires OwnsNote(store.State(), "alice", n)
    requires store.notes[n].content == "milk, eggs" && !store.notes[n].isFavorite
    modifies store
  {
    var favorite := store.ToggleFavorite("alice", n);
    assert favorite == Ok(true);
    SearchAndRegisterAgain(store, n);
  }

  /** The session ends: find the note by a word of its content, and fail to register the same name again. */
  method SearchAndRegisterAgain(store: Store, n: nat)
    requires store.Valid() && "alice" in store.users
    requires OwnsNote(store.State(), "alice", n)
    requires store.notes[n].content == "milk, eggs"
    modifies store
  {
    FindByContent(store.State(), n);
    var again := store.RegisterUser(Some("alice"), Some("pw2"));
    assert again == Err(Conflict);
  }

  /** Searching for "milk" finds a note whose content is "milk, eggs". */
  lemma FindByContent(t: Tables, n: nat)
    requires NoteModel.Valid(t) && OwnsNote(t, "alice", n)
    requires t.notes[n].content == "milk, eggs"
    ensures Found(Search(t, "alice", Some("milk")), n)
  {
    TextMatch.MilkFound();
    FoundByContent(t, "alice", n, "milk");
  }
}
