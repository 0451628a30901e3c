/**
 * The three tables of the notes backend and the rows they hold: registered
 * usernames, categories keyed by id and notes keyed by id. A category and a
 * note belong to the user who created it; every read and write of either is
 * scoped to the calling user.
 */
module NoteModel {

  datatype Option<T> = None | Some(value: T)

  /** The tagged outcomes the request handlers map to status codes. */
  datatype Error =
    | BadRequest   // missing or empty registration field (400)
    | Conflict     // username already registered (400)
    | NotFound     // note absent or owned by someone else (404)
    | InvalidRef   // note or category absent or not the caller's (404)

  datatype Result<T> = Ok(value: T) | Err(error: Error)

  /** A note row; `category` holds the id of a category row, if any. */
  datatype Note = Note(
    title: string,
    content: string,
    owner: string,
    category: Option<nat>,
    isFavorite: bool)

  datatype Category = Category(name: string, owner: string)

  /**
   * The whole store. Note ids and category ids come from two separate
   * auto-increment sequences, one per table, and are never reused.
   */
  datatype Tables = Tables(
    users: set<string>,
    notes: map<nat, Note>,
    categories: map<nat, Category>,
    nextNoteId: nat,
    nextCategoryId: nat)

  /** The empty store; auto-increment ids start at 1. */
  const Empty: Tables := Tables({}, map[], map[], 1, 1)

  /**
   * Store invariant: every id was handed out by its sequence, every row
   * belongs to a registered user, and a note's category is an existing
   * category of the note's own owner.
   */
  ghost predicate Valid(t: Tables) {
    && (forall id :: id in t.notes ==> id < t.nextNoteId)
    && (forall id :: id in t.categories ==> id < t.nextCategoryId)
    && (forall id :: id in t.notes ==> t.notes[id].owner in t.users)
    && (forall id :: id in t.categories ==> t.categories[id].owner in t.users)
    && (forall id :: id in t.notes && t.notes[id].category.Some? ==>
          && t.notes[id].category.value in t.categories
          && t.categories[t.notes[id].category.value].owner == t.notes[id].owner)
  }

  /** The empty store satisfies the invariant. */
  lemma EmptyValid()
    ensures Valid(Empty)
  {
  }

  predicate OwnsNote(t: Tables, user: string, id: nat) {
    id in t.notes && t.notes[id].owner == user
  }

  predicate OwnsCategory(t: Tables, user: string, id: nat) {
    id in t.categories && t.categories[id].owner == user
  }

  /** The scoped fetch `filter(id=id, user=user).first()` on the notes table. */
  function ScopedNote(t: Tables, user: string, id: nat): (r: Option<Note>)
    ensures r.Some? <==> OwnsNote(t, user, id)
    ensures r.Some? ==> r.value == t.notes[id] && r.value.owner == user
  {
    if id in t.notes && t.notes[id].owner == user then Some(t.notes[id]) else None
  }

  /** The scoped fetch on the categories table; an absent id finds nothing. */
  function ScopedCategory(t: Tables, user: string, id: Option<nat>): (r: Option<Category>)
    ensures r.Some? <==> id.Some? && OwnsCategory(t, user, id.value)
    ensures r.Some? ==> r.value == t.categories[id.value] && r.value.owner == user
  {
    if id.Some? && id.value in t.categories && t.categories[id.value].owner == user
    then Some(t.categories[id.value])
    else None
  }

  /**
   * The category name shown for a note, or None when it has none. A
   * category id with no row (which `Valid` rules out) also shows None.
   */
  function CategoryName(t: Tables, n: Note): (r: Option<string>)
    ensures r.Some? <==> n.category.Some? && n.category.value in t.categories
    ensures r.Some? ==> r.value == t.categories[n.category.value].name
  {
    match n.category
    case None => None
    case Some(c) => if c in t.categories then Some(t.categories[c].name) else None
  }

  /** In a valid store a note shows a category name exactly when it has a category. */
  lemma CategoryNameShown(t: Tables, id: nat)
    requires Valid(t) && id in t.notes
    ensures CategoryName(t, t.notes[id]).Some? <==> t.notes[id].category.Some?
    ensures t.notes[id].category.Some? ==>
      CategoryName(t, t.notes[id]) == Some(t.categories[t.notes[id].category.value].name)
  {
  }

  /**
   * Rows of users other than `user` are the same in `t` and `t2`: none
   * added, removed or changed.
   */
  ghost predicate OthersUnchanged(t: Tables, t2: Tables, user: string) {
    && (forall id :: id in t.notes && t.notes[id].owner != user ==>
          id in t2.notes && t2.notes[id] == t.notes[id])
    && (forall id :: id in t2.notes && t2.notes[id].owner != user ==>
          id in t.notes && t.notes[id] == t2.notes[id])
    && (forall id :: id in t.categories && t.categories[id].owner != user ==>
          id in t2.categories && t2.categories[id] == t.categories[id])
    && (forall id :: id in t2.categories && t2.categories[id].owner != user ==>
          id in t.categories && t.categories[id] == t2.categories[id])
  }
}
