/**
 * The read-only handlers: view one note, list the caller's notes, and search
 * them. Each is a scoped lookup or a filter over the caller's rows of the
 * notes table. Lists come out in ascending id order, which is the
 * insertion order of the auto-increment table.
 */
module NoteQueries {
  import opened NoteModel
  import opened TextMatch

  /** The projection returned by the view and list handlers. */
  datatype NoteView = NoteView(
    id: nat,
    title: string,
    content: string,
    category: Option<string>,
    isFavorite: bool)

  /** The projection returned by the search handler. */
  datatype SearchHit = SearchHit(id: nat, title: string, category: Option<string>)

  /**
   * The dictionary the view and list handlers build for a note row. The
   * category appears by name, and only for a note that has one; in a valid
   * store it is the name of the note's category.
   */
  function Project(t: Tables, id: nat): (v: NoteView)
    requires id in t.notes
    ensures v.id == id
    ensures v.category.Some? ==> t.notes[id].category.Some?
    ensures Valid(t) && t.notes[id].category.Some? ==>
      v.category == Some(t.categories[t.notes[id].category.value].name)
  {
    var n := t.notes[id];
    NoteView(id, n.title, n.content, CategoryName(t, n), n.isFavorite)
  }

  function Hit(v: NoteView): SearchHit {
    SearchHit(v.id, v.title, v.category)
  }

  /** The search projection of each element of a list, in order. */
  function HitsOf(vs: seq<NoteView>): (hs: seq<SearchHit>)
    ensures |hs| == |vs|
    ensures forall i :: 0 <= i < |vs| ==> hs[i] == Hit(vs[i])
  {
    seq(|vs|, i requires 0 <= i < |vs| => Hit(vs[i]))
  }

  /** The view handler: the caller's note with this id, or NotFound. */
  function View(t: Tables, user: string, id: nat): (r: Result<NoteView>)
    ensures r.Ok? <==> OwnsNote(t, user, id)
    ensures r.Err? ==> r.error == NotFound
    ensures r.Ok? ==>
      && r.value.id == id
      && r.value.title == t.notes[id].title
      && r.value.content == t.notes[id].content
      && r.value.category == CategoryName(t, t.notes[id])
      && r.value.isFavorite == t.notes[id].isFavorite
  {
    match ScopedNote(t, user, id)
    case None => Err(NotFound)
    case Some(_) => Ok(Project(t, id))
  }

  predicate Listed(vs: seq<NoteView>, id: nat) {
    exists i :: 0 <= i < |vs| && vs[i].id == id
  }

  predicate Found(hs: seq<SearchHit>, id: nat) {
    exists i :: 0 <= i < |hs| && hs[i].id == id
  }

  /** The caller's notes with an id below `n`, in ascending id order. */
  function ListBelow(t: Tables, user: string, n: nat): seq<NoteView>
    decreases n
  {
    if n == 0 then []
    else ListBelow(t, user, n - 1) + (if OwnsNote(t, user, n - 1) then [Project(t, n - 1)] else [])
  }

  /**
   * `ListBelow` holds each of the caller's notes below `n` exactly once, as
   * projected, and nothing else, in strictly ascending id order.
   */
  lemma {:induction false} ListBelowCorrect(t: Tables, user: string, n: nat)
    ensures forall i :: 0 <= i < |ListBelow(t, user, n)| ==>
      var v := ListBelow(t, user, n)[i];
      v.id < n && OwnsNote(t, user, v.id) && v == Project(t, v.id)
    ensures forall i, j :: 0 <= i < j < |ListBelow(t, user, n)| ==>
      ListBelow(t, user, n)[i].id < ListBelow(t, user, n)[j].id
    ensures forall id: nat :: id < n && OwnsNote(t, user, id) ==> Listed(ListBelow(t, user, n), id)
    decreases n
  {
    if n > 0 {
      ListBelowCorrect(t, user, n - 1);
      var prefix := ListBelow(t, user, n - 1);
      var r := ListBelow(t, user, n);
      assert r[..|prefix|] == prefix;
      forall id: nat | id < n && OwnsNote(t, user, id) ensures Listed(r, id) {
        if id < n - 1 {
          var i :| 0 <= i < |prefix| && prefix[i].id == id;
          assert r[i] == prefix[i];
        } else {
          assert r[|prefix|].id == id;
        }
      }
    }
  }

  /**
   * The list handler: every note of the caller, each as projected, in
   * strictly ascending id order, and nothing else.
   */
  function List(t: Tables, user: string): (vs: seq<NoteView>)
    ensures forall i :: 0 <= i < |vs| ==> OwnsNote(t, user, vs[i].id) && vs[i] == Project(t, vs[i].id)
    ensures forall i, j :: 0 <= i < j < |vs| ==> vs[i].id < vs[j].id
    ensures forall id: nat :: id < t.nextNoteId && OwnsNote(t, user, id) ==> Listed(vs, id)
  {
    ListBelowCorrect(t, user, t.nextNoteId);
    ListBelow(t, user, t.nextNoteId)
  }

  /**
   * The search filter on a note's projection: its title, its content, or
   * its category's name contains the query, ignoring ASCII case. A note
   * with no category never matches through the category name.
   */
  function Matches(v: NoteView, q: string): (b: bool)
    ensures q == "" ==> b
    ensures b ==> |q| <= |v.title| || |q| <= |v.content| || (v.category.Some? && |q| <= |v.category.value|)
  {
    EmptyQueryMatches(v.title);
    || ContainsIgnoringCase(v.title, q)
    || ContainsIgnoringCase(v.content, q)
    || (v.category.Some? && ContainsIgnoringCase(v.category.value, q))
  }

  /** The elements of `vs` that `keep` accepts, in their order in `vs`. */
  function Filter(vs: seq<NoteView>, keep: NoteView -> bool): seq<NoteView> {
    if vs == [] then [] else (if keep(vs[0]) then [vs[0]] else []) + Filter(vs[1..], keep)
  }

  lemma {:induction false} FilterMembers(vs: seq<NoteView>, keep: NoteView -> bool)
    ensures forall v :: v in Filter(vs, keep) <==> v in vs && keep(v)
  {
    if vs != [] {
      FilterMembers(vs[1..], keep);
      assert vs == [vs[0]] + vs[1..];
    }
  }

  /** Filtering a list in ascending id order gives a list in ascending id order. */
  lemma {:induction false} FilterAscending(vs: seq<NoteView>, keep: NoteView -> bool)
    requires forall i, j :: 0 <= i < j < |vs| ==> vs[i].id < vs[j].id
    ensures forall i, j :: 0 <= i < j < |Filter(vs, keep)| ==> Filter(vs, keep)[i].id < Filter(vs, keep)[j].id
  {
    if vs != [] {
      FilterAscending(vs[1..], keep);
      FilterMembers(vs[1..], keep);
      var rest := Filter(vs[1..], keep);
      forall k | 0 <= k < |rest| ensures vs[0].id < rest[k].id {
        assert rest[k] in vs[1..];
      }
    }
  }

  lemma {:induction false} FilterKeepsAll(vs: seq<NoteView>, keep: NoteView -> bool)
    requires forall v :: v in vs ==> keep(v)
    ensures Filter(vs, keep) == vs
  {
    if vs != [] {
      assert vs[0] in vs;
      assert forall v :: v in vs[1..] ==> v in vs;
      FilterKeepsAll(vs[1..], keep);
    }
  }

  lemma {:induction false} FilterKeepsNone(vs: seq<NoteView>, keep: NoteView -> bool)
    requires forall v :: v in vs ==> !keep(v)
    ensures Filter(vs, keep) == []
  {
    if vs != [] {
      assert vs[0] in vs;
      assert forall v :: v in vs[1..] ==> v in vs;
      FilterKeepsNone(vs[1..], keep);
    }
  }

  lemma {:induction false} FilterSameTest(vs: seq<NoteView>, keep1: NoteView -> bool, keep2: NoteView -> bool)
    requires forall v :: v in vs ==> keep1(v) == keep2(v)
    ensures Filter(vs, keep1) == Filter(vs, keep2)
  {
    if vs != [] {
      assert vs[0] in vs;
      assert forall v :: v in vs[1..] ==> v in vs;
      FilterSameTest(vs[1..], keep1, keep2);
    }
  }

  /** The query string of the search handler; a missing `q` parameter matches every note. */
  function QueryText(q: Option<string>): (s: string)
    ensures q.Some? ==> s == q.value
    ensures q.None? ==> forall v :: Matches(v, s)
  {
    match q
    case None => ""
    case Some(s) => s
  }

  /**
   * The search handler: the caller's notes that match the query, as search
   * hits in strictly ascending id order. Each hit is the projection of a
   * matching note of the caller.
   */
  function Search(t: Tables, user: string, q: Option<string>): (hs: seq<SearchHit>)
    ensures forall i :: 0 <= i < |hs| ==>
      && OwnsNote(t, user, hs[i].id)
      && hs[i] == Hit(Project(t, hs[i].id))
      && Matches(Project(t, hs[i].id), QueryText(q))
    ensures forall i, j :: 0 <= i < j < |hs| ==> hs[i].id < hs[j].id
  {
    var text := QueryText(q);
    var keep := v => Matches(v, text);
    var l := List(t, user);
    FilterMembers(l, keep);
    FilterAscending(l, keep);
    var f := Filter(l, keep);
    assert forall i :: 0 <= i < |f| ==> f[i] in l && keep(f[i]);
    HitsOf(f)
  }

  /** The list holds exactly the caller's notes, each once, each as the view handler shows it. */
  lemma ListIsExactlyOwned(t: Tables, user: string)
    requires Valid(t)
    ensures forall id :: Listed(List(t, user), id) <==> OwnsNote(t, user, id)
    ensures forall i :: 0 <= i < |List(t, user)| ==>
      View(t, user, List(t, user)[i].id) == Ok(List(t, user)[i])
    ensures forall i, j :: 0 <= i < j < |List(t, user)| ==> List(t, user)[i].id != List(t, user)[j].id
  {
    ListBelowCorrect(t, user, t.nextNoteId);
  }

  /** Every matching note of the caller is among the search hits. */
  lemma {:induction false} MatchingNotesAreHits(t: Tables, user: string, q: string, id: nat)
    requires Valid(t) && OwnsNote(t, user, id) && Matches(Project(t, id), q)
    ensures Found(Search(t, user, Some(q)), id)
  {
    var l := List(t, user);
    var keep := v => Matches(v, q);
    var f := Filter(l, keep);
    FilterMembers(l, keep);
    assert Listed(l, id);
    var i :| 0 <= i < |l| && l[i].id == id;
    assert l[i] in f;
    var k :| 0 <= k < |f| && f[k] == l[i];
    assert Search(t, user, Some(q))[k].id == id;
  }

  /**
   * The search returns exactly the caller's notes that match the query,
   * each once, in ascending id order, each hit the projection of its note.
   */
  lemma SearchIsExactlyMatching(t: Tables, user: string, q: Option<string>)
    requires Valid(t)
    ensures forall id :: Found(Search(t, user, q), id) <==>
      OwnsNote(t, user, id) && Matches(Project(t, id), QueryText(q))
    ensures forall i :: 0 <= i < |Search(t, user, q)| ==>
      var h := Search(t, user, q)[i];
      OwnsNote(t, user, h.id) && h == Hit(Project(t, h.id))
    ensures forall i, j :: 0 <= i < j < |Search(t, user, q)| ==>
      Search(t, user, q)[i].id < Search(t, user, q)[j].id
  {
    var text := QueryText(q);
    assert Search(t, user, q) == Search(t, user, Some(text));
    var r := Search(t, user, q);
    forall id | OwnsNote(t, user, id) && Matches(Project(t, id), text) ensures Found(r, id) {
      MatchingNotesAreHits(t, user, text, id);
    }
  }

  /** A note of the caller whose content contains the query is found. */
  lemma FoundByContent(t: Tables, user: string, id: nat, q: string)
    requires Valid(t) && OwnsNote(t, user, id)
    requires ContainsIgnoringCase(t.notes[id].content, q)
    ensures Found(Search(t, user, Some(q)), id)
  {
    SearchIsExactlyMatching(t, user, Some(q));
  }

  /** Searching with an empty or missing query gives the whole list, in list order. */
  lemma SearchEmptyIsList(t: Tables, user: string)
    ensures Search(t, user, None) == HitsOf(List(t, user))
    ensures Search(t, user, Some("")) == HitsOf(List(t, user))
  {
    FilterKeepsAll(List(t, user), v => Matches(v, ""));
  }

  /** Queries that differ only in the case of ASCII letters give the same results. */
  lemma SearchCaseIrrelevant(t: Tables, user: string, q1: string, q2: string)
    requires Lower(q1) == Lower(q2)
    ensures Search(t, user, Some(q1)) == Search(t, user, Some(q2))
  {
    forall v: NoteView ensures Matches(v, q1) == Matches(v, q2) {
      QueryCaseIrrelevant(v.title, q1, q2);
      QueryCaseIrrelevant(v.content, q1, q2);
      if v.category.Some? {
        QueryCaseIrrelevant(v.category.value, q1, q2);
      }
    }
    FilterSameTest(List(t, user), v => Matches(v, q1), v => Matches(v, q2));
  }

  /** Lower-casing the query first changes no result. */
  lemma SearchLowerQuery(t: Tables, user: string, q: string)
    ensures Search(t, user, Some(Lower(q))) == Search(t, user, Some(q))
  {
    LowerIdempotent(q);
    SearchCaseIrrelevant(t, user, Lower(q), q);
  }

  /** A query longer than every title, content and category name finds nothing. */
  lemma LongQueryFindsNothing(t: Tables, user: string, q: string)
    requires forall id :: id in t.notes ==> |t.notes[id].title| < |q| && |t.notes[id].content| < |q|
    requires forall c :: c in t.categories ==> |t.categories[c].name| < |q|
    ensures Search(t, user, Some(q)) == []
  {
    var l := List(t, user);
    forall v | v in l ensures !Matches(v, q) {
      assert v.id in t.notes && v == Project(t, v.id);
    }
    FilterKeepsNone(l, v => Matches(v, q));
  }

  /** A note of another user is never shown, listed or found. */
  lemma OtherUsersNotesHidden(t: Tables, caller: string, id: nat, q: Option<string>)
    requires Valid(t)
    requires id in t.notes && t.notes[id].owner != caller
    ensures View(t, caller, id) == Err(NotFound)
    ensures !Listed(List(t, caller), id)
    ensures !Found(Search(t, caller, q), id)
  {
    ListIsExactlyOwned(t, caller);
    SearchIsExactlyMatching(t, caller, q);
  }
}
