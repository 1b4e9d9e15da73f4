/// The note service (src/notes/services/note.service.ts). Every read and write of
/// a single note is preceded by the joint (id, owner) lookup, so a note of another
/// user and a missing note end in the same NotFound.
module NoteAccess {
  import opened Common
  import opened NoteStore

  /** The body of `POST /notes`: title and content only. The owner is always the
      caller, whose id is spread after the body's fields. */
  datatype CreateNoteDto = CreateNoteDto(title: string, content: string)

  /** The query string of `GET /notes` after validation (src/notes/dto/get-all-notes.dto.ts). */
  datatype GetAllNotesQuery = GetAllNotesQuery(page: int, limit: int, search: Option<string>)

  /** The query an empty query string yields: `page = 1`, `limit = 10`, no search. */
  const DefaultQuery := GetAllNotesQuery(1, 10, None)

  /** `findOne(id, userId)`: the note with that key and that owner, or NotFound. */
  function FindOne(t: seq<Note>, id: Id, userId: Id): (r: Result<Note>)
    ensures r.Err? <==> !exists n :: n in t && n.id == id && n.userId == userId
    ensures r.Err? ==> r.failure == NotFound
    ensures r.Ok? ==> r.value in t && r.value.id == id && r.value.userId == userId
  {
    match FindByUserIdAndNoteId(t, userId, id)
    case Some(n) => Ok(n)
    case None => Err(NotFound)
  }

  /** Asking for another user's note gives exactly the answer a key that is not
      stored at all gives. */
  lemma NotOwnedLooksMissing(t: seq<Note>, n: Note, userId: Id, missing: Id)
    requires UniqueIds(t) && n in t && n.userId != userId
    requires forall m :: m in t ==> m.id != missing
    ensures FindOne(t, n.id, userId) == FindOne(t, missing, userId) == Err(NotFound)
  {
    if m :| m in t && m.id == n.id && m.userId == userId {
      SameIdSameNote(t, m, n);
    }
  }

  /** `findAllByUser(userId)` as written: the whole unpaginated `findByUserId` list. */
  function FindAllByUser(t: seq<Note>, userId: Id): (r: seq<Note>)
    ensures forall n :: n in r <==> n in t && n.userId == userId
    ensures IsRecencyOrderOf(Filter(t, userId, None), r)
  {
    FindByUserId(t, userId)
  }

  /** `findAllByUser(userId, query)` as the controller and INoteService call it: one
      page of the caller's notes. */
  function FindAllByUserPaginated(t: seq<Note>, userId: Id, query: GetAllNotesQuery): (r: PaginatedNotes)
    requires query.page >= 1 && query.limit >= 1
    ensures r.total == |Filter(t, userId, query.search)|
    ensures r.currentPage == query.page
    ensures IsPageCount(r.totalPages, r.total, query.limit)
    ensures forall n :: n in r.items ==> n in t && MatchesFilter(n, userId, query.search)
    ensures |r.items| <= query.limit
    ensures |r.items| == if Offset(query.page, query.limit) >= r.total then 0
                         else Min(query.limit, r.total - Offset(query.page, query.limit))
    ensures exists o :: IsRecencyOrderOf(Filter(t, userId, query.search), o)
                        && r.items == Window(o, Offset(query.page, query.limit), query.limit)
  {
    FindByUserIdPaginated(t, userId, query.page, query.limit, query.search)
  }

  /** As written, the listing is never cut to a page: once a user owns more notes
      than the default limit, the service returns all of them, while the paginated
      listing returns at most `limit`. */
  lemma {:induction false} FindAllByUserIgnoresLimit(t: seq<Note>, userId: Id)
    requires |Filter(t, userId, None)| > DefaultQuery.limit
    ensures |FindAllByUser(t, userId)| > DefaultQuery.limit
    ensures |FindAllByUserPaginated(t, userId, DefaultQuery).items| == DefaultQuery.limit
  {
    var all := FindAllByUser(t, userId);
    assert |multiset(all)| == |multiset(Filter(t, userId, None))|;
  }

  class NoteService {
    const repository: NoteRepository

    constructor (repository: NoteRepository)
      requires repository.Valid()
      ensures this.repository == repository
      ensures Valid()
    {
      this.repository := repository;
    }

    ghost predicate Valid()
      reads this, repository
    {
      repository.Valid()
    }

    /** `create(dto, userId)`: the new note belongs to the caller. */
    method Create(dto: CreateNoteDto, userId: Id) returns (r: Note)
      requires Valid()
      modifies repository
      ensures Valid()
      ensures r.userId == userId && r.title == dto.title && r.content == dto.content
      ensures forall n :: n in old(repository.notes) ==> n.id != r.id
      ensures repository.notes == old(repository.notes) + [r]
      ensures r.createdAt == r.updatedAt == repository.clock > old(repository.clock)
      ensures FindOne(repository.notes, r.id, userId) == Ok(r)
    {
      r := repository.Create(NoteData(dto.title, dto.content, userId));
      SameIdFindOne(repository.notes, r, userId);
    }

    /** `update(id, dto, userId)`: NotFound unless the caller owns note `id`; otherwise
        only that note changes, and it becomes the first of the caller's listing. */
    method Update(id: Id, dto: NotePatch, userId: Id) returns (r: Result<Note>)
      requires Valid()
      modifies repository
      ensures Valid()
      ensures r.Err? <==> old(FindOne(repository.notes, id, userId)).Err?
      ensures r.Err? ==> r.failure == NotFound && repository.notes == old(repository.notes)
      ensures r.Ok? ==> r.value == ApplyPatch(old(FindOne(repository.notes, id, userId)).value, dto, repository.clock)
      ensures r.Ok? ==> r.value.id == id && r.value.userId == userId
      ensures |repository.notes| == |old(repository.notes)|
      ensures forall i :: 0 <= i < |repository.notes| && old(repository.notes)[i].id != id ==>
        repository.notes[i] == old(repository.notes)[i]
      ensures r.Ok? ==> var listed := FindAllByUser(repository.notes, userId); listed != [] && listed[0] == r.value
    {
      var owned := FindByUserIdAndNoteId(repository.notes, userId, id);
      if owned.None? {
        return Err(NotFound);
      }
      ghost var before := repository.notes;
      FindByIdUnique(before, owned.value);
      var updated := repository.Update(id, dto);
      r := if updated.Some? then Ok(updated.value) else Err(NotFound);
      var n := updated.value;
      forall m | m in Filter(repository.notes, userId, None) && m != n
        ensures m.updatedAt < n.updatedAt
      {
        if m.id == id {
          SameIdSameNote(repository.notes, m, n);
        }
      }
      MostRecentFirst(Filter(repository.notes, userId, None), FindAllByUser(repository.notes, userId), n);
    }

    /** `remove(id, userId)`: NotFound unless the caller owns note `id`; otherwise
        exactly that note is deleted. */
    method Remove(id: Id, userId: Id) returns (r: Result<()>)
      requires Valid()
      modifies repository
      ensures Valid()
      ensures r.Err? <==> old(FindOne(repository.notes, id, userId)).Err?
      ensures r.Err? ==> r.failure == NotFound && repository.notes == old(repository.notes)
      ensures r.Ok? ==> repository.notes == Without(old(repository.notes), id)
      ensures FindOne(repository.notes, id, userId).Err?
    {
      var owned := FindByUserIdAndNoteId(repository.notes, userId, id);
      if owned.None? {
        return Err(NotFound);
      }
      var deleted := repository.Delete(id);
      r := if deleted then Ok(()) else Err(NotFound);
    }
  }

  lemma SameIdFindOne(t: seq<Note>, n: Note, userId: Id)
    requires UniqueIds(t) && n in t && n.userId == userId
    ensures FindOne(t, n.id, userId) == Ok(n)
  {
    SameIdSameNote(t, FindOne(t, n.id, userId).value, n);
  }
}
