/// The Note entity and the note repository (src/notes/repositories/note.repository.ts).
/// The `notes` table is a sequence of records in insertion order. The queries are
/// functions of that table; create, update and delete are methods of the
/// NoteRepository class that change it in place.
module NoteStore {
  import opened Common

  /** A row of the `notes` table (src/notes/entities/note.entity.ts). */
  datatype Note = Note(id: Id, title: string, content: string, userId: Id, createdAt: nat, updatedAt: nat)

  /** The fields handed to `create`. */
  datatype NoteData = NoteData(title: string, content: string, userId: Id)

  /** The fields handed to `update`; an absent field keeps its stored value. */
  datatype NotePatch = NotePatch(title: Option<string>, content: Option<string>)

  /** One page of a listing (src/notes/interfaces/paginated-notes.interface.ts). */
  datatype PaginatedNotes = PaginatedNotes(items: seq<Note>, total: nat, currentPage: nat, totalPages: nat)

  /** The primary key is unique within the table. */
  ghost predicate UniqueIds(t: seq<Note>) {
    forall i, j :: 0 <= i < j < |t| ==> t[i].id != t[j].id
  }

  // ---------------------------------------------------------------------
  // Lookups

  function FindAll(t: seq<Note>): (r: seq<Note>)
    ensures forall n :: n in r <==> n in t
  {
    t
  }

  function FindById(t: seq<Note>, id: Id): (r: Option<Note>)
    ensures r.Some? <==> exists n :: n in t && n.id == id
    ensures r.Some? ==> r.value in t && r.value.id == id
  {
    if t == [] then None
    else if t[0].id == id then Some(t[0])
    else FindById(t[1..], id)
  }

  /** The joint lookup `where: { id: noteId, userId }`. */
  function FindByUserIdAndNoteId(t: seq<Note>, userId: Id, noteId: Id): (r: Option<Note>)
    ensures r.Some? <==> exists n :: n in t && n.id == noteId && n.userId == userId
    ensures r.Some? ==> r.value in t && r.value.id == noteId && r.value.userId == userId
  {
    if t == [] then None
    else if t[0].id == noteId && t[0].userId == userId then Some(t[0])
    else FindByUserIdAndNoteId(t[1..], userId, noteId)
  }

  /** With unique keys, the lookup by id finds the one note that carries it. */
  lemma {:induction false} FindByIdUnique(t: seq<Note>, n: Note)
    requires UniqueIds(t) && n in t
    ensures FindById(t, n.id) == Some(n)
  {
    if t[0] != n {
      var j :| 0 <= j < |t| && t[j] == n;
      assert j != 0;
      assert t[0].id != n.id;
      assert t[1..][j - 1] == n;
      FindByUniqueTail(t);
      FindByIdUnique(t[1..], n);
    }
  }

  /** With unique keys, two stored notes with the same key are the same note. */
  lemma SameIdSameNote(t: seq<Note>, m: Note, n: Note)
    requires UniqueIds(t) && m in t && n in t && m.id == n.id
    ensures m == n
  {
    var i :| 0 <= i < |t| && t[i] == m;
    var j :| 0 <= j < |t| && t[j] == n;
    assert !(i < j) && !(j < i);
  }

  lemma FindByUniqueTail(t: seq<Note>)
    requires UniqueIds(t) && t != []
    ensures UniqueIds(t[1..])
  {
    forall i, j | 0 <= i < j < |t[1..]|
      ensures t[1..][i].id != t[1..][j].id
    {
      assert t[1..][i] == t[i + 1] && t[1..][j] == t[j + 1];
    }
  }

  /** The joint lookup finds a note exactly when the lookup by id finds one that
      the given user owns: a note of another owner and a missing id look alike. */
  lemma JointLookupIsOwnedLookup(t: seq<Note>, userId: Id, noteId: Id)
    requires UniqueIds(t)
    ensures FindByUserIdAndNoteId(t, userId, noteId) ==
      (match FindById(t, noteId)
       case Some(n) => if n.userId == userId then Some(n) else None
       case None => None)
  {
    var r := FindByUserIdAndNoteId(t, userId, noteId);
    if r.Some? {
      FindByIdUnique(t, r.value);
    } else if FindById(t, noteId).Some? {
      FindByIdUnique(t, FindById(t, noteId).value);
    }
  }

  // ---------------------------------------------------------------------
  // Filtering, ordering, paging

  /** The `where` of the paginated query: the owner, and a title filter only when
      `search` is present and non-empty (JavaScript's `if (search)`). */
  predicate MatchesFilter(n: Note, userId: Id, search: Option<string>) {
    n.userId == userId && (search.None? || search.value == [] || Contains(n.title, search.value))
  }

  /** The rows that satisfy the filter, in table order, each as often as it is stored. */
  function Filter(t: seq<Note>, userId: Id, search: Option<string>): (r: seq<Note>)
    ensures forall n :: multiset(r)[n] == if MatchesFilter(n, userId, search) then multiset(t)[n] else 0
    ensures forall n :: n in r <==> n in t && MatchesFilter(n, userId, search)
  {
    if t == [] then []
    else
      assert t == [t[0]] + t[1..];
      (if MatchesFilter(t[0], userId, search) then [t[0]] else []) + Filter(t[1..], userId, search)
  }

  /** Most recently updated first. */
  predicate RecencyOrdered(t: seq<Note>) {
    forall i, j :: 0 <= i < j < |t| ==> t[i].updatedAt >= t[j].updatedAt
  }

  /** `t` lists the notes of `s` (a permutation), most recently updated first. The
      database breaks no ties, so any such `t` is a possible answer. */
  ghost predicate IsRecencyOrderOf(s: seq<Note>, t: seq<Note>) {
    RecencyOrdered(t) && multiset(t) == multiset(s)
  }

  /** Putting a note in front of an ordered listing keeps it ordered when the note
      is at least as recent as the listing's head. */
  lemma ConsOrdered(a: Note, s: seq<Note>)
    requires RecencyOrdered(s) && (s == [] || a.updatedAt >= s[0].updatedAt)
    ensures RecencyOrdered([a] + s)
  {
    var r := [a] + s;
    forall i, j | 0 <= i < j < |r| ensures r[i].updatedAt >= r[j].updatedAt {
      assert r[j] == s[j - 1];
      if i > 0 {
        assert r[i] == s[i - 1];
      }
    }
  }

  function Insert(x: Note, t: seq<Note>): (r: seq<Note>)
    requires RecencyOrdered(t)
    ensures RecencyOrdered(r)
    ensures multiset(r) == multiset(t) + multiset{x}
    ensures r != [] && (r[0] == x || (t != [] && r[0] == t[0]))
  {
    if t == [] || t[0].updatedAt <= x.updatedAt then
      ConsOrdered(x, t);
      [x] + t
    else
      var rest := Insert(x, t[1..]);
      ConsOrdered(t[0], rest);
      assert multiset(t) == multiset{t[0]} + multiset(t[1..]) by {
        assert t == [t[0]] + t[1..];
      }
      assert multiset([t[0]] + rest) == multiset{t[0]} + multiset(rest);
      [t[0]] + rest
  }

  /** One ordering the database may return for `order: { updatedAt: 'DESC' }`. */
  function SortByRecency(t: seq<Note>): (r: seq<Note>)
    ensures IsRecencyOrderOf(t, r)
  {
    if t == [] then []
    else
      assert t == [t[0]] + t[1..];
      Insert(t[0], SortByRecency(t[1..]))
  }

  /** `skip` then `take` on an ordered result. */
  function Window(t: seq<Note>, skip: nat, take: nat): (r: seq<Note>)
    ensures |r| == if skip >= |t| then 0 else Min(take, |t| - skip)
    ensures forall k :: 0 <= k < |r| ==> r[k] == t[skip + k]
  {
    if skip >= |t| then [] else t[skip..Min(skip + take, |t|)]
  }

  /** `pages` pages of `limit` rows hold `total` rows, and one page fewer would not. */
  predicate IsPageCount(pages: nat, total: nat, limit: nat) {
    pages * limit >= total && (pages == 0 || (pages - 1) * limit < total)
  }

  /** Math.ceil(total / limit) on integers. */
  function CeilDiv(total: nat, limit: nat): (r: nat)
    requires limit >= 1
    ensures IsPageCount(r, total, limit)
  {
    var q := (total + limit - 1) / limit;
    DivBounds(total + limit - 1, limit);
    q
  }

  lemma DivBounds(a: nat, b: nat)
    requires b >= 1
    ensures (a / b) * b <= a < (a / b) * b + b
  {
  }

  /** The number of pages is the least page count that holds every matching note. */
  lemma {:induction false} CeilDivIsLeast(total: nat, limit: nat, pages: nat)
    requires limit >= 1 && pages * limit >= total
    ensures CeilDiv(total, limit) <= pages
  {
    var r := CeilDiv(total, limit);
    if r > pages {
      assert (r - 1) * limit >= pages * limit by {
        MulMonotone(pages, r - 1, limit);
      }
    }
  }

  lemma MulMonotone(a: nat, b: nat, c: nat)
    requires a <= b
    ensures a * c <= b * c
  {
  }

  /** No pages exactly when nothing matches. */
  lemma NoPagesIffEmpty(total: nat, limit: nat)
    requires limit >= 1
    ensures CeilDiv(total, limit) == 0 <==> total == 0
  {
  }

  // ---------------------------------------------------------------------
  // The listing queries

  /** `find({ where: { userId }, order: { updatedAt: 'DESC' } })`. */
  function FindByUserId(t: seq<Note>, userId: Id): (r: seq<Note>)
    ensures forall n :: n in r <==> n in t && n.userId == userId
    ensures IsRecencyOrderOf(Filter(t, userId, None), r)
  {
    SortByRecency(Filter(t, userId, None))
  }

  /** `findAndCount` with the owner/title filter, newest first, skipping
      `(page - 1) * limit` rows and taking `limit`. */
  function FindByUserIdPaginated(t: seq<Note>, userId: Id, page: int, limit: int, search: Option<string>)
    : (r: PaginatedNotes)
    requires page >= 1 && limit >= 1
    ensures r.total == |Filter(t, userId, search)|
    ensures r.currentPage == page
    ensures IsPageCount(r.totalPages, r.total, limit)
    ensures forall n :: n in r.items ==> n in t && MatchesFilter(n, userId, search)
    ensures |r.items| == if Offset(page, limit) >= r.total then 0 else Min(limit, r.total - Offset(page, limit))
    ensures exists o :: IsRecencyOrderOf(Filter(t, userId, search), o) && r.items == Window(o, Offset(page, limit), limit)
  {
    var matching := Filter(t, userId, search);
    var ordered := SortByRecency(matching);
    var items := Window(ordered, Offset(page, limit), limit);
    WindowOfOrdering(matching, ordered, Offset(page, limit), limit);
    PaginatedNotes(items, |matching|, page, CeilDiv(|matching|, limit))
  }

  lemma WindowOfOrdering(s: seq<Note>, o: seq<Note>, skip: nat, take: nat)
    requires IsRecencyOrderOf(s, o)
    ensures |o| == |s|
    ensures forall n :: n in Window(o, skip, take) ==> n in s
  {
    assert |multiset(o)| == |multiset(s)|;
    forall n | n in Window(o, skip, take) ensures n in s {
      var k :| 0 <= k < |Window(o, skip, take)| && Window(o, skip, take)[k] == n;
      assert o[skip + k] in multiset(o);
    }
  }

  /** The number of rows skipped before page `page`. */
  function Offset(page: int, limit: int): nat
    requires page >= 1 && limit >= 1
  {
    (page - 1) * limit
  }

  /** The listing's first entry is a note that was updated after every other one of
      the listed notes. */
  lemma MostRecentFirst(s: seq<Note>, o: seq<Note>, n: Note)
    requires IsRecencyOrderOf(s, o) && n in s
    requires forall m :: m in s && m != n ==> m.updatedAt < n.updatedAt
    ensures o != [] && o[0] == n
  {
    assert n in multiset(o);
    var j :| 0 <= j < |o| && o[j] == n;
    assert o[0] in multiset(s);
  }

  // ---------------------------------------------------------------------
  // The table and its updates

  function ApplyPatch(n: Note, p: NotePatch, time: nat): Note {
    n.(title := if p.title.Some? then p.title.value else n.title,
       content := if p.content.Some? then p.content.value else n.content,
       updatedAt := time)
  }

  /** `update(id, data)` on the table: the row with key `id` takes the patch. */
  function PatchById(t: seq<Note>, id: Id, p: NotePatch, time: nat): (r: seq<Note>)
    ensures |r| == |t|
    ensures forall i :: 0 <= i < |r| ==> r[i] == if t[i].id == id then ApplyPatch(t[i], p, time) else t[i]
  {
    seq(|t|, i requires 0 <= i < |t| => if t[i].id == id then ApplyPatch(t[i], p, time) else t[i])
  }

  lemma PatchKeepsKeys(t: seq<Note>, r: seq<Note>, id: Id, p: NotePatch, time: nat)
    requires UniqueIds(t) && r == PatchById(t, id, p, time)
    ensures UniqueIds(r)
  {
    forall i, j | 0 <= i < j < |r| ensures r[i].id != r[j].id {
      assert r[i].id == t[i].id && r[j].id == t[j].id;
    }
  }

  /** Patching at a time later than every stored update keeps the key and time
      bounds, and leaves every other note older than the patched one. */
  lemma PatchKeepsBounds(t: seq<Note>, r: seq<Note>, id: Id, p: NotePatch, time: nat, nextId: Id)
    requires forall n :: n in t ==> n.id < nextId && n.createdAt <= n.updatedAt < time
    requires r == PatchById(t, id, p, time)
    ensures forall n :: n in r ==> n.id < nextId && n.createdAt <= n.updatedAt <= time
    ensures forall n :: n in r && n.id != id ==> n.updatedAt < time
  {
    forall n | n in r
      ensures n.id < nextId && n.createdAt <= n.updatedAt <= time
      ensures n.id != id ==> n.updatedAt < time
    {
      var i :| 0 <= i < |r| && r[i] == n;
      assert t[i] in t;
    }
  }

  /** After the patch, the lookup by the patched key finds the patched note. */
  lemma PatchedRowFound(t: seq<Note>, id: Id, p: NotePatch, time: nat, n: Note)
    requires UniqueIds(t) && n in t && n.id == id
    ensures FindById(PatchById(t, id, p, time), id) == Some(ApplyPatch(n, p, time))
  {
    var r := PatchById(t, id, p, time);
    var k :| 0 <= k < |t| && t[k] == n;
    assert r[k] == ApplyPatch(n, p, time);
    PatchKeepsKeys(t, r, id, p, time);
    FindByIdUnique(r, r[k]);
  }

  /** The table without the row of key `id`. */
  function Without(t: seq<Note>, id: Id): (r: seq<Note>)
    ensures forall n :: n in r <==> n in t && n.id != id
  {
    if t == [] then []
    else
      assert t == [t[0]] + t[1..];
      (if t[0].id == id then [] else [t[0]]) + Without(t[1..], id)
  }

  class NoteRepository {
    var notes: seq<Note>
    /** Logical clock standing for `@CreateDateColumn` / `@UpdateDateColumn`. */
    var clock: nat
    /** Every key below `nextId` may be in use; keys from `nextId` on are fresh. */
    var nextId: Id

    ghost predicate Valid()
      reads this
    {
      && UniqueIds(notes)
      && forall n :: n in notes ==> n.id < nextId && n.createdAt <= n.updatedAt <= clock
    }

    constructor ()
      ensures Valid() && notes == []
    {
      notes, clock, nextId := [], 0, 0;
    }

    /** `save` a new row: a fresh key, both timestamps set to the current time. */
    method Create(data: NoteData) returns (r: Note)
      requires Valid()
      modifies this
      ensures Valid()
      ensures r.title == data.title && r.content == data.content && r.userId == data.userId
      ensures forall n :: n in old(notes) ==> n.id != r.id
      ensures clock > old(clock) && r.createdAt == r.updatedAt == clock
      ensures notes == old(notes) + [r]
    {
      clock := clock + 1;
      r := Note(nextId, data.title, data.content, data.userId, clock, clock);
      nextId := nextId + 1;
      notes := notes + [r];
    }

    /** `update(id, data)` then `findById(id)`. Only the row with key `id` changes:
        the fields present in the patch and its update time. */
    method Update(id: Id, patch: NotePatch) returns (r: Option<Note>)
      requires Valid()
      modifies this
      ensures Valid()
      ensures r == FindById(notes, id)
      ensures r.Some? <==> old(FindById(notes, id)).Some?
      ensures r.None? ==> notes == old(notes) && clock == old(clock)
      ensures r.Some? ==> clock == old(clock) + 1 && notes == PatchById(old(notes), id, patch, clock)
      ensures r.Some? ==> r.value == ApplyPatch(old(FindById(notes, id)).value, patch, clock)
      ensures r.Some? ==> forall n :: n in notes && n.id != id ==> n.updatedAt < clock
      ensures nextId == old(nextId)
    {
      var found := FindById(notes, id);
      if found.None? {
        return None;
      }
      var before := notes;
      clock := clock + 1;
      notes := PatchById(before, id, patch, clock);
      PatchKeepsKeys(before, notes, id, patch, clock);
      PatchKeepsBounds(before, notes, id, patch, clock, nextId);
      PatchedRowFound(before, id, patch, clock, found.value);
      r := Some(ApplyPatch(found.value, patch, clock));
    }

    /** `delete(id)`: reports whether a row was affected. */
    method Delete(id: Id) returns (deleted: bool)
      requires Valid()
      modifies this
      ensures Valid()
      ensures deleted <==> old(FindById(notes, id)).Some?
      ensures notes == Without(old(notes), id)
      ensures FindById(notes, id).None?
      ensures clock == old(clock) && nextId == old(nextId)
    {
      deleted := FindById(notes, id).Some?;
      var before := notes;
      notes := Without(notes, id);
      assert UniqueIds(notes) by {
        WithoutKeepsUnique(before, id);
      }
    }
  }

  lemma {:induction false} WithoutKeepsUnique(t: seq<Note>, id: Id)
    requires UniqueIds(t)
    ensures UniqueIds(Without(t, id))
  {
    if t != [] {
      FindByUniqueTail(t);
      WithoutKeepsUnique(t[1..], id);
      var rest := Without(t[1..], id);
      if t[0].id != id {
        assert Without(t, id) == [t[0]] + rest;
        forall k | 0 <= k < |rest| ensures rest[k].id != t[0].id {
          assert rest[k] in t[1..];
        }
      }
    }
  }
}
