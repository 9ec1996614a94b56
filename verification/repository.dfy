/**
 * The generic JSON-backed record store. The list it owns is `entities`; the backing
 * file is `file` (`None` while no file exists, otherwise the sequence it holds); the
 * events it raises are recorded in the ghost log `notifications`. The identifier of a
 * record is read through `key`, which yields `None` where the source's reflection finds
 * no identifier property.
 */
module Repository {
  import opened Wrappers
  import opened Search
  import opened Records

  /** A raised event: `EntityAdded` carries the new record, `EntityDeleted` the identifier asked for. */
  datatype Notification<T> = Added(entity: T) | Deleted(id: Option<string>)

  /** The lookup predicate: the record's identifier equals `id` (C# string equality, where null equals null). */
  function Matches<T>(key: T -> Option<string>, id: Option<string>): T -> bool
  {
    e => key(e) == id
  }

  /** The first record whose identifier is `id`, or `None`. */
  function Lookup<T>(s: seq<T>, key: T -> Option<string>, id: Option<string>): (r: Option<T>)
    ensures r.None? <==> forall i :: 0 <= i < |s| ==> key(s[i]) != id
    ensures r.Some? ==> exists i :: IsFirst(s, Matches(key, id), i) && r.value == s[i]
  {
    match FindFirst(s, Matches(key, id))
    case None => None
    case Some(i) => Some(s[i])
  }

  /**
   * The records left after deleting `id`: the first record with that identifier is
   * removed (`List<T>.Remove` of the record found), the others keep their order;
   * without such a record nothing changes.
   */
  function AfterDelete<T(==)>(s: seq<T>, key: T -> Option<string>, id: Option<string>): (r: seq<T>)
    ensures FindFirst(s, Matches(key, id)).None? ==> r == s
    ensures FindFirst(s, Matches(key, id)).Some? ==>
      var i := FindFirst(s, Matches(key, id)).value;
      r == s[..i] + s[i + 1..]
  {
    match FindFirst(s, Matches(key, id))
    case None => s
    case Some(i) =>
      RemoveFirstAt(s, i);
      RemoveFirst(s, s[i])
  }

  class JsonRepository<T(==)> {
    var entities: seq<T>
    var file: Option<seq<T>>
    const key: T -> Option<string>
    ghost var notifications: seq<Notification<T>>

    /** The list mirrors the backing file, or there is no file yet and the list is empty. */
    ghost predicate Mirrored()
      reads this
    {
      file == Some(entities) || (file == None && entities == [])
    }

    /** Opens the store over the current backing file and loads it. */
    constructor (file: Option<seq<T>>, key: T -> Option<string>)
      ensures this.file == file && this.key == key
      ensures entities == (if file.Some? then file.value else [])
      ensures notifications == []
      ensures Mirrored()
    {
      this.file := file;
      this.key := key;
      entities := [];
      notifications := [];
      new;
      LoadEntities();
    }

    /** Reads the whole backing file into the list; a missing file gives an empty list. */
    method LoadEntities()
      modifies this`entities
      ensures entities == (if file.Some? then file.value else [])
    {
      if file.Some? {
        entities := file.value;
      } else {
        entities := [];
      }
    }

    /** Overwrites the backing file with the whole list. */
    method SaveChanges()
      modifies this`file
      ensures file == Some(entities) && Mirrored()
    {
      file := Some(entities);
    }

    /** The live list, in insertion order. */
    function GetAllEntities(): (r: seq<T>)
      reads this
      ensures r == entities
    {
      entities
    }

    /** Appends the record (no check for a duplicate identifier), saves, then raises `EntityAdded`. */
    method Add(entity: T)
      modifies this`entities, this`file, this`notifications
      ensures entities == old(entities) + [entity]
      ensures file == Some(entities) && Mirrored()
      ensures notifications == old(notifications) + [Added(entity)]
    {
      entities := entities + [entity];
      SaveChanges();
      notifications := notifications + [Added(entity)];
    }

    /** The first record whose identifier equals `id`, or `None`. */
    function GetById(id: Option<string>): (r: Option<T>)
      reads this
      ensures r.None? <==> forall i :: 0 <= i < |entities| ==> key(entities[i]) != id
      ensures r.Some? ==> exists i :: IsFirst(entities, Matches(key, id), i) && r.value == entities[i]
    {
      Lookup(entities, key, id)
    }

    /**
     * Removes the first record whose identifier equals `id`, saves, then raises
     * `EntityDeleted(id)`; on a miss nothing happens at all.
     */
    method Delete(id: Option<string>)
      modifies this`entities, this`file, this`notifications
      ensures entities == AfterDelete(old(entities), key, id)
      ensures FindFirst(old(entities), Matches(key, id)).None? ==>
        file == old(file) && notifications == old(notifications)
      ensures FindFirst(old(entities), Matches(key, id)).Some? ==>
        file == Some(entities) && notifications == old(notifications) + [Deleted(id)]
      ensures old(Mirrored()) ==> Mirrored()
    {
      var found := Lookup(entities, key, id);
      if found.Some? {
        entities := RemoveFirst(entities, found.value);
        SaveChanges();
        notifications := notifications + [Deleted(id)];
      }
    }
  }

  /** Looking up after an append finds an earlier record first; the new record only when none matched before. */
  lemma LookupAfterAdd<T>(s: seq<T>, e: T, key: T -> Option<string>, id: Option<string>)
    ensures Lookup(s + [e], key, id) ==
      if Lookup(s, key, id).Some? then Lookup(s, key, id)
      else if key(e) == id then Some(e)
      else None
  {
    FindFirstAppend(s, [e], Matches(key, id));
  }

  /** Of two records sharing an identifier, lookup answers with the earlier one. */
  lemma LookupPrefersEarlier<T>(s: seq<T>, key: T -> Option<string>, i: int, j: int)
    requires 0 <= i < j < |s| && key(s[i]) == key(s[j])
    requires forall k :: 0 <= k < i ==> key(s[k]) != key(s[i])
    ensures Lookup(s, key, key(s[j])) == Some(s[i])
  {
    var p := Matches(key, key(s[j]));
    assert IsFirst(s, p, i);
    var k :| IsFirst(s, p, k) && Lookup(s, key, key(s[j])).value == s[k];
    FirstIsUnique(s, p, i, k);
  }

  /**
   * After deleting `id` (which removes its first match, at `i`; see `AfterDelete`) the lookup
   * of `id` finds the next record with that identifier, if any: only the first of several
   * duplicates is removed.
   */
  lemma LookupAfterDelete<T>(s: seq<T>, key: T -> Option<string>, id: Option<string>, i: int)
    requires IsFirst(s, Matches(key, id), i)
    ensures Lookup(s[..i] + s[i + 1..], key, id) == Lookup(s[i + 1..], key, id)
  {
    var p := Matches(key, id);
    var r, back := s[..i] + s[i + 1..], s[i + 1..];
    FindFirstAfterRemoval(s, p, i);
    var next := FindFirst(back, p);
    if next.Some? {
      assert r[i + next.value] == back[next.value];
    }
  }

  /** Deleting the identifier of a record just added, when no earlier record had it, restores the list. */
  lemma DeleteUndoesAdd<T>(s: seq<T>, e: T, key: T -> Option<string>)
    requires forall i :: 0 <= i < |s| ==> key(s[i]) != key(e)
    ensures AfterDelete(s + [e], key, key(e)) == s
  {
    FindFirstAppend(s, [e], Matches(key, key(e)));
    assert (s + [e])[..|s|] == s;
  }

  /**
   * A record type without an identifier property (as `Instructor`) never matches a
   * non-null identifier: lookup misses and delete is a no-op.
   */
  lemma NoIdentifierNeverMatches<T>(s: seq<T>, key: T -> Option<string>, x: string)
    requires forall e :: key(e) == None
    ensures Lookup(s, key, Some(x)) == None
    ensures AfterDelete(s, key, Some(x)) == s
  {
  }

  /** The instructor store: a non-null identifier never matches; a null one matches the first instructor. */
  lemma InstructorLookup(s: seq<Instructor>, x: string)
    ensures Lookup(s, InstructorKey, Some(x)) == None
    ensures AfterDelete(s, InstructorKey, Some(x)) == s
    ensures |s| > 0 ==> Lookup(s, InstructorKey, None) == Some(s[0])
    ensures |s| > 0 ==> AfterDelete(s, InstructorKey, None) == s[1..]
  {
    NoIdentifierNeverMatches(s, InstructorKey, x);
  }

  /** Saving and then opening a second store over the same file yields the same records in the same order. */
  method SaveThenReload<T(==)>(r: JsonRepository<T>) returns (r2: JsonRepository<T>)
    modifies r`file
    ensures r.entities == old(r.entities) && r.notifications == old(r.notifications)
    ensures r.file == Some(r.entities)
    ensures fresh(r2) && r2.entities == r.entities && r2.file == r.file
  {
    r.SaveChanges();
    r2 := new JsonRepository(r.file, r.key);
  }

  /** Add, look up, delete and look up again one student in a store that starts without a file. */
  method AddViewDeleteScenario(ada: Student)
    requires ada.studentId == "S100"
  {
    var students := new JsonRepository<Student>(None, StudentKey);
    assert students.entities == [];
    students.Add(ada);
    assert students.GetById(Some("S100")) == Some(ada) by {
      assert IsFirst(students.entities, Matches(StudentKey, Some("S100")), 0);
    }
    students.Delete(Some("S100"));
    assert students.entities == [];
    assert students.GetById(Some("S100")) == None;
    assert students.file == Some([]);
    assert students.notifications == [Added(ada), Deleted(Some("S100"))];
  }
}
