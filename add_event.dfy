/** Saving a calendar entry: the duplicate check on (title, date), the insert
    into the remote store, and the hook's loading/error state. */
module AddEvent {
  import opened Wrappers

  /** One document of the remote `events` collection. Document ids are
      modelled as numbers handed out in order. */
  datatype StoredEntry = StoredEntry(id: nat, title: string, date: string, createdAt: int)

  /** The message of the error thrown for a duplicate. */
  const DuplicateMessage: string := "이미 같은 날짜와 이름의 일정이 존재합니다."

  /** What `add` rethrows: the duplicate error, or a failure of the store. */
  datatype AddError = DuplicateError(message: string) | StoreError

  /** The `find` predicate: both the title and the date are equal. */
  predicate SameKey(e: StoredEntry, title: string, date: string) {
    e.title == title && e.date == date
  }

  /** `events.find(...)`: the first entry with the same title and date. */
  function FindDuplicate(entries: seq<StoredEntry>, title: string, date: string): (r: Option<StoredEntry>)
    ensures r.None? <==> forall i :: 0 <= i < |entries| ==> !SameKey(entries[i], title, date)
    ensures r.Some? ==> r.value in entries && SameKey(r.value, title, date)
    ensures r.Some? ==> exists i :: 0 <= i < |entries| && r.value == entries[i]
                                    && forall j :: 0 <= j < i ==> !SameKey(entries[j], title, date)
  {
    if entries == [] then None
    else if SameKey(entries[0], title, date) then Some(entries[0])
    else
      var r := FindDuplicate(entries[1..], title, date);
      assert forall i :: 1 <= i < |entries| ==> entries[i] == entries[1..][i - 1];
      if r.Some? then
        var i :| 0 <= i < |entries[1..]| && r.value == entries[1..][i]
                 && forall j :: 0 <= j < i ==> !SameKey(entries[1..][j], title, date);
        assert r.value == entries[i + 1];
        assert forall j :: 0 <= j < i + 1 ==> !SameKey(entries[j], title, date);
        r
      else r
  }

  /** An entry that shares only the title, or only the date, with the new
      one does not block it. */
  lemma PartialMatchIsNoDuplicate(entries: seq<StoredEntry>, title: string, date: string)
    requires forall i :: 0 <= i < |entries| ==> entries[i].title != title || entries[i].date != date
    ensures FindDuplicate(entries, title, date) == None
  {
  }

  /** No two entries share both title and date. */
  ghost predicate NoDuplicatePairs(entries: seq<StoredEntry>) {
    forall i, j :: 0 <= i < j < |entries| ==> !SameKey(entries[j], entries[i].title, entries[i].date)
  }

  /** Appending an entry the duplicate check let through keeps the store
      free of duplicate pairs. */
  lemma AppendUnmatchedKeepsNoDuplicatePairs(entries: seq<StoredEntry>, e: StoredEntry)
    requires NoDuplicatePairs(entries)
    requires FindDuplicate(entries, e.title, e.date) == None
    ensures NoDuplicatePairs(entries + [e])
  {
    var s := entries + [e];
    forall i, j | 0 <= i < j < |s|
      ensures !SameKey(s[j], s[i].title, s[i].date)
    {
      if j == |entries| {
        assert !SameKey(entries[i], e.title, e.date);
      }
    }
  }

  /** The remote collection, as far as `add` uses it. A failing call (a
      transport or permission error) is chosen by the caller's flag. */
  class EventStore {
    var entries: seq<StoredEntry>
    var nextId: nat

    /** Every id in use is below the next one to hand out. */
    ghost predicate Valid()
      reads this
    {
      forall i :: 0 <= i < |entries| ==> entries[i].id < nextId
    }

    constructor()
      ensures Valid() && entries == [] && nextId == 0
    {
      entries := [];
      nextId := 0;
    }

    /** `getEvents`: every stored entry, or the store's error. */
    method GetEvents(fails: bool) returns (r: Result<seq<StoredEntry>, AddError>)
      ensures fails ==> r == Failure(StoreError)
      ensures !fails ==> r == Success(entries)
    {
      if fails {
        return Failure(StoreError);
      }
      return Success(entries);
    }

    /** `addEvent`: stores one new entry and returns its fresh id, or fails
      and writes nothing. */
    method Insert(title: string, date: string, createdAt: int, fails: bool) returns (r: Result<nat, AddError>)
      requires Valid()
      modifies this
      ensures Valid()
      ensures fails ==> r == Failure(StoreError) && entries == old(entries) && nextId == old(nextId)
      ensures !fails ==>
                r == Success(old(nextId))
                && entries == old(entries) + [StoredEntry(old(nextId), title, date, createdAt)]
                && nextId == old(nextId) + 1
      ensures !fails ==> forall i :: 0 <= i < |old(entries)| ==> old(entries)[i].id != r.value
    {
      if fails {
        return Failure(StoreError);
      }
      r := Success(nextId);
      entries := entries + [StoredEntry(nextId, title, date, createdAt)];
      nextId := nextId + 1;
    }
  }

  /** The state of `useAddEvent`. */
  class AddEventHook {
    var loading: bool
    var error: Option<AddError>

    constructor()
      ensures !loading && error == None
    {
      loading := false;
      error := None;
    }

    /** `add(title, date)`; `createdAt` is the store's clock reading and
        `readFails`/`writeFails` say whether the two store calls fail. */
    method Add(store: EventStore, title: string, date: string, createdAt: int,
               readFails: bool, writeFails: bool) returns (r: Result<nat, AddError>)
      requires store.Valid()
      modifies this, store
      ensures store.Valid() && !loading
      ensures r.Failure? ==>
                error == Some(r.error) && store.entries == old(store.entries) && store.nextId == old(store.nextId)
      ensures r.Success? ==> error == old(error)
      ensures readFails ==> r == Failure(StoreError)
      ensures !readFails && FindDuplicate(old(store.entries), title, date).Some? ==>
                r == Failure(DuplicateError(DuplicateMessage))
      ensures !readFails && FindDuplicate(old(store.entries), title, date).None? && writeFails ==>
                r == Failure(StoreError)
      ensures !readFails && FindDuplicate(old(store.entries), title, date).None? && !writeFails ==>
                r == Success(old(store.nextId))
                && store.entries == old(store.entries) + [StoredEntry(old(store.nextId), title, date, createdAt)]
                && store.nextId == old(store.nextId) + 1
      ensures r.Success? ==> forall i :: 0 <= i < |old(store.entries)| ==> old(store.entries)[i].id != r.value
      ensures NoDuplicatePairs(old(store.entries)) ==> NoDuplicatePairs(store.entries)
    {
      loading := true;
      var events := store.GetEvents(readFails);
      if events.Failure? {
        r := Failure(events.error);
      } else {
        var duplicate := FindDuplicate(events.value, title, date);
        if duplicate.Some? {
          r := Failure(DuplicateError(DuplicateMessage));
        } else {
          r := store.Insert(title, date, createdAt, writeFails);
          if r.Success? && NoDuplicatePairs(old(store.entries)) {
            AppendUnmatchedKeepsNoDuplicatePairs(old(store.entries), StoredEntry(r.value, title, date, createdAt));
          }
        }
      }
      if r.Failure? {
        error := Some(r.error);
      }
      loading := false;
    }
  }

  /** Saving the same title and date twice in a row, on a store that
      answers: the first call stores the entry, the second is refused as a
      duplicate. */
  method SaveTwice(title: string, date: string) returns (first: Result<nat, AddError>, second: Result<nat, AddError>)
    ensures first.Success?
    ensures second == Failure(DuplicateError(DuplicateMessage))
  {
    var store := new EventStore();
    var hook := new AddEventHook();
    first := hook.Add(store, title, date, 0, false, false);
    second := hook.Add(store, title, date, 1, false, false);
  }
}
