/** The calendar's event store: a map from a `YYYY-MM-DD` key to the ordered list of events of
    that day, the list operations that saving and deleting perform on one bucket, the chip
    summary drawn in each day cell, and persistence of the whole map under one storage key. */
module EventStore {
  import opened Wrappers
  import opened Text

  /** `{ id, title, notes }`. */
  datatype Event = Event(id: int, title: string, notes: string)

  /** `state.eventsByDate`. */
  type Index = map<string, seq<Event>>

  /** `state.eventsByDate[iso] || []`: a date without a bucket has no events. */
  function Bucket(index: Index, iso: string): (list: seq<Event>)
    ensures iso in index ==> list == index[iso]
    ensures iso !in index ==> list == []
  {
    if iso in index then index[iso] else []
  }

  // ---- one bucket ----

  predicate HasId(list: seq<Event>, id: int) {
    exists j :: 0 <= j < |list| && list[j].id == id
  }

  /** `list.findIndex(e => e.id === id)`: the first position holding `id`, or -1. */
  function FindIndex(list: seq<Event>, id: int): (i: int)
    ensures -1 <= i < |list|
    ensures i >= 0 ==> list[i].id == id && forall j :: 0 <= j < i ==> list[j].id != id
    ensures i == -1 <==> !HasId(list, id)
  {
    if list == [] then -1
    else if list[0].id == id then 0
    else
      var i := FindIndex(list[1..], id);
      assert forall j :: 0 < j < |list| ==> list[j] == list[1..][j - 1];
      if i == -1 then -1 else i + 1
  }

  /** `list[i] = { ...list[i], title, notes }` at the first event carrying `id`, when there is
      one: only that event's title and notes change, it keeps its place and its id. */
  function Edited(list: seq<Event>, id: int, title: string, notes: string): (r: seq<Event>)
    ensures |r| == |list|
    ensures forall j :: 0 <= j < |r| ==> r[j].id == list[j].id
    ensures forall j :: 0 <= j < |r| && j != FindIndex(list, id) ==> r[j] == list[j]
    ensures HasId(list, id) ==> var i := FindIndex(list, id); r[i].title == title && r[i].notes == notes
    ensures !HasId(list, id) ==> r == list
  {
    var i := FindIndex(list, id);
    if i == -1 then list else list[i := list[i].(title := title, notes := notes)]
  }

  /** `list.filter(e => e.id !== id)`. */
  function RemoveId(list: seq<Event>, id: int): (r: seq<Event>)
    ensures |r| <= |list|
  {
    if list == [] then []
    else if list[0].id == id then RemoveId(list[1..], id)
    else
      var t := RemoveId(list[1..], id);
      assert forall j :: 0 < j < |[list[0]] + t| ==> ([list[0]] + t)[j] == t[j - 1];
      [list[0]] + t
  }

  /** The number of events carrying `id`. */
  function CountId(list: seq<Event>, id: int): nat {
    if list == [] then 0 else (if list[0].id == id then 1 else 0) + CountId(list[1..], id)
  }

  /** Removal is exactly the events that carry `id`: the others stay, in their order. */
  lemma {:induction false} RemoveIdCount(list: seq<Event>, id: int)
    ensures |RemoveId(list, id)| == |list| - CountId(list, id)
  {
    if list != [] {
      RemoveIdCount(list[1..], id);
    }
  }

  lemma {:induction false} RemoveIdMembers(list: seq<Event>, id: int, e: Event)
    ensures e in RemoveId(list, id) <==> e in list && e.id != id
  {
    if list != [] {
      RemoveIdMembers(list[1..], id, e);
      assert list == [list[0]] + list[1..];
    }
  }

  /** No event with the id is left. */
  lemma RemoveIdGone(list: seq<Event>, id: int)
    ensures !HasId(RemoveId(list, id), id)
  {
    var r := RemoveId(list, id);
    forall j | 0 <= j < |r| ensures r[j].id != id {
      RemoveIdMembers(list, id, r[j]);
    }
  }

  /** Removal from a list with a known first event. */
  lemma RemoveIdCons(x: Event, rest: seq<Event>, id: int)
    ensures RemoveId([x] + rest, id) == (if x.id == id then [] else [x]) + RemoveId(rest, id)
  {
    ConsParts(x, rest);
  }

  lemma {:induction false} RemoveIdConcat(a: seq<Event>, b: seq<Event>, id: int)
    ensures RemoveId(a + b, id) == RemoveId(a, id) + RemoveId(b, id)
  {
    if a == [] {
      AppendEmpty(b);
    } else {
      var x, r := a[0], a[1..];
      RemoveIdConcat(r, b, id);
      ConsAppend(a, b);
      RemoveIdCons(x, r + b, id);
      RemoveIdCons(x, r, id);
      AppendAssoc(if x.id == id then [] else [x], RemoveId(r, id), RemoveId(b, id));
    }
  }

  lemma {:induction false} RemoveIdAbsent(list: seq<Event>, id: int)
    requires !HasId(list, id)
    ensures RemoveId(list, id) == list
  {
    if list != [] {
      assert list[0].id != id;
      assert !HasId(list[1..], id) by {
        forall j | 0 <= j < |list[1..]| ensures list[1..][j].id != id {
          assert list[1..][j] == list[j + 1];
        }
      }
      RemoveIdAbsent(list[1..], id);
      assert list == [list[0]] + list[1..];
    }
  }

  /** No two events of a bucket share an id. */
  predicate UniqueIds(list: seq<Event>) {
    forall i, j :: 0 <= i < j < |list| ==> list[i].id != list[j].id
  }

  lemma {:induction false} CountIdUnique(list: seq<Event>, id: int)
    requires UniqueIds(list)
    ensures CountId(list, id) == if HasId(list, id) then 1 else 0
  {
    if list != [] {
      var t := list[1..];
      assert UniqueIds(t) by {
        forall i, j | 0 <= i < j < |t| ensures t[i].id != t[j].id {
          assert t[i] == list[i + 1] && t[j] == list[j + 1];
        }
      }
      CountIdUnique(t, id);
      if list[0].id == id {
        assert !HasId(t, id) by {
          forall j | 0 <= j < |t| ensures t[j].id != id {
            assert t[j] == list[j + 1];
          }
        }
      } else {
        assert HasId(t, id) <==> HasId(list, id) by {
          if HasId(list, id) {
            var j :| 0 <= j < |list| && list[j].id == id;
            assert t[j - 1] == list[j];
          }
          if HasId(t, id) {
            var j :| 0 <= j < |t| && t[j].id == id;
            assert list[j + 1] == t[j];
          }
        }
      }
    }
  }

  /** With distinct ids, deleting an id that is present removes exactly one event. */
  lemma RemoveIdRemovesOne(list: seq<Event>, id: int)
    requires UniqueIds(list) && HasId(list, id)
    ensures |RemoveId(list, id)| == |list| - 1
  {
    RemoveIdCount(list, id);
    CountIdUnique(list, id);
  }

  /** Appending an event whose id is new to the bucket keeps the ids distinct. */
  lemma AppendFreshKeepsIdsUnique(list: seq<Event>, e: Event)
    requires UniqueIds(list) && !HasId(list, e.id)
    ensures UniqueIds(list + [e])
  {
    var r := list + [e];
    forall i, j | 0 <= i < j < |r| ensures r[i].id != r[j].id {
      if j == |list| {
        assert r[i] == list[i];
      } else {
        assert r[i] == list[i] && r[j] == list[j];
      }
    }
  }

  /** Editing never changes ids, so it keeps them distinct. */
  lemma EditKeepsIdsUnique(list: seq<Event>, id: int, title: string, notes: string)
    requires UniqueIds(list)
    ensures UniqueIds(Edited(list, id, title, notes))
  {
  }

  /** Removing events keeps the remaining ids distinct. */
  lemma {:induction false} RemoveKeepsIdsUnique(list: seq<Event>, id: int)
    requires UniqueIds(list)
    ensures UniqueIds(RemoveId(list, id))
  {
    if list != [] {
      var t := list[1..];
      assert UniqueIds(t) by {
        forall i, j | 0 <= i < j < |t| ensures t[i].id != t[j].id {
          assert t[i] == list[i + 1] && t[j] == list[j + 1];
        }
      }
      RemoveKeepsIdsUnique(t, id);
      if list[0].id != id {
        var rt := RemoveId(t, id);
        forall e | e in rt ensures e.id != list[0].id {
          RemoveIdMembers(t, id, e);
          var j :| 0 <= j < |t| && t[j] == e;
          assert list[j + 1] == e;
        }
        var r := [list[0]] + rt;
        forall i, j | 0 <= i < j < |r| ensures r[i].id != r[j].id {
          if i == 0 {
            assert r[j] == rt[j - 1] && r[j] in rt;
          } else {
            assert r[i] == rt[i - 1] && r[j] == rt[j - 1];
          }
        }
      }
    }
  }

  /** As written, ids come from the millisecond clock. Two events saved on the same date within
      the same millisecond share an id, and one row's Delete then removes both of them. */
  lemma DuplicateIdDeletesBoth(t: int, a: string, b: string)
    ensures var list := [Event(t, a, ""), Event(t, b, "")];
      !UniqueIds(list) && RemoveId(list, t) == [] && Edited(list, t, "x", "")[1] == list[1]
  {
    var list := [Event(t, a, ""), Event(t, b, "")];
    assert list[1..] == [Event(t, b, "")];
    assert !UniqueIds(list) by {
      assert list[0].id == list[1].id;
    }
    assert RemoveId(list, t) == [] by {
      assert list[1..][1..] == [];
    }
    assert FindIndex(list, t) == 0;
  }

  /** JavaScript truthiness of `state.editingId`: `null` and `0` both read as "not editing". */
  predicate Editing(editingId: Option<int>) {
    editingId.Some? && editingId.value != 0
  }

  /** The bucket after a save with a non-empty title: the event being edited gets the new title
      and notes, or, when nothing is being edited, a new event stamped `now` goes at the end. */
  function SavedBucket(list: seq<Event>, editingId: Option<int>, title: string, notes: string, now: int): (r: seq<Event>)
    ensures Editing(editingId) ==> |r| == |list| && forall j :: 0 <= j < |r| ==> r[j].id == list[j].id
    ensures Editing(editingId) ==> r == Edited(list, editingId.value, title, notes)
    ensures !Editing(editingId) ==> |r| == |list| + 1 && r[..|list|] == list && r[|list|] == Event(now, title, notes)
  {
    if Editing(editingId) then Edited(list, editingId.value, title, notes) else list + [Event(now, title, notes)]
  }

  /** Ids stay distinct through a save, provided a new event's clock stamp is not already in its
      bucket. */
  lemma SavedBucketKeepsIdsUnique(list: seq<Event>, editingId: Option<int>, title: string, notes: string, now: int)
    requires UniqueIds(list)
    requires !Editing(editingId) ==> !HasId(list, now)
    ensures UniqueIds(SavedBucket(list, editingId, title, notes, now))
  {
    if !Editing(editingId) {
      AppendFreshKeepsIdsUnique(list, Event(now, title, notes));
    }
  }

  /** Every bucket of the index has distinct ids. */
  ghost predicate IdsUnique(index: Index) {
    forall iso :: iso in index ==> UniqueIds(index[iso])
  }

  /** No id occurs in two different buckets. */
  ghost predicate BucketsDisjoint(index: Index) {
    forall a, b, j, k :: a in index && b in index && a != b && 0 <= j < |index[a]| && 0 <= k < |index[b]| ==>
      index[a][j].id != index[b][k].id
  }

  /** Every event id is unique across the whole index: within each bucket and between buckets. */
  ghost predicate IdsUniqueAcross(index: Index) {
    IdsUnique(index) && BucketsDisjoint(index)
  }

  /** Some bucket of the index holds an event with `id`. */
  ghost predicate IdInIndex(index: Index, id: int) {
    exists iso :: iso in index && HasId(index[iso], id)
  }

  /** Index-wide uniqueness survives replacing one bucket by a list of distinct ids each of which
      is either already in that bucket or in no bucket at all. */
  lemma ReplaceBucketKeepsIdsUniqueAcross(index: Index, iso: string, list: seq<Event>)
    requires IdsUniqueAcross(index) && UniqueIds(list)
    requires forall k :: 0 <= k < |list| ==> HasId(Bucket(index, iso), list[k].id) || !IdInIndex(index, list[k].id)
    ensures IdsUniqueAcross(index[iso := list])
  {
    var n: Index := index[iso := list];
    forall a: string, b: string, j: int, k: int | a in n && b in n && a != b && 0 <= j < |n[a]| && 0 <= k < |n[b]|
      ensures n[a][j].id != n[b][k].id
    {
      if a == iso {
        ReplacedIdApart(index, iso, list, j, b, k);
      } else if b == iso {
        ReplacedIdApart(index, iso, list, k, a, j);
      }
    }
  }

  /** An id of the new bucket differs from every id of another bucket. */
  lemma ReplacedIdApart(index: Index, iso: string, list: seq<Event>, j: int, b: string, k: int)
    requires IdsUniqueAcross(index)
    requires forall k :: 0 <= k < |list| ==> HasId(Bucket(index, iso), list[k].id) || !IdInIndex(index, list[k].id)
    requires 0 <= j < |list| && b in index && b != iso && 0 <= k < |index[b]|
    ensures list[j].id != index[b][k].id
  {
    var id := list[j].id;
    if HasId(Bucket(index, iso), id) {
      var t :| 0 <= t < |Bucket(index, iso)| && Bucket(index, iso)[t].id == id;
      assert index[iso][t].id != index[b][k].id;
    } else {
      assert !HasId(index[b], id);
    }
  }

  /** Every id of a saved bucket was already in it, or is the fresh stamp of a new event. */
  lemma SavedBucketIds(list: seq<Event>, editingId: Option<int>, title: string, notes: string, now: int)
    ensures var r := SavedBucket(list, editingId, title, notes, now);
      forall k :: 0 <= k < |r| ==> HasId(list, r[k].id) || (!Editing(editingId) && r[k].id == now)
  {
    var r := SavedBucket(list, editingId, title, notes, now);
    forall k | 0 <= k < |r| ensures HasId(list, r[k].id) || (!Editing(editingId) && r[k].id == now) {
      if k < |list| {
        assert r[k].id == list[k].id by {
          if !Editing(editingId) {
            assert r[k] == r[..|list|][k];
          }
        }
      }
    }
  }

  /** Every id left after a removal was in the list before. */
  lemma RemoveIdIds(list: seq<Event>, id: int)
    ensures forall k :: 0 <= k < |RemoveId(list, id)| ==> HasId(list, RemoveId(list, id)[k].id)
  {
    var r := RemoveId(list, id);
    forall k | 0 <= k < |r| ensures HasId(list, r[k].id) {
      RemoveIdMembers(list, id, r[k]);
      var t :| 0 <= t < |list| && list[t] == r[k];
    }
  }

  /** A save keeps every id unique across the index, provided a new event's clock stamp is no id
      anywhere in the index. */
  lemma SaveKeepsIdsUniqueAcross(index: Index, iso: string, editingId: Option<int>, title: string, notes: string, now: int)
    requires IdsUniqueAcross(index)
    requires !Editing(editingId) ==> !IdInIndex(index, now)
    ensures IdsUniqueAcross(index[iso := SavedBucket(Bucket(index, iso), editingId, title, notes, now)])
  {
    var list := Bucket(index, iso);
    var r := SavedBucket(list, editingId, title, notes, now);
    SavedBucketKeepsIdsUnique(list, editingId, title, notes, now);
    SavedBucketIds(list, editingId, title, notes, now);
    ReplaceBucketKeepsIdsUniqueAcross(index, iso, r);
  }

  /** A delete keeps every id unique across the index. */
  lemma DeleteKeepsIdsUniqueAcross(index: Index, iso: string, id: int)
    requires IdsUniqueAcross(index)
    ensures IdsUniqueAcross(index[iso := RemoveId(Bucket(index, iso), id)])
  {
    var list := Bucket(index, iso);
    var r := RemoveId(list, id);
    RemoveKeepsIdsUnique(list, id);
    RemoveIdIds(list, id);
    assert forall k :: 0 <= k < |r| ==> HasId(list, r[k].id);
    ReplaceBucketKeepsIdsUniqueAcross(index, iso, r);
  }

  /** Re-saving an event with its own title and notes leaves its bucket as it was. */
  lemma EditWithOwnValues(list: seq<Event>, id: int)
    requires HasId(list, id)
    ensures var e := list[FindIndex(list, id)]; Edited(list, id, e.title, e.notes) == list
  {
  }

  /** Opening an event for editing and saving the form untouched keeps its bucket as it was:
      the form is filled with the event's own title and notes, and those were trimmed when they
      were saved, so trimming them again changes nothing. */
  lemma ResaveUnchanged(list: seq<Event>, id: int, now: int)
    requires id != 0 && HasId(list, id)
    requires var e := list[FindIndex(list, id)]; Trim(e.title) == e.title && Trim(e.notes) == e.notes
    ensures var e := list[FindIndex(list, id)];
      SavedBucket(list, Some(id), Trim(e.title), Trim(e.notes), now) == list
  {
    EditWithOwnValues(list, id);
  }

  /** What a save stores is trimmed. */
  lemma SavedIsTrimmed(title: string, notes: string)
    ensures Trim(Trim(title)) == Trim(title) && Trim(Trim(notes)) == Trim(notes)
  {
    StripIdempotent(title, JsSpace);
    StripIdempotent(notes, JsSpace);
  }

  // ---- the chips of a day cell ----

  /** One chip: its text and its hover title. */
  datatype Chip = Chip(text: string, tooltip: string)

  /** `evt.notes ? `${evt.title} — ${evt.notes}` : evt.title`. */
  function Tooltip(e: Event): (t: string)
    ensures e.notes == [] ==> t == e.title
    ensures e.notes != [] ==>
      |t| == |e.title| + 3 + |e.notes| && t[..|e.title|] == e.title &&
      t[|e.title|..|e.title| + 3] == " — " && t[|e.title| + 3..] == e.notes
  {
    if e.notes != [] then e.title + " — " + e.notes else e.title
  }

  /** The chips of a day: the first two events by title, and a `+k` chip counting the rest when
      there are more than two. Every event is either shown or counted. */
  function ChipSummary(events: seq<Event>): (r: (seq<Chip>, Option<string>))
    ensures |r.0| == if |events| < 2 then |events| else 2
    ensures forall k :: 0 <= k < |r.0| ==> r.0[k] == Chip(events[k].title, Tooltip(events[k]))
    ensures r.1.Some? <==> |events| > 2
    ensures r.1.Some? ==>
      |r.1.value| >= 2 && r.1.value[0] == '+' && |r.0| + ParseBase(r.1.value[1..], 10) == |events|
  {
    var shown := if |events| < 2 then |events| else 2;
    var chips := seq(shown, k requires 0 <= k < shown => Chip(events[k].title, Tooltip(events[k])));
    if |events| > 2 then
      var digits := NatToString(|events| - 2);
      ParseToBase(|events| - 2, 10);
      assert ("+" + digits)[1..] == digits;
      (chips, Some("+" + digits))
    else (chips, None)
  }

  // ---- persistence ----

  /** `STORAGE_KEY`. */
  const StorageKey: string := "calendar.events.v1"

  /** What a storage slot holds: text that does not parse, or a serialised index. An absent
      key is a slot that was never written. */
  datatype Stored = Corrupt | Snapshot(index: Index)

  type Storage = map<string, Stored>

  /** `loadEvents`: the stored index, or an empty one when the key is missing or its text does
      not parse. */
  function LoadEvents(storage: Storage): (index: Index)
    ensures StorageKey !in storage ==> index == map[]
    ensures StorageKey in storage && storage[StorageKey].Corrupt? ==> index == map[]
    ensures StorageKey in storage && storage[StorageKey].Snapshot? ==> index == storage[StorageKey].index
  {
    if StorageKey in storage && storage[StorageKey].Snapshot? then storage[StorageKey].index else map[]
  }

  /** `persistEvents`: the whole index is written to the one key; nothing else in storage
      changes. */
  function PersistEvents(storage: Storage, index: Index): (r: Storage)
    ensures r.Keys == storage.Keys + {StorageKey}
    ensures r[StorageKey] == Snapshot(index)
    ensures forall k :: k in storage && k != StorageKey ==> r[k] == storage[k]
  {
    storage[StorageKey := Snapshot(index)]
  }

  /** Loading after persisting gives back the index that was written. */
  lemma LoadAfterPersist(storage: Storage, index: Index)
    ensures LoadEvents(PersistEvents(storage, index)) == index
  {
  }

  /** Persisting twice keeps only the last write. */
  lemma PersistTwice(storage: Storage, a: Index, b: Index)
    ensures PersistEvents(PersistEvents(storage, a), b) == PersistEvents(storage, b)
  {
  }
}
