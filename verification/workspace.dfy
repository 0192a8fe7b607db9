/**
 * The process-wide list of open documents (tabs) and the active one.  Every
 * operation takes the current state and returns the snapshot taken after it,
 * as the source does under its mutex.
 */
module Workspace {
  import opened Ints
  import opened Wrappers

  datatype Entry = Entry(id: string, name: string, isDirty: bool)

  datatype State = State(entries: seq<Entry>, activeId: Option<string>)

  predicate HasId(es: seq<Entry>, id: string)
  {
    exists j :: 0 <= j < |es| && es[j].id == id
  }

  predicate UniqueIds(es: seq<Entry>)
  {
    forall i, j :: 0 <= i < |es| && 0 <= j < |es| && es[i].id == es[j].id ==> i == j
  }

  /** The state every operation keeps: no id twice, and the active id names an open entry. */
  predicate WellFormed(s: State)
  {
    UniqueIds(s.entries) && (s.activeId.Some? ==> HasId(s.entries, s.activeId.value))
  }

  function Ids(es: seq<Entry>): seq<string>
  {
    seq(|es|, i requires 0 <= i < |es| => es[i].id)
  }

  function RemoveAt<T>(s: seq<T>, i: nat): (r: seq<T>)
    requires i < |s|
    ensures |r| == |s| - 1
    ensures forall j :: 0 <= j < |r| ==> r[j] == (if j < i then s[j] else s[j + 1])
  {
    s[..i] + s[i + 1..]
  }

  function InsertAt<T>(s: seq<T>, i: nat, x: T): (r: seq<T>)
    requires i <= |s|
    ensures |r| == |s| + 1 && r[i] == x
    ensures RemoveAt(r, i) == s
  {
    var r := s[..i] + [x] + s[i..];
    assert RemoveAt(r, i) == s;
    r
  }

  /** The first index holding `id` (`iter().position`). */
  function FindIndex(es: seq<Entry>, id: string): (r: Option<nat>)
    ensures r.Some? ==> r.value < |es| && es[r.value].id == id &&
                        forall j :: 0 <= j < r.value ==> es[j].id != id
    ensures r.None? <==> !HasId(es, id)
  {
    if |es| == 0 then None
    else if es[0].id == id then Some(0)
    else
      match FindIndex(es[1..], id)
      case None => None
      case Some(i) => Some(i + 1)
  }

  /** `workspace_reset`: no entries and no active document. */
  function Reset(): (r: State)
    ensures WellFormed(r) && |r.entries| == 0 && r.activeId.None?
  {
    State([], None)
  }

  /**
   * `workspace_open`: an entry whose id is already open only takes the new
   * name (its dirty flag is kept); otherwise the entry is appended.  With
   * `activate` the entry becomes the active one.
   */
  function Open(s: State, e: Entry, activate: bool): (r: State)
    ensures HasId(r.entries, e.id)
    ensures HasId(s.entries, e.id) ==> |r.entries| == |s.entries| && Ids(r.entries) == Ids(s.entries)
    ensures !HasId(s.entries, e.id) ==> r.entries == s.entries + [e]
    ensures UniqueIds(s.entries) ==> forall j :: 0 <= j < |r.entries| && r.entries[j].id == e.id ==> r.entries[j].name == e.name
    ensures UniqueIds(s.entries) && HasId(s.entries, e.id) ==>
      forall j :: 0 <= j < |r.entries| && r.entries[j].id == e.id ==> r.entries[j] == s.entries[j].(name := e.name)
    ensures forall j :: 0 <= j < |s.entries| && s.entries[j].id != e.id ==> r.entries[j] == s.entries[j]
    ensures r.activeId == (if activate then Some(e.id) else s.activeId)
    ensures WellFormed(s) ==> WellFormed(r)
  {
    match FindIndex(s.entries, e.id)
    case Some(i) =>
      var r := State(s.entries[i := s.entries[i].(name := e.name)], if activate then Some(e.id) else s.activeId);
      assert Ids(r.entries) == Ids(s.entries);
      assert r.entries[i].id == e.id;
      r
    case None =>
      var r := State(s.entries + [e], if activate then Some(e.id) else s.activeId);
      assert r.entries[|s.entries|].id == e.id;
      r
  }

  /** `workspace_mark_dirty`: the entry with `id`, if any, gets the flag; nothing else changes. */
  function MarkDirty(s: State, id: string, dirty: bool): (r: State)
    ensures |r.entries| == |s.entries| && Ids(r.entries) == Ids(s.entries) && r.activeId == s.activeId
    ensures UniqueIds(s.entries) ==> forall j :: 0 <= j < |r.entries| ==>
      r.entries[j] == (if s.entries[j].id == id then s.entries[j].(isDirty := dirty) else s.entries[j])
    ensures WellFormed(s) ==> WellFormed(r)
  {
    match FindIndex(s.entries, id)
    case None => s
    case Some(i) =>
      var r := State(s.entries[i := s.entries[i].(isDirty := dirty)], s.activeId);
      assert Ids(r.entries) == Ids(s.entries);
      r
  }

  /** `workspace_set_active`: only an open id can become active. */
  function SetActive(s: State, id: string): (r: State)
    ensures r.entries == s.entries
    ensures r.activeId == (if HasId(s.entries, id) then Some(id) else s.activeId)
    ensures WellFormed(s) ==> WellFormed(r)
  {
    if FindIndex(s.entries, id).Some? then State(s.entries, Some(id)) else s
  }

  /**
   * `workspace_neighbor`: the tab to show when `id` closes — the one before
   * it, or the one after it when it is first; the last tab when `id` is not
   * open; nothing when at most one tab is open.
   */
  function Neighbor(es: seq<Entry>, id: string): (r: Option<Entry>)
    ensures r.None? <==> |es| <= 1
    ensures r.Some? ==> r.value in es
    ensures UniqueIds(es) && r.Some? ==> r.value.id != id
    ensures |es| > 1 ==> match FindIndex(es, id)
      case Some(i) => r.value == (if i > 0 then es[i - 1] else es[i + 1])
      case None => r.value == es[|es| - 1]
  {
    if |es| <= 1 then None
    else
      match FindIndex(es, id)
      case Some(i) =>
        if i > 0 then Some(es[i - 1])
        else if i + 1 < |es| then Some(es[i + 1])
        else None
      case None => Some(es[|es| - 1])
  }

  /**
   * `workspace_remove`: drop the first entry with `id` (nothing happens when
   * there is none).  `activateAfter` becomes active when it is still open;
   * otherwise, if the removed entry was active, the last remaining entry
   * becomes active (none when the list is now empty).
   */
  function Remove(s: State, id: string, activateAfter: Option<string>): (r: State)
    ensures !HasId(s.entries, id) ==> r == s
    ensures HasId(s.entries, id) ==>
      r.entries == RemoveAt(s.entries, FindIndex(s.entries, id).value) &&
      r.activeId == AfterRemove(s.activeId, id, activateAfter, r.entries)
    ensures WellFormed(s) ==> WellFormed(r) && !HasId(r.entries, id)
  {
    match FindIndex(s.entries, id)
    case None => s
    case Some(i) =>
      var entries := RemoveAt(s.entries, i);
      var active :=
        if activateAfter.Some? && FindIndex(entries, activateAfter.value).Some? then activateAfter
        else if s.activeId == Some(id) then (if |entries| == 0 then None else Some(entries[|entries| - 1].id))
        else s.activeId;
      RemoveKeepsWellFormed(s, id, i, activateAfter);
      State(entries, active)
  }

  /** The active id after removing `id`, given the entries that remain. */
  function AfterRemove(active: Option<string>, id: string, activateAfter: Option<string>,
                       rest: seq<Entry>): Option<string>
  {
    if activateAfter.Some? && HasId(rest, activateAfter.value) then activateAfter
    else if active == Some(id) then (if |rest| == 0 then None else Some(rest[|rest| - 1].id))
    else active
  }

  lemma RemoveKeepsWellFormed(s: State, id: string, i: nat, activateAfter: Option<string>)
    requires i < |s.entries| && s.entries[i].id == id
    ensures var rest := RemoveAt(s.entries, i);
      WellFormed(s) ==>
        WellFormed(State(rest, AfterRemove(s.activeId, id, activateAfter, rest))) && !HasId(rest, id)
  {
    var rest := RemoveAt(s.entries, i);
    var active := AfterRemove(s.activeId, id, activateAfter, rest);
    if WellFormed(s) {
      forall j | 0 <= j < |rest| ensures rest[j].id != id {
        assert rest[j] == s.entries[if j < i then j else j + 1];
      }
      forall a, b | 0 <= a < |rest| && 0 <= b < |rest| && rest[a].id == rest[b].id ensures a == b {
        assert s.entries[if a < i then a else a + 1].id == s.entries[if b < i then b else b + 1].id;
      }
      if active.Some? && active == s.activeId && s.activeId != Some(id) {
        var j :| 0 <= j < |s.entries| && s.entries[j].id == s.activeId.value;
        assert j != i;
        assert rest[if j < i then j else j - 1].id == s.activeId.value;
      }
      if active.Some? && active != s.activeId && active != activateAfter {
        assert rest[|rest| - 1].id == active.value;
      }
    }
  }

  /**
   * The slot the moved entry lands in (`workspace_reorder`): `newIndex`
   * clamped to `[0, len]`, then lowered by one when it lies after the old
   * slot, because the entry is taken out before it is put back.
   */
  function Target(len: nat, oldIndex: nat, newIndex: int): (t: nat)
    requires oldIndex < len
    ensures t < len
  {
    var n := Clamp(newIndex, 0, len);
    if n > oldIndex then n - 1 else n
  }

  /**
   * `workspace_reorder`: move the entry at `oldIndex` to the slot `Target`
   * names.  Lists of at most one entry and an out-of-range `oldIndex` are
   * left alone.
   */
  function Reorder(s: State, oldIndex: i32, newIndex: i32): (r: State)
    ensures r.activeId == s.activeId
    ensures multiset(r.entries) == multiset(s.entries)
    ensures |s.entries| <= 1 || oldIndex < 0 || oldIndex >= |s.entries| ==> r == s
    ensures 1 < |s.entries| && 0 <= oldIndex < |s.entries| ==>
      var t := Target(|s.entries|, oldIndex, newIndex);
      r.entries[t] == s.entries[oldIndex] && RemoveAt(r.entries, t) == RemoveAt(s.entries, oldIndex)
    ensures WellFormed(s) ==> WellFormed(r)
  {
    var len := |s.entries|;
    if len <= 1 || oldIndex < 0 || oldIndex >= len then s
    else
      var t := Target(len, oldIndex, newIndex);
      if t == oldIndex then s
      else
        var rest := RemoveAt(s.entries, oldIndex);
        var entries := InsertAt(rest, t, s.entries[oldIndex]);
        MoveKeepsMultiset(s.entries, oldIndex, t);
        MoveKeepsUnique(s.entries, oldIndex, t);
        MoveKeepsIds(s.entries, oldIndex, t);
        State(entries, s.activeId)
  }

  /** Where the entry at slot `k` of the moved list came from. */
  function MoveSource(i: nat, t: nat, k: nat): nat
  {
    if k == t then i
    else
      var m := if k < t then k else k - 1;
      if m < i then m else m + 1
  }

  lemma MoveSourceAt<T>(s: seq<T>, i: nat, t: nat, k: nat)
    requires i < |s| && t < |s| && k < |s|
    ensures MoveSource(i, t, k) < |s| && InsertAt(RemoveAt(s, i), t, s[i])[k] == s[MoveSource(i, t, k)]
  {
    var r := InsertAt(RemoveAt(s, i), t, s[i]);
    if k != t {
      var m := if k < t then k else k - 1;
      assert RemoveAt(r, t)[m] == r[k];
    }
  }

  /** Taking an entry out and putting it back elsewhere keeps the multiset of entries. */
  lemma MoveKeepsMultiset<T>(s: seq<T>, i: nat, t: nat)
    requires i < |s| && t < |s|
    ensures multiset(InsertAt(RemoveAt(s, i), t, s[i])) == multiset(s)
  {
    var rest := RemoveAt(s, i);
    assert multiset(s) == multiset(rest) + multiset{s[i]} by {
      assert s == s[..i] + [s[i]] + s[i + 1..];
    }
    assert multiset(InsertAt(rest, t, s[i])) == multiset(rest) + multiset{s[i]} by {
      assert InsertAt(rest, t, s[i]) == rest[..t] + [s[i]] + rest[t..];
      assert rest == rest[..t] + rest[t..];
    }
  }

  /** ... and keeps the ids unique. */
  lemma MoveKeepsUnique(s: seq<Entry>, i: nat, t: nat)
    requires i < |s| && t < |s|
    ensures UniqueIds(s) ==> UniqueIds(InsertAt(RemoveAt(s, i), t, s[i]))
  {
    var r := InsertAt(RemoveAt(s, i), t, s[i]);
    if UniqueIds(s) {
      forall a, b | 0 <= a < |r| && 0 <= b < |r| && r[a].id == r[b].id ensures a == b {
        MoveSourceAt(s, i, t, a);
        MoveSourceAt(s, i, t, b);
      }
    }
  }

  /** ... and keeps every id open. */
  lemma MoveKeepsIds(s: seq<Entry>, i: nat, t: nat)
    requires i < |s| && t < |s|
    ensures forall id :: HasId(s, id) ==> HasId(InsertAt(RemoveAt(s, i), t, s[i]), id)
  {
    var r := InsertAt(RemoveAt(s, i), t, s[i]);
    MoveKeepsMultiset(s, i, t);
    forall id | HasId(s, id) ensures HasId(r, id) {
      var j :| 0 <= j < |s| && s[j].id == id;
      assert s[j] in multiset(r);
      var k :| 0 <= k < |r| && r[k] == s[j];
    }
  }

  /**
   * Moving an entry and then moving it back from the slot it landed in
   * restores the list: the inverse call names the old slot, adjusted for
   * the entry being taken out first.
   */
  lemma {:induction false} ReorderUndo(s: State, oldIndex: i32, newIndex: i32)
    requires 1 < |s.entries| <= I32_MAX && 0 <= oldIndex < |s.entries|
    ensures
      var t := Target(|s.entries|, oldIndex, newIndex);
      var back := if oldIndex > t then oldIndex + 1 else oldIndex;
      Reorder(Reorder(s, oldIndex, newIndex), t, back) == s
  {
    var t := Target(|s.entries|, oldIndex, newIndex);
    var back := if oldIndex > t then oldIndex + 1 else oldIndex;
    var r := Reorder(s, oldIndex, newIndex);
    assert Target(|r.entries|, t, back) == oldIndex;
    if t != oldIndex {
      var r2 := Reorder(r, t, back);
      InsertRemoveAt(r2.entries, oldIndex);
      InsertRemoveAt(s.entries, oldIndex);
    }
  }

  /** A list is determined by one of its elements and the rest. */
  lemma InsertRemoveAt<T>(s: seq<T>, i: nat)
    requires i < |s|
    ensures InsertAt(RemoveAt(s, i), i, s[i]) == s
  {
    assert s[..i] + [s[i]] + s[i + 1..] == s;
  }

  /** Opening a new document again is a no-op: the second call only rewrites the same name. */
  lemma {:induction false} OpenIdempotent(s: State, e: Entry, activate: bool)
    ensures Open(Open(s, e, activate), e, activate) == Open(s, e, activate)
  {
    var r := Open(s, e, activate);
    var i := FindIndex(r.entries, e.id).value;
    match FindIndex(s.entries, e.id)
    case Some(k) =>
      assert r.entries[k].id == e.id;
      assert forall j :: 0 <= j < k ==> r.entries[j] == s.entries[j];
    case None =>
      assert i == |s.entries|;
    assert r.entries[i].name == e.name;
    assert r.entries[i := r.entries[i].(name := e.name)] == r.entries;
  }

  /** Closing a document that was just opened (and not activated) restores the tab list. */
  lemma {:induction false} OpenThenRemove(s: State, e: Entry)
    requires !HasId(s.entries, e.id)
    ensures Remove(Open(s, e, false), e.id, None).entries == s.entries
  {
    var r := Open(s, e, false);
    var i := FindIndex(r.entries, e.id).value;
    assert i == |s.entries|;
    assert RemoveAt(r.entries, i) == s.entries;
  }
}
