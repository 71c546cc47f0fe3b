/**
 The session store of src/components/aether-ui-main.tsx: creating a
 fresh session, the list of sessions with its active id, selecting and
 deleting, the load-time migration, and applying an update to the
 active session.
 */
module Sessions {

  import opened Types
  import opened Text
  import History

  /** The text by which the editor recognises a session that has no real component yet. */
  const PlaceholderMarker: string := "Your component will appear here"
  /** The component source a new session shows: `<div>Your component will appear here.</div>`. */
  const PlaceholderJsx: string := "<div>" + PlaceholderMarker + ".</div>"
  /** The stylesheet a new session shows. */
  const PlaceholderCss: string := "/* Your component CSS will appear here */"
  /** The chat message every new session starts with. */
  const SessionStartedText: string := "New session started."

  /** The names a new session is given at random. */
  const CreativeNames: seq<string> := [
    "Cosmic Canvas", "Quantum Query", "Starlight Sketch", "Nebula Nudge", "Aether Architect",
    "Pixel Weave", "Code Comet", "Syntax Starship", "Orion UI", "Galaxy Grids",
    "Celestial Component", "Meteor Mockup", "Pulsar Prototype", "Void Visuals", "Infinity Interface"
  ]

  /**
   A new session. The uuids, the random pick among `CreativeNames`
   (`Math.floor(Math.random() * 15)`) and the clock are parameters.
   */
  function Fresh(id: string, messageId: string, nameIndex: nat, createdAt: int): (s: Session)
    requires nameIndex < |CreativeNames|
    ensures s.id == id && s.createdAt == createdAt && s.name in CreativeNames
    ensures s.chatHistory == [Message(messageId, System, SessionStartedText, None)]
    ensures s.codeHistory == [CodeVersion(s.jsxCode, s.cssCode)] && s.currentVersion == 0
    ensures History.Synced(s) && History.Bounded(s)
    ensures s.uploadedImage == None
    ensures s.jsxCode == PlaceholderJsx && s.cssCode == PlaceholderCss
    ensures Contains(s.jsxCode, PlaceholderMarker)
  {
    var initial := CodeVersion(PlaceholderJsx, PlaceholderCss);
    PlaceholderCarriesMarker();
    Session(id, CreativeNames[nameIndex], createdAt,
            [Message(messageId, System, SessionStartedText, None)],
            initial.jsxCode, initial.cssCode, None, [initial], 0)
  }

  /** The placeholder source contains the placeholder text. */
  lemma PlaceholderCarriesMarker()
    ensures StartsAt(PlaceholderJsx, 5, PlaceholderMarker)
  {
    InfixStartsAt("<div>", PlaceholderMarker, ".</div>");
  }

  /** All sessions and the id of the one the editor shows (`null` is `None`). */
  datatype Store = Store(sessions: seq<Session>, activeId: Option<string>)

  /** Some session in `ss` has id `id`. */
  predicate HasId(ss: seq<Session>, id: string) {
    exists i :: 0 <= i < |ss| && ss[i].id == id
  }

  /** No two sessions share an id (uuids are distinct). */
  predicate UniqueIds(ss: seq<Session>) {
    forall i, j :: 0 <= i < j < |ss| ==> ss[i].id != ss[j].id
  }

  /** No session has the empty id (a uuid is never empty). */
  predicate NonEmptyIds(ss: seq<Session>) {
    forall i :: 0 <= i < |ss| ==> ss[i].id != ""
  }

  /** The store is never empty and its active id names one of its sessions. */
  predicate WellFormed(st: Store) {
    |st.sessions| > 0 && st.activeId.Some? && HasId(st.sessions, st.activeId.value)
  }

  /** The first session with the active id (`sessions.find`), if any. */
  function Active(st: Store): (a: Option<Session>)
    ensures a.Some? <==> st.activeId.Some? && HasId(st.sessions, st.activeId.value)
    ensures a.Some? ==> a.value in st.sessions && Some(a.value.id) == st.activeId
  {
    if st.activeId.None? then None else FindId(st.sessions, st.activeId.value)
  }

  /** The first session in `ss` with id `id`. */
  function FindId(ss: seq<Session>, id: string): (r: Option<Session>)
    ensures r.Some? <==> HasId(ss, id)
    ensures r.Some? ==> r.value in ss && r.value.id == id
    ensures r.Some? && |ss| > 0 && ss[0].id == id ==> r.value == ss[0]
    ensures r.Some? ==> exists k :: 0 <= k < |ss| && ss[k] == r.value && forall j :: 0 <= j < k ==> ss[j].id != id
  {
    if |ss| == 0 then None
    else if ss[0].id == id then Some(ss[0])
    else
      var r := FindId(ss[1..], id);
      assert HasId(ss, id) ==> HasId(ss[1..], id) by {
        if HasId(ss, id) {
          var i :| 0 <= i < |ss| && ss[i].id == id;
          assert ss[1..][i - 1].id == id;
        }
      }
      assert r.Some? ==> HasId(ss, id) by {
        if r.Some? {
          var j :| 0 <= j < |ss[1..]| && ss[1..][j].id == id;
          assert ss[j + 1].id == id;
        }
      }
      assert r.Some? ==> exists k :: 0 <= k < |ss| && ss[k] == r.value && forall j :: 0 <= j < k ==> ss[j].id != id by {
        if r.Some? {
          var k :| 0 <= k < |ss[1..]| && ss[1..][k] == r.value && forall j :: 0 <= j < k ==> ss[1..][j].id != id;
          assert ss[k + 1] == r.value;
          forall j | 0 <= j < k + 1 ensures ss[j].id != id {
            if j > 0 {
              assert ss[j] == ss[1..][j - 1];
            }
          }
        }
      }
      r
  }

  /** Append a fresh session and make it active (`handleNewSession`). */
  function NewSession(st: Store, id: string, messageId: string, nameIndex: nat, createdAt: int): (r: Store)
    requires nameIndex < |CreativeNames|
    ensures r.sessions == st.sessions + [Fresh(id, messageId, nameIndex, createdAt)]
    ensures r.activeId == Some(id)
    ensures WellFormed(r)
    ensures UniqueIds(st.sessions) && !HasId(st.sessions, id) ==> UniqueIds(r.sessions)
  {
    var s := Fresh(id, messageId, nameIndex, createdAt);
    var r := Store(st.sessions + [s], Some(s.id));
    assert r.sessions[|st.sessions|].id == id;
    r
  }

  /** Make `id` active when some session has it; otherwise nothing changes. */
  function Select(st: Store, id: string): (r: Store)
    ensures r.sessions == st.sessions
    ensures HasId(st.sessions, id) ==> r.activeId == Some(id)
    ensures !HasId(st.sessions, id) ==> r == st
    ensures WellFormed(st) ==> WellFormed(r)
  {
    if FindId(st.sessions, id).Some? then st.(activeId := Some(id)) else st
  }

  /** How many sessions in `ss` have id `id`. */
  function CountId(ss: seq<Session>, id: string): nat {
    if |ss| == 0 then 0 else (if ss[0].id == id then 1 else 0) + CountId(ss[1..], id)
  }

  /** `ss.filter(s => s.id !== id)`: drop exactly the sessions with that id. */
  function RemoveId(ss: seq<Session>, id: string): (r: seq<Session>)
    ensures forall s :: s in r <==> s in ss && s.id != id
    ensures |r| == |ss| - CountId(ss, id)
    ensures UniqueIds(ss) ==> UniqueIds(r)
  {
    if |ss| == 0 then []
    else
      var rest := RemoveId(ss[1..], id);
      assert forall s :: s in ss[1..] ==> s in ss;
      if ss[0].id == id then rest
      else
        var r := [ss[0]] + rest;
        assert UniqueIds(ss) ==> UniqueIds(r) by {
          if UniqueIds(ss) {
            TailUnique(ss);
            forall j | 0 <= j < |rest| ensures rest[j].id != ss[0].id {
              assert rest[j] in rest;
              var k :| 0 <= k < |ss[1..]| && ss[1..][k] == rest[j];
              assert ss[k + 1] == rest[j];
            }
            ConsUnique(ss[0], rest);
          }
        }
        r
  }

  /** The sessions after the first of a list with distinct ids have distinct ids. */
  lemma TailUnique(ss: seq<Session>)
    requires UniqueIds(ss) && |ss| > 0
    ensures UniqueIds(ss[1..])
  {
    var tail := ss[1..];
    forall i, j | 0 <= i < j < |tail| ensures tail[i].id != tail[j].id {
      assert tail[i] == ss[i + 1] && tail[j] == ss[j + 1];
    }
  }

  /** A session whose id no session of `rest` has, put in front of `rest`, keeps the ids distinct. */
  lemma ConsUnique(h: Session, rest: seq<Session>)
    requires UniqueIds(rest)
    requires forall j :: 0 <= j < |rest| ==> rest[j].id != h.id
    ensures UniqueIds([h] + rest)
  {
    var r := [h] + rest;
    forall i, j | 0 <= i < j < |r| ensures r[i].id != r[j].id {
      assert r[j] == rest[j - 1];
      if i > 0 {
        assert r[i] == rest[i - 1];
      }
    }
  }

  /** Filtering distributes over concatenation: the survivors keep their relative order. */
  lemma {:induction false} RemoveIdKeepsOrder(a: seq<Session>, b: seq<Session>, id: string)
    ensures RemoveId(a + b, id) == RemoveId(a, id) + RemoveId(b, id)
    decreases |a|
  {
    if |a| == 0 {
      assert a + b == b;
    } else {
      var t := a[1..];
      assert (a + b)[0] == a[0];
      assert (a + b)[1..] == t + b;
      RemoveIdKeepsOrder(t, b, id);
      if a[0].id != id {
        assert [a[0]] + RemoveId(t, id) + RemoveId(b, id) == [a[0]] + (RemoveId(t, id) + RemoveId(b, id));
      }
    }
  }

  /** With distinct ids, at most one session has a given id. */
  lemma {:induction false} UniqueCountsAtMostOne(ss: seq<Session>, id: string)
    requires UniqueIds(ss)
    ensures CountId(ss, id) <= 1
    ensures HasId(ss, id) ==> CountId(ss, id) == 1
    decreases |ss|
  {
    if |ss| > 0 {
      var tail := ss[1..];
      TailUnique(ss);
      UniqueCountsAtMostOne(tail, id);
      if ss[0].id == id {
        assert !HasId(tail, id);
        NoIdCountsZero(tail, id);
      } else if HasId(ss, id) {
        var k :| 0 <= k < |ss| && ss[k].id == id;
        assert tail[k - 1].id == id;
      }
    }
  }

  /** No session with the id means a zero count. */
  lemma {:induction false} NoIdCountsZero(ss: seq<Session>, id: string)
    requires !HasId(ss, id)
    ensures CountId(ss, id) == 0
    decreases |ss|
  {
    if |ss| > 0 {
      assert !HasId(ss[1..], id);
      NoIdCountsZero(ss[1..], id);
    }
  }

  /**
   Delete the sessions with id `id` (`handleDeleteSession`). With one
   session or none the store is unchanged (the source refuses, with a
   notice). When the active session is deleted, the first survivor's id
   becomes active, or `None` when there is no survivor or its id is
   empty (`?.id || null`).
   */
  function Delete(st: Store, id: string): (r: Store)
    ensures |st.sessions| <= 1 ==> r == st
    ensures |st.sessions| > 1 ==> r.sessions == RemoveId(st.sessions, id)
    ensures |st.sessions| > 1 && st.activeId != Some(id) ==> r.activeId == st.activeId
    ensures WellFormed(st) && |st.sessions| > 1 && st.activeId == Some(id) &&
            UniqueIds(st.sessions) && NonEmptyIds(st.sessions) ==>
              |r.sessions| == |st.sessions| - 1 && r.activeId == Some(r.sessions[0].id)
    ensures WellFormed(st) && UniqueIds(st.sessions) && NonEmptyIds(st.sessions) ==>
              WellFormed(r) && UniqueIds(r.sessions) && NonEmptyIds(r.sessions)
  {
    if |st.sessions| <= 1 then st
    else
      var rest := RemoveId(st.sessions, id);
      var active :=
        if st.activeId == Some(id) then
          (if |rest| > 0 && rest[0].id != "" then Some(rest[0].id) else None)
        else st.activeId;
      var r := Store(rest, active);
      if UniqueIds(st.sessions) && NonEmptyIds(st.sessions) then
        RemoveLeavesSurvivor(st.sessions, id);
        if WellFormed(st) && st.activeId != Some(id) then
          RemoveKeepsOtherIds(st.sessions, id, st.activeId.value);
          r
        else if WellFormed(st) then
          UniqueCountsAtMostOne(st.sessions, id);
          assert HasId(rest, rest[0].id);
          r
        else
          r
      else
        r
  }

  /**
   From two or more sessions with distinct, non-empty ids, removing one
   id leaves at least one session, and all ids stay non-empty.
   */
  lemma RemoveLeavesSurvivor(ss: seq<Session>, id: string)
    requires |ss| > 1 && UniqueIds(ss) && NonEmptyIds(ss)
    ensures |RemoveId(ss, id)| > 0 && NonEmptyIds(RemoveId(ss, id))
  {
    var rest := RemoveId(ss, id);
    forall i | 0 <= i < |rest| ensures rest[i].id != "" {
      assert rest[i] in ss;
    }
    assert ss[0].id != ss[1].id;
    var survivor := if ss[0].id != id then ss[0] else ss[1];
    assert survivor in rest;
  }

  /** Removing one id keeps every other id present. */
  lemma RemoveKeepsOtherIds(ss: seq<Session>, id: string, other: string)
    requires HasId(ss, other) && other != id
    ensures HasId(RemoveId(ss, id), other)
  {
    var rest := RemoveId(ss, id);
    var k :| 0 <= k < |ss| && ss[k].id == other;
    assert ss[k] in rest;
    var j :| 0 <= j < |rest| && rest[j] == ss[k];
  }

  /**
   Apply `f` to every session with the active id (`updateActiveSession`);
   all other sessions and the active id stay as they were.
   */
  function ApplyToActive(st: Store, f: Session -> Session): (r: Store)
    ensures r.activeId == st.activeId && |r.sessions| == |st.sessions|
    ensures forall i :: 0 <= i < |st.sessions| && Some(st.sessions[i].id) != st.activeId ==>
              r.sessions[i] == st.sessions[i]
    ensures forall i :: 0 <= i < |st.sessions| && Some(st.sessions[i].id) == st.activeId ==>
              r.sessions[i] == f(st.sessions[i])
  {
    var ss := seq(|st.sessions|, i requires 0 <= i < |st.sessions| =>
                if Some(st.sessions[i].id) == st.activeId then f(st.sessions[i]) else st.sessions[i]);
    Store(ss, st.activeId)
  }

  /**
   An update that keeps the session's id leaves a well-formed store
   well-formed, with distinct ids, and the active session becomes the
   updated one.
   */
  lemma ApplyToActiveKeepsStore(st: Store, f: Session -> Session)
    requires WellFormed(st) && UniqueIds(st.sessions)
    requires f(Active(st).value).id == Active(st).value.id
    ensures WellFormed(ApplyToActive(st, f)) && UniqueIds(ApplyToActive(st, f).sessions)
    ensures Active(ApplyToActive(st, f)) == Some(f(Active(st).value))
  {
    var a := Active(st).value;
    var r := ApplyToActive(st, f);
    var k :| 0 <= k < |st.sessions| && st.sessions[k] == a;
    forall i | 0 <= i < |st.sessions| && st.sessions[i].id == a.id ensures i == k { }
    forall i | 0 <= i < |r.sessions| ensures r.sessions[i].id == st.sessions[i].id { }
    assert r.sessions[k] == f(a);
    FirstIdIsUnique(r.sessions, k);
  }

  /** With distinct ids, finding the id of the session at `k` yields that session. */
  lemma FirstIdIsUnique(ss: seq<Session>, k: nat)
    requires UniqueIds(ss) && k < |ss|
    ensures FindId(ss, ss[k].id) == Some(ss[k])
  {
    var r := FindId(ss, ss[k].id);
    var j :| 0 <= j < |ss| && ss[j] == r.value;
  }

  /**
   A session as written to storage: every session written now has a
   history (`StoredThenMigrated` shows migrating it gives the session back).
   */
  function Stored(s: Session): (r: StoredSession)
    ensures r.codeHistory == Some(s.codeHistory)
    ensures r.id == s.id && r.currentVersion == s.currentVersion && r.jsxCode == s.jsxCode && r.cssCode == s.cssCode
  {
    StoredSession(s.id, s.name, s.createdAt, s.chatHistory, s.jsxCode, s.cssCode,
                  s.uploadedImage, Some(s.codeHistory), s.currentVersion)
  }

  /**
   Load-time migration: a record without `codeHistory` gets a one-entry
   history holding its current code, at version 0; a record with one
   passes through unchanged.
   */
  function Migrate(ss: StoredSession): (s: Session)
    ensures ss.codeHistory.None? ==>
              s.codeHistory == [CodeVersion(ss.jsxCode, ss.cssCode)] && s.currentVersion == 0 && History.Synced(s)
    ensures ss.codeHistory.Some? ==> Stored(s) == ss
    ensures s.id == ss.id && s.name == ss.name && s.createdAt == ss.createdAt && s.chatHistory == ss.chatHistory
    ensures s.jsxCode == ss.jsxCode && s.cssCode == ss.cssCode && s.uploadedImage == ss.uploadedImage
  {
    var history := match ss.codeHistory
      case Some(h) => h
      case None => [CodeVersion(ss.jsxCode, ss.cssCode)];
    var version := if ss.codeHistory.Some? then ss.currentVersion else 0;
    Session(ss.id, ss.name, ss.createdAt, ss.chatHistory, ss.jsxCode, ss.cssCode,
            ss.uploadedImage, history, version)
  }

  /** Writing a session and reading it back gives the same session. */
  lemma StoredThenMigrated(s: Session)
    ensures Migrate(Stored(s)) == s
  {
  }

  /** The migration of every stored record, in order. */
  function MigrateAll(list: seq<StoredSession>): (r: seq<Session>)
    ensures |r| == |list|
    ensures forall i :: 0 <= i < |list| ==> r[i] == Migrate(list[i])
  {
    seq(|list|, i requires 0 <= i < |list| => Migrate(list[i]))
  }

  /** Some stored record has id `id`. */
  predicate HasStoredId(list: seq<StoredSession>, id: string) {
    exists i :: 0 <= i < |list| && list[i].id == id
  }

  /**
   The startup load. `saved` is `None` when nothing is stored or the
   stored text cannot be read; `savedActiveId` is the stored active id
   (an empty one counts as absent). The fresh-session parameters are used
   only when a new session must be created.
   */
  function Load(saved: Option<seq<StoredSession>>, savedActiveId: Option<string>,
                id: string, messageId: string, nameIndex: nat, createdAt: int): (st: Store)
    requires nameIndex < |CreativeNames|
    ensures WellFormed(st)
    ensures saved.None? || saved.value == [] ==>
              st == Store([Fresh(id, messageId, nameIndex, createdAt)], Some(id))
    ensures saved.Some? && saved.value != [] ==> st.sessions == MigrateAll(saved.value)
    ensures (saved.Some? && savedActiveId.Some? && savedActiveId.value != "" &&
             HasStoredId(saved.value, savedActiveId.value)) ==> st.activeId == savedActiveId
    ensures saved.Some? && saved.value != [] &&
            !(savedActiveId.Some? && savedActiveId.value != "" && HasStoredId(saved.value, savedActiveId.value)) ==>
              st.activeId == Some(saved.value[0].id)
  {
    match saved
    case None => NewSession(Store([], None), id, messageId, nameIndex, createdAt)
    case Some(list) =>
      var migrated := MigrateAll(list);
      assert forall k :: 0 <= k < |list| ==> migrated[k].id == list[k].id;
      if savedActiveId.Some? && savedActiveId.value != "" && FindId(migrated, savedActiveId.value).Some? then
        Store(migrated, savedActiveId)
      else if |migrated| > 0 then
        assert HasId(migrated, migrated[0].id);
        Store(migrated, Some(migrated[0].id))
      else
        NewSession(Store(migrated, None), id, messageId, nameIndex, createdAt)
  }

  /**
   `handleUndo`: the step is computed once, from the active session (the
   first with the active id), and spread onto every session with that id.
   Without an active session, or at its oldest version, nothing changes.
   */
  function UndoActive(st: Store): (r: Store)
    ensures r.activeId == st.activeId && |r.sessions| == |st.sessions|
    ensures forall i :: 0 <= i < |st.sessions| && Some(st.sessions[i].id) != st.activeId ==>
              r.sessions[i] == st.sessions[i]
    ensures Active(st).None? || Active(st).value.currentVersion <= 0 ==> r == st
    ensures Active(st).Some? && Active(st).value.currentVersion > 0 ==>
              forall i :: 0 <= i < |st.sessions| && Some(st.sessions[i].id) == st.activeId ==>
                r.sessions[i] == History.ShowSlot(st.sessions[i], Active(st).value.codeHistory,
                                                  Active(st).value.currentVersion - 1)
    ensures WellFormed(st) && UniqueIds(st.sessions) ==>
              WellFormed(r) && UniqueIds(r.sessions) && Active(r) == Some(History.Undo(Active(st).value))
  {
    match Active(st)
    case None => st
    case Some(a) =>
      if a.currentVersion <= 0 then st
      else
        var f := s => History.ShowSlot(s, a.codeHistory, a.currentVersion - 1);
        if WellFormed(st) && UniqueIds(st.sessions) then
          assert f(a) == History.Undo(a);
          ApplyToActiveKeepsStore(st, f);
          ApplyToActive(st, f)
        else
          ApplyToActive(st, f)
  }

  /**
   `handleRedo`: the step is computed once, from the active session, and
   spread onto every session with that id. Without an active session, or
   at its newest version, nothing changes.
   */
  function RedoActive(st: Store): (r: Store)
    ensures r.activeId == st.activeId && |r.sessions| == |st.sessions|
    ensures forall i :: 0 <= i < |st.sessions| && Some(st.sessions[i].id) != st.activeId ==>
              r.sessions[i] == st.sessions[i]
    ensures Active(st).None? || Active(st).value.currentVersion >= |Active(st).value.codeHistory| - 1 ==> r == st
    ensures Active(st).Some? && Active(st).value.currentVersion < |Active(st).value.codeHistory| - 1 ==>
              forall i :: 0 <= i < |st.sessions| && Some(st.sessions[i].id) == st.activeId ==>
                r.sessions[i] == History.ShowSlot(st.sessions[i], Active(st).value.codeHistory,
                                                  Active(st).value.currentVersion + 1)
    ensures WellFormed(st) && UniqueIds(st.sessions) ==>
              WellFormed(r) && UniqueIds(r.sessions) && Active(r) == Some(History.Redo(Active(st).value))
  {
    match Active(st)
    case None => st
    case Some(a) =>
      if a.currentVersion >= |a.codeHistory| - 1 then st
      else
        var f := s => History.ShowSlot(s, a.codeHistory, a.currentVersion + 1);
        if WellFormed(st) && UniqueIds(st.sessions) then
          assert f(a) == History.Redo(a);
          ApplyToActiveKeepsStore(st, f);
          ApplyToActive(st, f)
        else
          ApplyToActive(st, f)
  }

}
