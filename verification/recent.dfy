/**
 The landing page of src/app/page.tsx: the five most recently created
 sessions, newest first, read from the stored session list, and the
 click that opens one of them in the editor.
 */
module Recent {

  import opened Types
  import Sessions

  /** The landing page lists at most this many sessions. */
  const RecentLimit: nat := 5

  /** Creation times never increase along the list. */
  predicate NewestFirst(ss: seq<StoredSession>) {
    forall i, j :: 0 <= i < j < |ss| ==> ss[i].createdAt >= ss[j].createdAt
  }

  /**
   Insert `x` into a newest-first list in front of the first session that
   is not newer than it, so that among equal creation times `x` stays
   ahead of the sessions that followed it in the input.
   */
  function Insert(x: StoredSession, ss: seq<StoredSession>): (r: seq<StoredSession>)
    requires NewestFirst(ss)
    ensures NewestFirst(r)
    ensures multiset(r) == multiset(ss) + multiset{x}
    ensures |r| == |ss| + 1
    decreases |ss|
  {
    if ss == [] || x.createdAt >= ss[0].createdAt then [x] + ss
    else
      var rest := Insert(x, ss[1..]);
      assert ss == [ss[0]] + ss[1..];
      HeadStaysNewest(ss, x, rest);
      ConsNewest(ss[0], rest);
      [ss[0]] + rest
  }

  /**
   The head of a newest-first list is not older than anything in a
   rearrangement of its tail with an older session added.
   */
  lemma HeadStaysNewest(ss: seq<StoredSession>, x: StoredSession, rest: seq<StoredSession>)
    requires NewestFirst(ss) && |ss| > 0 && x.createdAt < ss[0].createdAt
    requires multiset(rest) == multiset(ss[1..]) + multiset{x}
    ensures forall k :: 0 <= k < |rest| ==> ss[0].createdAt >= rest[k].createdAt
  {
    forall k | 0 <= k < |rest|
      ensures ss[0].createdAt >= rest[k].createdAt
    {
      var y := rest[k];
      assert y in multiset(rest);
      if y != x {
        assert y in multiset(ss[1..]);
        var j :| 0 <= j < |ss[1..]| && ss[1..][j] == y;
        assert ss[j + 1] == y;
      }
    }
  }

  /** Putting a session in front of a newest-first list of sessions no newer than it keeps it newest first. */
  lemma ConsNewest(h: StoredSession, rest: seq<StoredSession>)
    requires NewestFirst(rest)
    requires forall k :: 0 <= k < |rest| ==> h.createdAt >= rest[k].createdAt
    ensures NewestFirst([h] + rest)
  {
    var r := [h] + rest;
    forall i, j | 0 <= i < j < |r|
      ensures r[i].createdAt >= r[j].createdAt
    {
      assert r[j] == rest[j - 1];
      if i > 0 {
        assert r[i] == rest[i - 1];
      }
    }
  }

  /**
   The stable descending sort
   `sort((a, b) => b.createdAt - a.createdAt)`, as an insertion sort: a
   permutation of the input, newest first.
   */
  function SortNewest(ss: seq<StoredSession>): (r: seq<StoredSession>)
    ensures NewestFirst(r)
    ensures multiset(r) == multiset(ss)
    ensures |r| == |ss|
    decreases |ss|
  {
    if ss == [] then []
    else
      assert ss == [ss[0]] + ss[1..];
      Insert(ss[0], SortNewest(ss[1..]))
  }

  /**
   The landing page's list: nothing when no session list is stored, else
   the first five of the sorted list. It is newest first, takes its
   sessions from the stored list, keeps them all when there are at most
   five, and leaves out none newer than one it shows.
   */
  function RecentSessions(saved: Option<seq<StoredSession>>): (r: seq<StoredSession>)
    ensures saved.None? ==> r == []
    ensures saved.Some? ==> |r| == if |saved.value| <= RecentLimit then |saved.value| else RecentLimit
    ensures NewestFirst(r)
    ensures saved.Some? ==> multiset(r) <= multiset(saved.value)
    ensures saved.Some? && |saved.value| <= RecentLimit ==> multiset(r) == multiset(saved.value)
    ensures saved.Some? ==> forall x, y :: x in r && y in saved.value && y !in r ==> y.createdAt <= x.createdAt
  {
    match saved
    case None => []
    case Some(list) =>
      var sorted := SortNewest(list);
      var n := if |sorted| <= RecentLimit then |sorted| else RecentLimit;
      PrefixIsNewest(sorted, n);
      assert sorted == sorted[..n] + sorted[n..];
      assert forall y :: y in list ==> y in multiset(sorted);
      sorted[..n]
  }

  /** A prefix of a newest-first list is newest first, and nothing after it is newer than anything in it. */
  lemma PrefixIsNewest(sorted: seq<StoredSession>, n: nat)
    requires NewestFirst(sorted) && n <= |sorted|
    ensures NewestFirst(sorted[..n])
    ensures forall x, y :: x in sorted[..n] && y in sorted[n..] ==> y.createdAt <= x.createdAt
  {
    forall x: StoredSession, y: StoredSession | x in sorted[..n] && y in sorted[n..]
      ensures y.createdAt <= x.createdAt
    {
      var i :| 0 <= i < n && sorted[..n][i] == x;
      var j :| 0 <= j < |sorted| - n && sorted[n..][j] == y;
      assert sorted[i] == x && sorted[n + j] == y;
    }
  }

  /**
   Clicking a listed session stores its id as the active id; when the
   editor then loads, that session is the active one (provided its id is
   not empty, which the editor would treat as no id).
   */
  lemma OpenRecentActivates(saved: seq<StoredSession>, x: StoredSession,
                            id: string, messageId: string, nameIndex: nat, createdAt: int)
    requires nameIndex < |Sessions.CreativeNames|
    requires x in RecentSessions(Some(saved)) && x.id != ""
    ensures Sessions.Load(Some(saved), Some(x.id), id, messageId, nameIndex, createdAt).activeId == Some(x.id)
  {
    var r := RecentSessions(Some(saved));
    assert x in multiset(r);
    assert x in multiset(saved);
    assert Sessions.HasStoredId(saved, x.id) by {
      var i :| 0 <= i < |saved| && saved[i] == x;
    }
  }
}
