/**
 The per-session undo/redo timeline of src/components/aether-ui-main.tsx:
 committing a new code version (the success path of the prompt handler),
 undo, redo, and a direct edit in the code editor.
 */
module History {

  import opened Types

  /** At most this many versions are kept. */
  const MaxVersions: nat := 5

  /** The cursor points into the timeline and the editor shows that slot. */
  predicate Synced(s: Session) {
    && 0 <= s.currentVersion < |s.codeHistory|
    && s.jsxCode == s.codeHistory[s.currentVersion].jsxCode
    && s.cssCode == s.codeHistory[s.currentVersion].cssCode
  }

  /** The timeline respects the cap. */
  predicate Bounded(s: Session) {
    |s.codeHistory| <= MaxVersions
  }

  /**
   JavaScript's `a.slice(0, end)`: a negative `end` counts from the back,
   one past the length is clamped.
   */
  function SliceTo<T>(a: seq<T>, end: int): (r: seq<T>)
    ensures r <= a
    ensures 0 <= end <= |a| ==> |r| == end
    ensures end >= |a| ==> r == a
  {
    if end < 0 then a[..if |a| + end < 0 then 0 else |a| + end]
    else if end > |a| then a
    else a[..end]
  }

  /** JavaScript's `a.slice(-n)` for `n > 0`: the last `n` entries, or all when there are fewer. */
  function LastN<T>(a: seq<T>, n: nat): (r: seq<T>)
    requires n > 0
    ensures |r| == if |a| <= n then |a| else n
    ensures forall i :: 0 <= i < |r| ==> r[i] == a[|a| - |r| + i]
  {
    if |a| <= n then a else a[|a| - n..]
  }

  /**
   The timeline after committing `v` with the cursor at `cursor`: the
   versions after the cursor are dropped, `v` is appended and only the
   last five are kept. From a cursor inside the timeline, the result is
   the last `min(cursor + 2, 5)` of the versions up to the cursor,
   followed by `v`.
   */
  function Advance(h: seq<CodeVersion>, cursor: int, v: CodeVersion): (t: seq<CodeVersion>)
    ensures 0 < |t| <= MaxVersions && t[|t| - 1] == v
    ensures 0 <= cursor < |h| ==> |t| == if cursor + 2 <= MaxVersions then cursor + 2 else MaxVersions
    ensures 0 <= cursor < |h| ==> forall i :: 0 <= i < |t| - 1 ==> t[i] == h[cursor + 2 - |t| + i]
    ensures cursor == |h| - 1 ==> t == LastN(h + [v], MaxVersions)
  {
    var t := LastN(SliceTo(h, cursor + 1) + [v], MaxVersions);
    AppendedIsLast(SliceTo(h, cursor + 1), v, MaxVersions);
    if 0 <= cursor < |h| then
      AdvanceKeepsUpToCursor(h, cursor, v);
      t
    else
      t
  }

  /** The last `n` entries of a sequence with `v` appended end in `v`. */
  lemma AppendedIsLast<T>(a: seq<T>, v: T, n: nat)
    requires n > 0
    ensures var t := LastN(a + [v], n); 0 < |t| <= n && t[|t| - 1] == v
  {
  }

  /** From a cursor inside the timeline, the older entries of the advanced timeline are those up to the cursor. */
  lemma AdvanceKeepsUpToCursor(h: seq<CodeVersion>, cursor: int, v: CodeVersion)
    requires 0 <= cursor < |h|
    ensures var t := LastN(SliceTo(h, cursor + 1) + [v], MaxVersions);
            && |t| == (if cursor + 2 <= MaxVersions then cursor + 2 else MaxVersions)
            && forall i :: 0 <= i < |t| - 1 ==> t[i] == h[cursor + 2 - |t| + i]
  {
    var kept := SliceTo(h, cursor + 1);
    var t := LastN(kept + [v], MaxVersions);
    assert |kept| == cursor + 1;
    forall i | 0 <= i < |t| - 1
      ensures t[i] == h[cursor + 2 - |t| + i]
    {
      assert t[i] == (kept + [v])[|kept| + 1 - |t| + i];
    }
  }

  /**
   Commit `v` as the newest version: the timeline advances as `Advance`
   describes, the cursor moves to `v`, which is shown, and `reply` is
   appended to the chat.
   */
  function Commit(s: Session, v: CodeVersion, reply: Message): (r: Session)
    ensures Synced(r) && Bounded(r)
    ensures r.currentVersion == |r.codeHistory| - 1 && r.codeHistory[r.currentVersion] == v
    ensures r.chatHistory == s.chatHistory + [reply]
    ensures r.(chatHistory := s.chatHistory, jsxCode := s.jsxCode, cssCode := s.cssCode,
               codeHistory := s.codeHistory, currentVersion := s.currentVersion) == s
    ensures r.codeHistory == Advance(s.codeHistory, s.currentVersion, v)
  {
    var t := Advance(s.codeHistory, s.currentVersion, v);
    s.(chatHistory := s.chatHistory + [reply], jsxCode := v.jsxCode, cssCode := v.cssCode,
       codeHistory := t, currentVersion := |t| - 1)
  }

  /**
   The update `{ ...h[i], currentVersion: i }` spread onto `s`: the cursor
   becomes `i` and the code and stylesheet of slot `i` are shown. A
   missing slot spreads no fields, so then only the cursor changes.
   */
  function ShowSlot(s: Session, h: seq<CodeVersion>, i: int): (r: Session)
    ensures r.currentVersion == i
    ensures 0 <= i < |h| ==> r.jsxCode == h[i].jsxCode && r.cssCode == h[i].cssCode
    ensures !(0 <= i < |h|) ==> r.jsxCode == s.jsxCode && r.cssCode == s.cssCode
    ensures r.(jsxCode := s.jsxCode, cssCode := s.cssCode, currentVersion := s.currentVersion) == s
  {
    if 0 <= i < |h| then s.(jsxCode := h[i].jsxCode, cssCode := h[i].cssCode, currentVersion := i)
    else s.(currentVersion := i)
  }

  /**
   Step the cursor back one slot and show that slot; a no-op at the
   oldest version. (An index past the end of the timeline, which a
   stored session could hold, moves the cursor but restores nothing,
   because spreading a missing entry copies no fields.)
   */
  function Undo(s: Session): (r: Session)
    ensures s.currentVersion <= 0 ==> r == s
    ensures s.currentVersion > 0 ==> r.currentVersion == s.currentVersion - 1
    ensures r.(jsxCode := s.jsxCode, cssCode := s.cssCode, currentVersion := s.currentVersion) == s
    ensures 0 < s.currentVersion <= |s.codeHistory| ==>
              && r.jsxCode == s.codeHistory[s.currentVersion - 1].jsxCode
              && r.cssCode == s.codeHistory[s.currentVersion - 1].cssCode
    ensures s.currentVersion > |s.codeHistory| ==> r.jsxCode == s.jsxCode && r.cssCode == s.cssCode
    ensures Synced(s) ==> Synced(r)
  {
    if s.currentVersion <= 0 then s else ShowSlot(s, s.codeHistory, s.currentVersion - 1)
  }

  /**
   Step the cursor forward one slot and show that slot; a no-op at the
   newest version. (A negative index, which a stored session could hold,
   moves the cursor but restores nothing.)
   */
  function Redo(s: Session): (r: Session)
    ensures s.currentVersion >= |s.codeHistory| - 1 ==> r == s
    ensures s.currentVersion < |s.codeHistory| - 1 ==> r.currentVersion == s.currentVersion + 1
    ensures r.(jsxCode := s.jsxCode, cssCode := s.cssCode, currentVersion := s.currentVersion) == s
    ensures -1 <= s.currentVersion < |s.codeHistory| - 1 ==>
              && r.jsxCode == s.codeHistory[s.currentVersion + 1].jsxCode
              && r.cssCode == s.codeHistory[s.currentVersion + 1].cssCode
    ensures s.currentVersion < -1 ==> r.jsxCode == s.jsxCode && r.cssCode == s.cssCode
    ensures Synced(s) ==> Synced(r)
  {
    if s.currentVersion >= |s.codeHistory| - 1 then s else ShowSlot(s, s.codeHistory, s.currentVersion + 1)
  }

  /**
   A change typed into the component editor (`value || ''`): it replaces
   `jsxCode` without recording a version, so the shown code and the
   cursor's slot disagree as soon as the text differs.
   */
  function EditJsx(s: Session, value: Option<string>): (r: Session)
    ensures r.(jsxCode := s.jsxCode) == s
    ensures value.Some? ==> r.jsxCode == value.value
    ensures value.None? ==> r.jsxCode == ""
    ensures Synced(s) ==> (Synced(r) <==> r.jsxCode == s.jsxCode)
  {
    s.(jsxCode := value.GetOr(""))
  }

  /** A change typed into the stylesheet editor; like `EditJsx` for `cssCode`. */
  function EditCss(s: Session, value: Option<string>): (r: Session)
    ensures r.(cssCode := s.cssCode) == s
    ensures value.Some? ==> r.cssCode == value.value
    ensures value.None? ==> r.cssCode == ""
    ensures Synced(s) ==> (Synced(r) <==> r.cssCode == s.cssCode)
  {
    s.(cssCode := value.GetOr(""))
  }

  /** The versions a commit keeps depend only on the timeline and the cursor, not on the rest of the session. */
  lemma CommitReadsTimeline(a: Session, b: Session, v: CodeVersion, reply: Message)
    requires a.codeHistory == b.codeHistory && a.currentVersion == b.currentVersion
    ensures Commit(a, v, reply).codeHistory == Commit(b, v, reply).codeHistory
    ensures Commit(a, v, reply).currentVersion == Commit(b, v, reply).currentVersion
  {
  }

  /**
   An edit typed into either editor is not a version: undo after it shows
   the slot before the cursor, and the edited text is gone.
   */
  lemma UndoDiscardsEdit(s: Session, jsx: Option<string>, css: Option<string>)
    requires Synced(s) && s.currentVersion > 0
    ensures var r := Undo(EditCss(EditJsx(s, jsx), css));
            && Synced(r) && r.currentVersion == s.currentVersion - 1
            && r == Undo(s)
  {
  }

  /** On a synced session, redo undoes an undo that moved the cursor. */
  lemma RedoAfterUndo(s: Session)
    requires Synced(s) && s.currentVersion > 0
    ensures Redo(Undo(s)) == s
  {
  }

  /** On a synced session, undo undoes a redo that moved the cursor. */
  lemma UndoAfterRedo(s: Session)
    requires Synced(s) && s.currentVersion < |s.codeHistory| - 1
    ensures Undo(Redo(s)) == s
  {
  }

  /** On a synced session whose cursor is not past the cap, a commit keeps everything up to the cursor and drops the rest. */
  lemma CommitDropsRedoBranch(s: Session, v: CodeVersion, reply: Message)
    requires Synced(s) && s.currentVersion + 2 <= MaxVersions
    ensures Commit(s, v, reply).codeHistory == s.codeHistory[..s.currentVersion + 1] + [v]
  {
    var r := Commit(s, v, reply);
    var expected := s.codeHistory[..s.currentVersion + 1] + [v];
    assert |r.codeHistory| == |expected|;
    forall i | 0 <= i < |expected|
      ensures r.codeHistory[i] == expected[i]
    {
      if i < |expected| - 1 {
        assert r.codeHistory[i] == s.codeHistory[i];
      }
    }
  }

  /** The code-producing operations of a session. */
  datatype VersionOp = CommitOp(v: CodeVersion, reply: Message) | UndoOp | RedoOp

  /** Apply the operations in order. */
  function Run(s: Session, ops: seq<VersionOp>): Session
    decreases |ops|
  {
    if ops == [] then s
    else
      var s' := match ops[0]
        case CommitOp(v, reply) => Commit(s, v, reply)
        case UndoOp => Undo(s)
        case RedoOp => Redo(s);
      Run(s', ops[1..])
  }

  /**
   Any sequence of commits, undos and redos from a synced session within
   the cap leaves the cursor in range, the shown code equal to its slot,
   and at most five versions: the boundaries never fault or wrap.
   */
  lemma {:induction false} RunKeepsSynced(s: Session, ops: seq<VersionOp>)
    requires Synced(s) && Bounded(s)
    ensures Synced(Run(s, ops)) && Bounded(Run(s, ops))
    ensures 0 <= Run(s, ops).currentVersion < MaxVersions
    decreases |ops|
  {
    if ops != [] {
      var s' := match ops[0]
        case CommitOp(v, reply) => Commit(s, v, reply)
        case UndoOp => Undo(s)
        case RedoOp => Redo(s);
      RunKeepsSynced(s', ops[1..]);
    }
  }

  /** Commit each version in turn, each with the same reply. */
  function CommitAll(s: Session, vs: seq<CodeVersion>, reply: Message): Session
    decreases |vs|
  {
    if vs == [] then s else CommitAll(Commit(s, vs[0], reply), vs[1..], reply)
  }

  /** The last `n` entries of a suffix at least `n` long are the last `n` entries of the whole. */
  lemma LastNOfSuffix<T>(x: seq<T>, k: nat, n: nat)
    requires n > 0 && k + n <= |x|
    ensures LastN(x[k..], n) == LastN(x, n)
  {
    assert x[k..][|x| - k - n..] == x[|x| - n..];
  }

  /** Taking the last `n` twice, with entries appended in between, is taking the last `n` once. */
  lemma LastNAbsorbs<T>(a: seq<T>, b: seq<T>, n: nat)
    requires n > 0
    ensures LastN(LastN(a, n) + b, n) == LastN(a + b, n)
  {
    if |a| > n {
      var k := |a| - n;
      assert LastN(a, n) + b == (a + b)[k..];
      LastNOfSuffix(a + b, k, n);
    }
  }

  /** Appending the head and then the tail of `vs` is appending `vs`. */
  lemma AppendHead<T>(h: seq<T>, vs: seq<T>)
    requires vs != []
    ensures h + [vs[0]] + vs[1..] == h + vs
  {
    assert [vs[0]] + vs[1..] == vs;
  }

  /**
   History cap: committing versions one after another at the newest
   slot keeps exactly the five most recent versions, in order, and the
   cursor on the last of them.
   */
  lemma {:induction false} CommitAllKeepsLastFive(s: Session, vs: seq<CodeVersion>, reply: Message)
    requires Synced(s) && Bounded(s) && s.currentVersion == |s.codeHistory| - 1
    ensures CommitAll(s, vs, reply).codeHistory == LastN(s.codeHistory + vs, MaxVersions)
    ensures CommitAll(s, vs, reply).currentVersion == |CommitAll(s, vs, reply).codeHistory| - 1
    decreases |vs|
  {
    if vs == [] {
      assert s.codeHistory + vs == s.codeHistory;
    } else {
      var h := s.codeHistory;
      var s1 := Commit(s, vs[0], reply);
      assert CommitAll(s, vs, reply) == CommitAll(s1, vs[1..], reply);
      CommitAllKeepsLastFive(s1, vs[1..], reply);
      assert LastN(s1.codeHistory + vs[1..], MaxVersions) == LastN(h + vs, MaxVersions) by {
        assert s1.codeHistory == LastN(h + [vs[0]], MaxVersions);
        LastNAbsorbs(h + [vs[0]], vs[1..], MaxVersions);
        AppendHead(h, vs);
      }
    }
  }
}
