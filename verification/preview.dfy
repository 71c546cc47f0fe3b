/**
 The live-preview code preparation (`preparedCode` in
 src/components/aether-ui-main.tsx): the component source becomes an
 expression the live renderer can run. The render, export and
 declaration patterns are each given twice: a predicate saying what a
 match is, and a left-to-right scan proved to find the leftmost match.
 The arrow-function pattern is given only as a scan, proved to hit only
 where the declaration pattern also matches; that is all its branch,
 which is never taken, needs.
 */
module Preview {

  import opened Types
  import opened Text
  import Sessions

  /** What an empty source renders. */
  const EmptyRender: string := "render(null)"
  /** What a session without a real component renders. */
  const PlaceholderRender: string := "render(" + Sessions.PlaceholderJsx + ")"
  const ExportDefault: string := "export default"
  /** The alternatives of `(?:function|class|const)`, in the order they are tried. */
  const Keywords: seq<string> := ["function", "class", "const"]

  /** Every character of `c[a..b]` is white space. */
  predicate SpacesBetween(c: string, a: int, b: int) {
    0 <= a <= b <= |c| && forall k :: a <= k < b ==> IsSpace(c[k])
  }

  /** A run of white space from `a` that stops at a non-space ends where the greedy scan does. */
  lemma GreedySpaces(c: string, a: nat, b: int)
    requires a <= |c| && SpacesBetween(c, a, b) && (b == |c| || !IsSpace(c[b]))
    ensures b == SkipSpaces(c, a)
  {
  }

  /** A run of word characters from `a` that stops at a non-word character ends where the greedy scan does. */
  lemma GreedyWord(c: string, a: nat, b: int)
    requires a <= b <= |c| && (forall k :: a <= k < b ==> IsWordChar(c[k])) && (b == |c| || !IsWordChar(c[b]))
    ensures b == SkipWord(c, a)
  {
  }

  // ---------------------------------------------------------------- \brender\s*\(

  /** A match of `\brender\s*\(` starts at `i`. */
  predicate RenderMatch(c: string, i: int) {
    && StartsAt(c, i, "render")
    && (i == 0 || !IsWordChar(c[i - 1]))
    && exists j :: i + 6 <= j < |c| && SpacesBetween(c, i + 6, j) && c[j] == '('
  }

  /** `/\brender\s*\(/.test(c)`. */
  ghost predicate HasRenderCall(c: string) {
    exists i :: RenderMatch(c, i)
  }

  /** Whether `\brender\s*\(` matches at `i`. */
  function RenderAt(c: string, i: nat): (b: bool)
    ensures b <==> RenderMatch(c, i)
  {
    if !(StartsAt(c, i, "render") && (i == 0 || !IsWordChar(c[i - 1]))) then false
    else
      var j := SkipSpaces(c, i + 6);
      assert RenderMatch(c, i) ==> j < |c| && c[j] == '(' by {
        if RenderMatch(c, i) {
          var j' :| i + 6 <= j' < |c| && SpacesBetween(c, i + 6, j') && c[j'] == '(';
          GreedySpaces(c, i + 6, j');
        }
      }
      assert j < |c| && c[j] == '(' ==> SpacesBetween(c, i + 6, j);
      j < |c| && c[j] == '('
  }

  /** Whether `\brender\s*\(` matches at `from` or later. */
  function FindRender(c: string, from: nat): (b: bool)
    decreases |c| - from
    ensures b <==> exists i :: from <= i && RenderMatch(c, i)
  {
    if from >= |c| then false else RenderAt(c, from) || FindRender(c, from + 1)
  }

  /** `render(` at the start of the text, or after a non-word character, is a render call. */
  lemma RenderOpens(pre: string, post: string)
    requires |pre| == 0 || !IsWordChar(pre[|pre| - 1])
    ensures RenderMatch(pre + "render(" + post, |pre|)
  {
    var c := pre + "render(" + post;
    assert c[|pre|..|pre| + 6] == "render";
    assert c[|pre| + 6] == '(';
    assert SpacesBetween(c, |pre| + 6, |pre| + 6);
  }

  /** A text that begins with `render(` is a render call. */
  lemma RenderAtStart(t: string)
    requires |t| >= 7 && t[..7] == "render("
    ensures RenderMatch(t, 0)
  {
    assert t[0..6] == "render";
    assert t[..7][6] == t[6];
    assert SpacesBetween(t, 6, 6);
  }

  // ---------------------------------------------------------------- export default\s+

  /** `export default\s+` matches `c[i..e]`; the greedy `\s+` takes the whole run of spaces. */
  predicate ExportMatch(c: string, i: int, e: int) {
    && StartsAt(c, i, ExportDefault)
    && i + |ExportDefault| < e
    && SpacesBetween(c, i + |ExportDefault|, e)
    && (e == |c| || !IsSpace(c[e]))
  }

  /** `ExportMatch(c, i, e)` and no match starts before `i`. */
  ghost predicate FirstExport(c: string, i: int, e: int) {
    ExportMatch(c, i, e) && forall j, e' :: 0 <= j < i ==> !ExportMatch(c, j, e')
  }

  /** A span of the text: where a match starts and where it (or its capture) ends. */
  datatype Span = Span(start: nat, end: nat)

  /** The end of the `export default\s+` match at `i`, if there is one. */
  function ExportAt(c: string, i: nat): (e: Option<nat>)
    ensures e.Some? ==> ExportMatch(c, i, e.value)
    ensures e.Some? ==> forall e' :: ExportMatch(c, i, e') ==> e' == e.value
    ensures e.None? ==> forall e' :: !ExportMatch(c, i, e')
  {
    if StartsAt(c, i, ExportDefault) && i + |ExportDefault| < |c| && IsSpace(c[i + |ExportDefault|]) then
      var e := SkipSpaces(c, i + |ExportDefault|);
      assert forall e' :: ExportMatch(c, i, e') ==> e' == e by {
        forall e' | ExportMatch(c, i, e') ensures e' == e {
          GreedySpaces(c, i + |ExportDefault|, e');
        }
      }
      Some(e)
    else
      None
  }

  /** The leftmost `export default\s+` match at `from` or later. */
  function FindExport(c: string, from: nat): (m: Option<Span>)
    decreases |c| - from
    ensures m.Some? ==> from <= m.value.start && ExportMatch(c, m.value.start, m.value.end)
    ensures m.Some? ==> forall e' :: ExportMatch(c, m.value.start, e') ==> e' == m.value.end
    ensures m.Some? ==> forall i, e :: from <= i < m.value.start ==> !ExportMatch(c, i, e)
    ensures m.None? ==> forall i, e :: from <= i ==> !ExportMatch(c, i, e)
  {
    if from >= |c| then None
    else
      match ExportAt(c, from)
      case Some(e) => Some(Span(from, e))
      case None => FindExport(c, from + 1)
  }

  /** `c.replace(/export default\s+/, '')`: the leftmost match, wherever it is, is cut out. */
  function StripExportDefault(c: string): (r: string)
    ensures (forall i, e :: !ExportMatch(c, i, e)) ==> r == c
    ensures forall i, e :: FirstExport(c, i, e) ==> r == c[..i] + c[e..]
  {
    match FindExport(c, 0)
    case Some(m) => c[..m.start] + c[m.end..]
    case None => c
  }

  /** `c.replace(/;$/, '')`: without the multiline flag `$` is only the end of the text. */
  function StripSemicolon(c: string): (r: string)
    ensures |c| > 0 && c[|c| - 1] == ';' ==> r == c[..|c| - 1]
    ensures !(|c| > 0 && c[|c| - 1] == ';') ==> r == c
  {
    if |c| > 0 && c[|c| - 1] == ';' then c[..|c| - 1] else c
  }

  /** The source with its export marker and its final semicolon removed. */
  function Clean(c: string): string {
    StripSemicolon(StripExportDefault(c))
  }

  // ---------------------------------------------------------------- (?:function|class|const)\s+([A-Z]\w*)

  /**
   `(?:function|class|const)\s+([A-Z]\w*)` matches at `i`, capturing
   `c[p..q]`. `\s+` is followed by `[A-Z]`, which no space satisfies, and
   the greedy `\w*` ends the pattern, so the capture is the whole word.
   */
  predicate DeclMatch(c: string, i: int, p: int, q: int) {
    && (exists k :: 0 <= k < |Keywords| && StartsAt(c, i, Keywords[k]) &&
                    i + |Keywords[k]| < p && SpacesBetween(c, i + |Keywords[k]|, p))
    && 0 <= p < q <= |c| && IsUpper(c[p])
    && (forall m :: p < m < q ==> IsWordChar(c[m]))
    && (q == |c| || !IsWordChar(c[q]))
  }

  /** `DeclMatch(c, i, p, q)` and no match starts before `i`: what `String.prototype.match` reports. */
  ghost predicate LeftmostDecl(c: string, i: int, p: int, q: int) {
    DeclMatch(c, i, p, q) && forall j, p', q' :: 0 <= j < i ==> !DeclMatch(c, j, p', q')
  }

  /**
   The length of the keyword that starts at `i`, or 0. The keywords
   differ in their first two letters, so at most one of them starts there.
   */
  function KeywordLength(c: string, i: nat): (n: nat)
    ensures n == 0 <==> forall k :: 0 <= k < |Keywords| ==> !StartsAt(c, i, Keywords[k])
    ensures forall k :: 0 <= k < |Keywords| && StartsAt(c, i, Keywords[k]) ==> n == |Keywords[k]|
    ensures n > 0 ==> i + n <= |c|
  {
    assert forall k :: 0 <= k < |Keywords| && StartsAt(c, i, Keywords[k]) ==>
                       c[i] == Keywords[k][0] && c[i + 1] == Keywords[k][1] by {
      forall k | 0 <= k < |Keywords| && StartsAt(c, i, Keywords[k])
        ensures c[i] == Keywords[k][0] && c[i + 1] == Keywords[k][1]
      {
        assert c[i..i + |Keywords[k]|][0] == c[i];
        assert c[i..i + |Keywords[k]|][1] == c[i + 1];
      }
    }
    if StartsAt(c, i, Keywords[0]) then |Keywords[0]|
    else if StartsAt(c, i, Keywords[1]) then |Keywords[1]|
    else if StartsAt(c, i, Keywords[2]) then |Keywords[2]|
    else 0
  }

  /** A match of the declaration pattern at `at`, capturing `nameStart..nameEnd`. */
  datatype Capture = Capture(at: nat, nameStart: nat, nameEnd: nat)

  /** The capture of the declaration pattern matched at `i`, if it matches there. */
  function DeclAt(c: string, i: nat): (m: Option<Span>)
    ensures m.Some? ==> DeclMatch(c, i, m.value.start, m.value.end)
    ensures m.Some? ==> forall p, q :: DeclMatch(c, i, p, q) ==> p == m.value.start && q == m.value.end
    ensures m.None? ==> forall p, q :: !DeclMatch(c, i, p, q)
  {
    var n := KeywordLength(c, i);
    if n == 0 then None
    else
      var p := SkipSpaces(c, i + n);
      assert forall p', q' :: DeclMatch(c, i, p', q') ==> p' == p && q' == SkipWord(c, p + 1) by {
        forall p', q' | DeclMatch(c, i, p', q') ensures p' == p && q' == SkipWord(c, p + 1) {
          GreedySpaces(c, i + n, p');
          GreedyWord(c, p' + 1, q');
        }
      }
      if p == i + n || p == |c| || !IsUpper(c[p]) then None
      else
        var q := SkipWord(c, p + 1);
        assert StartsAt(c, i, Keywords[0]) || StartsAt(c, i, Keywords[1]) || StartsAt(c, i, Keywords[2]);
        Some(Span(p, q))
  }

  /** The leftmost match of the declaration pattern at `from` or later. */
  function FindDecl(c: string, from: nat): (m: Option<Capture>)
    decreases |c| - from
    ensures m.Some? ==> from <= m.value.at && DeclMatch(c, m.value.at, m.value.nameStart, m.value.nameEnd)
    ensures m.Some? ==> forall p, q :: DeclMatch(c, m.value.at, p, q) ==> p == m.value.nameStart && q == m.value.nameEnd
    ensures m.Some? ==> forall i, p, q :: from <= i < m.value.at ==> !DeclMatch(c, i, p, q)
    ensures m.None? ==> forall i, p, q :: from <= i ==> !DeclMatch(c, i, p, q)
  {
    if from >= |c| then None
    else
      match DeclAt(c, from)
      case Some(s) => Some(Capture(from, s.start, s.end))
      case None => FindDecl(c, from + 1)
  }

  // ---------------------------------------------------------------- const\s+([A-Z]\w*)\s*=\s*\([^)]*\)\s*=>

  /**
   Whether `const\s+([A-Z]\w*)\s*=\s*\([^)]*\)\s*=>` matches at `i`, and
   its capture. Every repetition in the pattern is followed by an atom its
   own class excludes, so the greedy runs computed here are the only way it
   can match.
   */
  function ArrowAt(c: string, i: nat): (m: Option<Span>)
    ensures m.Some? ==> DeclMatch(c, i, m.value.start, m.value.end)
  {
    if !StartsAt(c, i, "const") then None
    else
      var p := SkipSpaces(c, i + 5);
      if p == i + 5 || p == |c| || !IsUpper(c[p]) then None
      else
        var q := SkipWord(c, p + 1);
        var e := SkipSpaces(c, q);
        if e == |c| || c[e] != '=' then None
        else
          var t := SkipSpaces(c, e + 1);
          if t == |c| || c[t] != '(' then None
          else
            var u := SkipWhile(c, t + 1, ch => ch != ')');
            if u == |c| then None
            else
              var w := SkipSpaces(c, u + 1);
              if StartsAt(c, w, "=>") then
                assert StartsAt(c, i, Keywords[2]);
                Some(Span(p, q))
              else None
  }

  /** The leftmost match of the arrow pattern at `from` or later. */
  function FindArrow(c: string, from: nat): (m: Option<Capture>)
    decreases |c| - from
    ensures m.Some? ==> from <= m.value.at && DeclMatch(c, m.value.at, m.value.nameStart, m.value.nameEnd)
  {
    if from >= |c| then None
    else
      match ArrowAt(c, from)
      case Some(s) => Some(Capture(from, s.start, s.end))
      case None => FindArrow(c, from + 1)
  }

  /**
   The name the arrow pattern captures at its leftmost hit, if it has
   one; that name is also captured by a declaration match.
   */
  function ArrowName(c: string): (n: Option<string>)
    ensures n.Some? <==> FindArrow(c, 0).Some?
    ensures n.Some? ==> exists i, p, q :: DeclMatch(c, i, p, q) && n.value == c[p..q]
  {
    match FindArrow(c, 0)
    case Some(m) => Some(c[m.nameStart..m.nameEnd])
    case None => None
  }

  /**
   The arrow-function fallback is dead code: whatever the arrow pattern
   matches, the declaration pattern matches at the same place.
   */
  lemma ArrowFallbackUnreachable(c: string)
    ensures FindDecl(c, 0).None? ==> FindArrow(c, 0).None?
  {
  }

  // ---------------------------------------------------------------- preparedCode

  /** The invocation appended after a component definition. */
  function RenderSuffix(name: string): string {
    "\n\nrender(<" + name + " />);"
  }

  /** The last resort: the whole cleaned source inside a `div`. */
  function Fallback(cleaned: string): string {
    "render(<div>" + cleaned + "</div>)"
  }

  /**
   The last steps of `preparedCode` on the cleaned source: append a
   render call for the name the declaration pattern captures first, try
   the arrow pattern, or else wrap everything in a `div`.
   */
  function Transform(cleaned: string): (r: string)
    ensures forall i, p, q :: LeftmostDecl(cleaned, i, p, q) ==> r == cleaned + RenderSuffix(cleaned[p..q])
    ensures (forall i, p, q :: !DeclMatch(cleaned, i, p, q)) ==> r == Fallback(cleaned)
    ensures HasRenderCall(r)
  {
    match FindDecl(cleaned, 0)
    case Some(m) =>
      var r := cleaned + RenderSuffix(cleaned[m.nameStart..m.nameEnd]);
      WithRenderSuffix(cleaned, cleaned[m.nameStart..m.nameEnd]);
      assert forall i, p, q :: LeftmostDecl(cleaned, i, p, q) ==> r == cleaned + RenderSuffix(cleaned[p..q]) by {
        forall i, p, q | LeftmostDecl(cleaned, i, p, q) ensures r == cleaned + RenderSuffix(cleaned[p..q]) {
          assert i == m.at;
        }
      }
      assert !(forall i, p, q :: !DeclMatch(cleaned, i, p, q)) by {
        assert DeclMatch(cleaned, m.at, m.nameStart, m.nameEnd);
      }
      r
    case None =>
      match ArrowName(cleaned)
      case Some(name) =>
        // The arrow-function fallback: every arrow match is a declaration
        // match (the contract of ArrowAt), so this branch is never taken.
        assert false;
        cleaned + RenderSuffix(name)
      case None =>
        var r := Fallback(cleaned);
        RenderAtStart(r);
        r
  }

  /**
   `preparedCode`. Empty source renders `null`; source with the
   placeholder text renders the placeholder; source that already calls
   `render(` is kept as it is; otherwise the cleaned source gets a render
   call for the name of the first capitalised function, class or const
   declaration, or, with none, is wrapped in a `div`. (The source's last
   `try` block only inspects the code and changes nothing.) Whatever the
   input, the result calls `render(`.
   */
  function PreparedCode(code: string): (r: string)
    ensures code == "" ==> r == EmptyRender
    ensures code != "" && Contains(code, Sessions.PlaceholderMarker) ==> r == PlaceholderRender
    ensures code != "" && !Contains(code, Sessions.PlaceholderMarker) && HasRenderCall(code) ==> r == code
    ensures code != "" && !Contains(code, Sessions.PlaceholderMarker) && !HasRenderCall(code) ==>
              r == Transform(Clean(code))
    ensures HasRenderCall(r)
  {
    IndexFindsContained(code, Sessions.PlaceholderMarker);
    if code == "" then
      RenderAtStart(EmptyRender);
      EmptyRender
    else if IndexFrom(code, Sessions.PlaceholderMarker, 0).Some? then
      RenderAtStart(PlaceholderRender);
      PlaceholderRender
    else if FindRender(code, 0) then
      code
    else
      Transform(Clean(code))
  }

  /** A source followed by the render suffix calls `render(`. */
  lemma WithRenderSuffix(cleaned: string, name: string)
    ensures HasRenderCall(cleaned + RenderSuffix(name))
  {
    var pre := cleaned + "\n\n";
    RenderOpens(pre, "<" + name + " />);");
    assert cleaned + RenderSuffix(name) == pre + "render(" + ("<" + name + " />);");
  }

  // ---------------------------------------------------------------- idempotence

  /** `t` does not occur in `x + [sep] + y` when it occurs in neither part and lacks `sep`. */
  lemma NotContainsJoin(x: string, sep: char, y: string, t: string)
    requires !Contains(x, t) && !Contains(y, t)
    requires forall k :: 0 <= k < |t| ==> t[k] != sep
    ensures !Contains(x + [sep] + y, t)
  {
    var z := x + [sep] + y;
    forall i | 0 <= i <= |z|
      ensures !StartsAt(z, i, t)
    {
      if i + |t| <= |z| {
        if i + |t| <= |x| {
          assert z[i..i + |t|] == x[i..i + |t|];
          assert !StartsAt(x, i, t);
        } else if i <= |x| {
          assert z[i..i + |t|][|x| - i] == sep;
        } else {
          assert z[i..i + |t|] == y[i - |x| - 1..i - |x| - 1 + |t|];
          assert !StartsAt(y, i - |x| - 1, t);
        }
      }
    }
  }

  /**
   The placeholder text has a space at index 4, so it cannot occur in a
   text whose spaces all lie in a tail shorter than 27 characters.
   */
  lemma NoMarkerAfterSpaceFree(w: string, rest: string)
    requires forall k :: 0 <= k < |w| ==> w[k] != ' '
    requires |rest| <= 26
    ensures !Contains(w + rest, Sessions.PlaceholderMarker)
  {
    var z := w + rest;
    var t := Sessions.PlaceholderMarker;
    assert t[4] == ' ';
    forall i | 0 <= i <= |z|
      ensures !StartsAt(z, i, t)
    {
      if i + |t| <= |z| {
        assert z[i..i + |t|][4] == w[i + 4];
      }
    }
  }

  /** `a + b + c` contains whatever `b` contains. */
  lemma ContainsExtend(a: string, b: string, c: string, t: string)
    requires Contains(b, t)
    ensures Contains(a + b + c, t)
  {
    var i :| 0 <= i <= |b| && StartsAt(b, i, t);
    assert (a + b + c)[|a| + i..|a| + i + |t|] == b[i..i + |t|];
    assert StartsAt(a + b + c, |a| + i, t);
  }

  /** The placeholder render contains the placeholder text. */
  lemma PlaceholderRenderCarriesMarker()
    ensures Contains(PlaceholderRender, Sessions.PlaceholderMarker)
  {
    Sessions.PlaceholderCarriesMarker();
    ContainsExtend("render(", Sessions.PlaceholderJsx, ")", Sessions.PlaceholderMarker);
  }

  /** The placeholder text holds none of the characters that delimit the generated parts. */
  lemma MarkerLacksDelimiters()
    ensures forall k :: 0 <= k < |Sessions.PlaceholderMarker| ==> Sessions.PlaceholderMarker[k] != '\n'
    ensures forall k :: 0 <= k < |Sessions.PlaceholderMarker| ==> Sessions.PlaceholderMarker[k] != '<'
    ensures forall k :: 0 <= k < |Sessions.PlaceholderMarker| ==> Sessions.PlaceholderMarker[k] != '>'
    ensures !Contains("", Sessions.PlaceholderMarker)
  {
  }

  /** Appending the render call for a component name does not create the placeholder text. */
  lemma SuffixKeepsMarkerOut(cleaned: string, name: string)
    requires !Contains(cleaned, Sessions.PlaceholderMarker)
    requires forall k :: 0 <= k < |name| ==> IsWordChar(name[k])
    ensures !Contains(cleaned + RenderSuffix(name), Sessions.PlaceholderMarker)
  {
    var t := Sessions.PlaceholderMarker;
    MarkerLacksDelimiters();
    var w := "render(<" + name;
    forall k | 0 <= k < |w|
      ensures w[k] != ' '
    {
      if k >= 8 {
        assert w[k] == name[k - 8];
      }
    }
    NoMarkerAfterSpaceFree(w, " />);");
    NotContainsJoin("", '\n', w + " />);", t);
    NotContainsJoin(cleaned, '\n', "" + ['\n'] + (w + " />);"), t);
    assert cleaned + RenderSuffix(name) == cleaned + ['\n'] + ("" + ['\n'] + (w + " />);"));
  }

  /** Wrapping a source without the placeholder text in a `div` does not create it. */
  lemma FallbackKeepsMarkerOut(cleaned: string)
    requires !Contains(cleaned, Sessions.PlaceholderMarker)
    ensures !Contains(Fallback(cleaned), Sessions.PlaceholderMarker)
  {
    var t := Sessions.PlaceholderMarker;
    MarkerLacksDelimiters();
    assert !Contains("/div>)", t);
    assert !Contains("render(<div", t);
    NotContainsJoin(cleaned, '<', "/div>)", t);
    NotContainsJoin("render(<div", '>', cleaned + ['<'] + "/div>)", t);
    assert Fallback(cleaned) == "render(<div" + ['>'] + (cleaned + ['<'] + "/div>)");
  }

  /** The name a declaration match captures is a word. */
  lemma DeclNameIsWord(c: string, i: int, p: int, q: int)
    requires DeclMatch(c, i, p, q)
    ensures forall k :: 0 <= k < q - p ==> IsWordChar(c[p..q][k])
  {
    forall k | 0 <= k < q - p
      ensures IsWordChar(c[p..q][k])
    {
      assert c[p..q][k] == c[p + k];
    }
  }

  /** With a declaration match, the transformed source is the cleaned one followed by a render call for it. */
  lemma TransformAppends(cleaned: string, m: Capture)
    requires FindDecl(cleaned, 0) == Some(m)
    ensures m.nameStart <= m.nameEnd <= |cleaned|
    ensures Transform(cleaned) == cleaned + RenderSuffix(cleaned[m.nameStart..m.nameEnd])
  {
  }

  /** When the cleaned source lacks the placeholder text, so does the transformed source. */
  lemma TransformKeepsMarkerOut(cleaned: string)
    requires !Contains(cleaned, Sessions.PlaceholderMarker)
    ensures !Contains(Transform(cleaned), Sessions.PlaceholderMarker)
  {
    match FindDecl(cleaned, 0)
    case Some(m) =>
      TransformAppends(cleaned, m);
      DeclNameIsWord(cleaned, m.at, m.nameStart, m.nameEnd);
      SuffixKeepsMarkerOut(cleaned, cleaned[m.nameStart..m.nameEnd]);
    case None =>
      FallbackKeepsMarkerOut(cleaned);
  }

  /**
   Preparing the prepared code again changes nothing, unless removing the
   export marker is what put the placeholder text into the source.
   */
  lemma PreparedIdempotent(code: string)
    requires Contains(code, Sessions.PlaceholderMarker) || !Contains(Clean(code), Sessions.PlaceholderMarker)
    ensures PreparedCode(PreparedCode(code)) == PreparedCode(code)
  {
    if code == "" {
      assert !Contains(EmptyRender, Sessions.PlaceholderMarker);
    } else if Contains(code, Sessions.PlaceholderMarker) {
      PlaceholderRenderCarriesMarker();
    } else if !HasRenderCall(code) {
      TransformKeepsMarkerOut(Clean(code));
    }
  }

  /** The input that shows the exception: cutting out `export default ` joins the placeholder text. */
  const UncoveringSource: string := "Y" + ExportDefault + " " + Sessions.PlaceholderMarker[1..]

  /** The only `Y` of `UncoveringSource` is its first character, and an `e` follows it. */
  lemma UncoveringSourceYs()
    ensures forall k :: 0 <= k < |UncoveringSource| && UncoveringSource[k] == 'Y' ==> k == 0
    ensures UncoveringSource[1] == 'e'
  {
  }

  /** The `n`s of `UncoveringSource` are at 25 and 27, after a `p` and an `o`. */
  lemma UncoveringSourceNs()
    ensures forall k :: 0 <= k < |UncoveringSource| && UncoveringSource[k] == 'n' ==> k == 25 || k == 27
    ensures UncoveringSource[23] == 'p' && UncoveringSource[25] == 'n'
  {
  }

  /** `UncoveringSource` does not hold the placeholder text. */
  lemma UncoveringSourceLacksMarker()
    ensures !Contains(UncoveringSource, Sessions.PlaceholderMarker)
  {
    var c := UncoveringSource;
    var t := Sessions.PlaceholderMarker;
    UncoveringSourceYs();
    assert t[0] == 'Y' && t[1] == 'o';
    forall i | 0 <= i <= |c|
      ensures !StartsAt(c, i, t)
    {
      if i + |t| <= |c| {
        assert c[i..i + |t|][0] == c[i];
        assert c[i..i + |t|][1] == c[i + 1];
      }
    }
  }

  /** A text in which no `n` comes two places after an `r` holds no render call. */
  lemma NoRenderWithoutRen(c: string)
    requires forall k :: 2 <= k < |c| && c[k] == 'n' ==> c[k - 2] != 'r'
    ensures !HasRenderCall(c)
  {
    forall i | 0 <= i <= |c|
      ensures !StartsAt(c, i, "render")
    {
      if i + 6 <= |c| {
        assert c[i..i + 6][0] == c[i];
        assert c[i..i + 6][2] == c[i + 2];
      }
    }
  }

  /** `UncoveringSource` holds no render call. */
  lemma UncoveringSourceLacksRender()
    ensures !HasRenderCall(UncoveringSource)
  {
    UncoveringSourceNs();
    NoRenderWithoutRen(UncoveringSource);
  }

  /** Cleaning `UncoveringSource` cuts `export default ` out at index 1 and leaves the placeholder text. */
  lemma UncoveringSourceCleansToMarker()
    ensures Clean(UncoveringSource) == Sessions.PlaceholderMarker
  {
    var c := UncoveringSource;
    var t := Sessions.PlaceholderMarker;
    assert c == "Y" + ExportDefault + (" " + t[1..]);
    assert c[1..15] == ExportDefault;
    assert c[0..14][0] == 'Y';
    assert FirstExport(c, 1, 16);
    assert c[..1] + c[16..] == t by {
      assert c[16..] == t[1..];
      assert t == t[..1] + t[1..];
    }
  }

  /** The placeholder text holds no `f`, and its only `c` is at 5, followed by `om`. */
  lemma MarkerLetters()
    ensures forall k :: 0 <= k < |Sessions.PlaceholderMarker| ==> Sessions.PlaceholderMarker[k] != 'f'
    ensures forall k :: 0 <= k < |Sessions.PlaceholderMarker| && Sessions.PlaceholderMarker[k] == 'c' ==> k == 5
    ensures Sessions.PlaceholderMarker[6] == 'o' && Sessions.PlaceholderMarker[7] == 'm'
  {
  }

  /** The placeholder text holds no `function`, `class` or `const`, so no declaration matches in it. */
  lemma MarkerHasNoDecl()
    ensures forall i, p, q :: !DeclMatch(Sessions.PlaceholderMarker, i, p, q)
  {
    var t := Sessions.PlaceholderMarker;
    MarkerLetters();
    forall i, p, q
      ensures !DeclMatch(t, i, p, q)
    {
      if 0 <= i && i + 5 <= |t| {
        assert t[i..i + 5][0] == t[i];
        assert t[i..i + 5][1] == t[i + 1];
        assert t[i..i + 5][2] == t[i + 2];
        if i + 8 <= |t| {
          assert t[i..i + 8][0] == t[i];
        }
      }
    }
  }

  /**
   On `UncoveringSource` the prepared code is the `div` fallback around
   the placeholder text, and preparing that again yields the placeholder
   render instead: `preparedCode` is not idempotent there.
   */
  lemma CleaningUncoversPlaceholder()
    ensures PreparedCode(UncoveringSource) == Fallback(Sessions.PlaceholderMarker)
    ensures PreparedCode(PreparedCode(UncoveringSource)) == PlaceholderRender
    ensures PreparedCode(UncoveringSource) != PlaceholderRender
  {
    var t := Sessions.PlaceholderMarker;
    UncoveringSourceLacksMarker();
    UncoveringSourceLacksRender();
    UncoveringSourceCleansToMarker();
    MarkerHasNoDecl();
    var r := Fallback(t);
    assert PreparedCode(UncoveringSource) == r;
    assert StartsAt(t, 0, t);
    ContainsExtend("render(<div>", t, "</div>)", t);
  }

  /**
   `preparedCode` as evidently intended: a source whose cleaning uncovers
   the placeholder text renders the placeholder too, so every result is a
   fixed point.
   */
  function PreparedCodeFixed(code: string): (r: string)
    ensures (Contains(code, Sessions.PlaceholderMarker) || !Contains(Clean(code), Sessions.PlaceholderMarker)) ==>
              r == PreparedCode(code)
    ensures (code != "" && !Contains(code, Sessions.PlaceholderMarker) && !HasRenderCall(code) &&
             Contains(Clean(code), Sessions.PlaceholderMarker)) ==> r == PlaceholderRender
    ensures HasRenderCall(r)
  {
    IndexFindsContained(code, Sessions.PlaceholderMarker);
    IndexFindsContained(Clean(code), Sessions.PlaceholderMarker);
    if code != "" && IndexFrom(code, Sessions.PlaceholderMarker, 0).None? && !FindRender(code, 0) &&
       IndexFrom(Clean(code), Sessions.PlaceholderMarker, 0).Some? then
      RenderAtStart(PlaceholderRender);
      PlaceholderRender
    else
      PreparedCode(code)
  }

  /** The corrected preparation is idempotent on every input. */
  lemma PreparedCodeFixedIdempotent(code: string)
    ensures PreparedCodeFixed(PreparedCodeFixed(code)) == PreparedCodeFixed(code)
  {
    var t := Sessions.PlaceholderMarker;
    var r := PreparedCodeFixed(code);
    PlaceholderRenderCarriesMarker();
    if r != PlaceholderRender {
      // Then r is a non-empty render call without the placeholder text.
      if code == "" {
        assert !Contains(EmptyRender, t);
      } else if !HasRenderCall(code) {
        TransformKeepsMarkerOut(Clean(code));
      }
      assert r != "" && !Contains(r, t) && HasRenderCall(r);
    }
  }
}
