/**
 Character classes of JavaScript and the string scans the editor's
 regular expressions and `includes`/`trim` calls perform.
 */
module Text {

  import opened Types

  /**
   JavaScript white space and line terminators: the set removed by
   `String.prototype.trim` and matched by the regular-expression class `\s`.
   */
  predicate IsSpace(c: char) {
    || c == ' ' || c == '\t' || c == '\n' || c == '\r' || c == '\U{000B}' || c == '\U{000C}'
    || c == '\U{00A0}' || c == '\U{1680}' || ('\U{2000}' <= c <= '\U{200A}')
    || c == '\U{2028}' || c == '\U{2029}' || c == '\U{202F}' || c == '\U{205F}'
    || c == '\U{3000}' || c == '\U{FEFF}'
  }

  /** The regular-expression class `\w`: `[A-Za-z0-9_]`. */
  predicate IsWordChar(c: char) {
    ('a' <= c <= 'z') || ('A' <= c <= 'Z') || ('0' <= c <= '9') || c == '_'
  }

  /** The class `[A-Z]`. */
  predicate IsUpper(c: char) {
    'A' <= c <= 'Z'
  }

  /** Every character is white space. */
  predicate IsBlank(s: string) {
    forall i :: 0 <= i < |s| ==> IsSpace(s[i])
  }

  /**
   `s.trim()`: white space removed from both ends. The result is empty
   exactly when `s` is blank, which is how `!prompt.trim()` rejects a
   prompt; otherwise it starts and ends with a character that is not
   white space.
   */
  function Trim(s: string): (r: string)
    ensures |r| <= |s|
    ensures r == [] <==> IsBlank(s)
    ensures r != [] ==> !IsSpace(r[0]) && !IsSpace(r[|r| - 1])
    decreases |s|
  {
    if s == [] then []
    else if IsSpace(s[0]) then
      assert IsBlank(s) <==> IsBlank(s[1..]) by {
        if IsBlank(s[1..]) {
          forall i | 0 <= i < |s| ensures IsSpace(s[i]) {
            if i > 0 {
              assert s[i] == s[1..][i - 1];
            }
          }
        }
      }
      Trim(s[1..])
    else if IsSpace(s[|s| - 1]) then
      assert !IsBlank(s[..|s| - 1]) by {
        assert s[..|s| - 1][0] == s[0];
      }
      Trim(s[..|s| - 1])
    else s
  }

  /** `t` occurs in `s` starting at index `i`. */
  predicate StartsAt(s: string, i: int, t: string) {
    0 <= i && i + |t| <= |s| && s[i..i + |t|] == t
  }

  /** `t` occurs in `a + t + b` right after `a`. */
  lemma InfixStartsAt(a: string, t: string, b: string)
    ensures StartsAt(a + t + b, |a|, t)
  {
    assert (a + t + b)[|a|..|a| + |t|] == t;
  }

  /** `s.includes(t)`, as a specification. */
  predicate Contains(s: string, t: string) {
    exists i :: 0 <= i <= |s| && StartsAt(s, i, t)
  }

  /** The first occurrence of `t` in `s` at or after `from`, scanning left to right. */
  function IndexFrom(s: string, t: string, from: nat): (r: Option<nat>)
    decreases |s| - from
    ensures r.Some? ==> from <= r.value && StartsAt(s, r.value, t)
    ensures r.Some? ==> forall j :: from <= j < r.value ==> !StartsAt(s, j, t)
    ensures r.None? ==> forall j :: from <= j ==> !StartsAt(s, j, t)
  {
    if from + |t| > |s| then None
    else if s[from..from + |t|] == t then Some(from)
    else IndexFrom(s, t, from + 1)
  }

  /** The scan `IndexFrom` finds an occurrence exactly when `t` occurs in `s`. */
  lemma IndexFindsContained(s: string, t: string)
    ensures IndexFrom(s, t, 0).Some? <==> Contains(s, t)
  {
    var r := IndexFrom(s, t, 0);
    if r.Some? {
      assert StartsAt(s, r.value, t);
    }
  }

  /**
   The first index at or after `from` whose character does not satisfy `p`,
   or `|s|`: where a greedy `p*` starting at `from` stops.
   */
  function SkipWhile(s: string, from: nat, p: char -> bool): (r: nat)
    requires from <= |s|
    decreases |s| - from
    ensures from <= r <= |s|
    ensures forall k :: from <= k < r ==> p(s[k])
    ensures r == |s| || !p(s[r])
  {
    if from == |s| || !p(s[from]) then from else SkipWhile(s, from + 1, p)
  }

  /** End of the run of `\s` starting at `from`. */
  function SkipSpaces(s: string, from: nat): (r: nat)
    requires from <= |s|
    ensures from <= r <= |s|
    ensures forall k :: from <= k < r ==> IsSpace(s[k])
    ensures r == |s| || !IsSpace(s[r])
  {
    SkipWhile(s, from, IsSpace)
  }

  /** End of the run of `\w` starting at `from`. */
  function SkipWord(s: string, from: nat): (r: nat)
    requires from <= |s|
    ensures from <= r <= |s|
    ensures forall k :: from <= k < r ==> IsWordChar(s[k])
    ensures r == |s| || !IsWordChar(s[r])
  {
    SkipWhile(s, from, IsWordChar)
  }
}
