/** Character and string helpers shared by the search model: ASCII lower-casing,
    substring containment, case-insensitive occurrence and JavaScript's trim. */
module TextUtil {

  /** ASCII lower-casing; every other character is left as it is. */
  function Lower(c: char): char {
    if 'A' <= c <= 'Z' then (c as int + 32) as char else c
  }

  /** Lower-cases a string character by character. */
  function LowerStr(s: string): (r: string)
    ensures |r| == |s|
    ensures forall i :: 0 <= i < |s| ==> r[i] == Lower(s[i])
  {
    seq(|s|, i requires 0 <= i < |s| => Lower(s[i]))
  }

  /** `needle` stands in `hay` at offset `j`. */
  predicate IsAt(hay: string, needle: string, j: int) {
    0 <= j && j + |needle| <= |hay| && hay[j..j + |needle|] == needle
  }

  /** `hay.includes(needle)`: exact substring containment. */
  predicate Contains(hay: string, needle: string) {
    exists j :: 0 <= j <= |hay| - |needle| && IsAt(hay, needle, j)
  }

  /** A case-insensitive occurrence of `q` starts at offset `j` of `t`. */
  predicate OccursAt(t: string, q: string, j: int) {
    0 <= j && j + |q| <= |t| && LowerStr(t[j..j + |q|]) == LowerStr(q)
  }

  /** `t` holds a case-insensitive occurrence of `q` somewhere. */
  predicate ContainsCI(t: string, q: string) {
    exists j :: 0 <= j <= |t| - |q| && OccursAt(t, q, j)
  }

  lemma LowerSlice(s: string, a: int, b: int)
    requires 0 <= a <= b <= |s|
    ensures LowerStr(s)[a..b] == LowerStr(s[a..b])
  {
  }

  /** Lower-casing a second time changes nothing, so the query the input handler has
      already lower-cased is the same after `performSearch` lower-cases it again. */
  lemma LowerIdempotent(s: string)
    ensures LowerStr(LowerStr(s)) == LowerStr(s)
  {
    var l := LowerStr(s);
    forall i | 0 <= i < |s| ensures LowerStr(l)[i] == l[i] {
      assert l[i] == Lower(s[i]);
    }
  }

  /** `s.length`: JavaScript counts UTF-16 code units, so a character outside the Basic
      Multilingual Plane (from U+10000 on) counts twice. It is never less than the number
      of characters nor more than twice it, and it equals the number of characters exactly
      when every character lies inside the Basic Multilingual Plane. */
  function JsLength(s: string): (n: nat)
    ensures |s| <= n <= 2 * |s|
    ensures n == |s| <==> forall i :: 0 <= i < |s| ==> s[i] as int < 0x10000
  {
    if s == [] then 0
    else (if s[0] as int < 0x10000 then 1 else 2) + JsLength(s[1..])
  }

  /** Lower-casing both sides and testing `includes` (how a section is matched)
      finds exactly the case-insensitive occurrences (what the highlighting regex finds). */
  lemma ContainsCIIffLowerContains(t: string, q: string)
    ensures ContainsCI(t, q) <==> Contains(LowerStr(t), LowerStr(q))
  {
    var lt, lq := LowerStr(t), LowerStr(q);
    if ContainsCI(t, q) {
      var j :| 0 <= j <= |t| - |q| && OccursAt(t, q, j);
      LowerSlice(t, j, j + |q|);
      assert IsAt(lt, lq, j);
    }
    if Contains(lt, lq) {
      var j :| 0 <= j <= |lt| - |lq| && IsAt(lt, lq, j);
      LowerSlice(t, j, j + |q|);
      assert OccursAt(t, q, j);
    }
  }

  /** Occurrences shift with a dropped prefix. */
  lemma OccursAtShift(t: string, q: string, k: nat, j: nat)
    requires k <= |t|
    ensures OccursAt(t[k..], q, j) <==> OccursAt(t, q, k + j)
  {
    if 0 <= j && j + |q| <= |t| - k {
      assert t[k..][j..j + |q|] == t[k + j..k + j + |q|];
    }
  }

  /** An occurrence inside a piece is an occurrence inside any text around it. */
  lemma ContainsCIInContext(pre: string, mid: string, post: string, q: string)
    requires ContainsCI(mid, q)
    ensures ContainsCI(pre + mid + post, q)
  {
    var j :| 0 <= j <= |mid| - |q| && OccursAt(mid, q, j);
    var t := pre + mid + post;
    assert t[|pre| + j..|pre| + j + |q|] == mid[j..j + |q|];
    assert OccursAt(t, q, |pre| + j);
  }

  /** The characters `String.prototype.trim` removes: ECMAScript WhiteSpace
      (tab, vertical tab, form feed, space, no-break space, byte-order mark and the
      Unicode space separators) and LineTerminator (LF, CR, LS, PS). */
  predicate IsJsSpace(c: char) {
    c == '\t' || c == '\U{000B}' || c == '\U{000C}' || c == ' ' || c == '\U{00A0}'
    || c == '\U{FEFF}' || c == '\U{1680}' || ('\U{2000}' <= c <= '\U{200A}')
    || c == '\U{202F}' || c == '\U{205F}' || c == '\U{3000}'
    || c == '\n' || c == '\r' || c == '\U{2028}' || c == '\U{2029}'
  }

  /** Drops the leading spaces: what is removed is all space, what is left starts with
      something else (or is empty). */
  function TrimStart(s: string): (r: string)
    ensures |r| <= |s| && r == s[|s| - |r|..]
    ensures forall i :: 0 <= i < |s| - |r| ==> IsJsSpace(s[i])
    ensures r == [] || !IsJsSpace(r[0])
  {
    if s != [] && IsJsSpace(s[0]) then TrimStart(s[1..]) else s
  }

  /** Drops the trailing spaces in the same way. */
  function TrimEnd(s: string): (r: string)
    ensures |r| <= |s| && r == s[..|r|]
    ensures forall i :: |r| <= i < |s| ==> IsJsSpace(s[i])
    ensures r == [] || !IsJsSpace(r[|r| - 1])
  {
    if s != [] && IsJsSpace(s[|s| - 1]) then TrimEnd(s[..|s| - 1]) else s
  }

  /** `s.trim()`: leading spaces removed by `TrimStart`, then trailing ones by `TrimEnd`;
      what is left is one slice of `s`, and it neither starts nor ends with a space. */
  function Trim(s: string): (r: string)
    ensures exists a, b :: 0 <= a <= b <= |s| && r == s[a..b]
    ensures r == [] || (!IsJsSpace(r[0]) && !IsJsSpace(r[|r| - 1]))
  {
    var t := TrimStart(s);
    var r := TrimEnd(t);
    var a := |s| - |t|;
    assert r == s[a..a + |r|];
    r
  }

  /** When `t` is a suffix of `s` and `r` a prefix of `t`, `r` is a slice of `s`, and a
      property of every character of `t` after `r` holds of every character of `s`
      after that slice. */
  lemma {:induction false} SliceAfter(s: string, t: string, r: string, p: char -> bool)
    requires |t| <= |s| && t == s[|s| - |t|..]
    requires |r| <= |t| && r == t[..|r|]
    requires forall i :: |r| <= i < |t| ==> p(t[i])
    ensures var a := |s| - |t|; r == s[a..a + |r|]
    ensures forall i :: |s| - |t| + |r| <= i < |s| ==> p(s[i])
  {
    var a := |s| - |t|;
    forall i | a + |r| <= i < |s| ensures p(s[i]) { assert s[i] == t[i - a]; }
  }

  /** `Trim` removes only spaces: it returns the slice of `s` from offset `a` (the number
      of leading spaces), and everything before and after that slice is space. */
  lemma {:induction false} TrimRemovesOnlySpaces(s: string)
    ensures var a := |s| - |TrimStart(s)|; var r := Trim(s);
            0 <= a <= a + |r| <= |s| && r == s[a..a + |r|]
            && (forall i :: 0 <= i < a ==> IsJsSpace(s[i]))
            && (forall i :: a + |r| <= i < |s| ==> IsJsSpace(s[i]))
  {
    var t := TrimStart(s);
    var r := TrimEnd(t);
    assert Trim(s) == r;
    SliceAfter(s, t, r, IsJsSpace);
  }
}
