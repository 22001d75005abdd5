/** `escapeRegExp`: the query is turned into a regular-expression source that matches
    the query literally, by putting a backslash before each metacharacter. */
module RegexEscape {

  /** The members of the character class `[.*+?^${}()|[\]\\]`. */
  predicate IsMeta(c: char) {
    c == '.' || c == '*' || c == '+' || c == '?' || c == '^' || c == '$' || c == '{'
    || c == '}' || c == '(' || c == ')' || c == '|' || c == '[' || c == ']' || c == '\\'
  }

  /** The replacement `'\\$&'` applied to one character of the input. */
  function EscapeChar(c: char): string {
    if IsMeta(c) then ['\\', c] else [c]
  }

  /** `string.replace(/[.*+?^${}()|[\]\\]/g, '\\$&')`. */
  function EscapeRegExp(s: string): string {
    if s == [] then [] else EscapeChar(s[0]) + EscapeRegExp(s[1..])
  }

  /** Number of metacharacters in `s`. */
  function CountMeta(s: string): nat {
    if s == [] then 0 else (if IsMeta(s[0]) then 1 else 0) + CountMeta(s[1..])
  }

  /** Strips the backslash in front of every escaped character. */
  function Unescape(p: string): string
    decreases |p|
  {
    if p == [] then []
    else if p[0] == '\\' && |p| >= 2 then [p[1]] + Unescape(p[2..])
    else [p[0]] + Unescape(p[1..])
  }

  /** One unit of a pattern as the regular-expression parser reads it. */
  datatype Atom = Literal(c: char) | Operator(c: char)

  /** Reads a pattern into atoms: a backslash before a metacharacter is that character
      taken literally, a bare metacharacter is an operator, every other character is
      itself. A backslash before anything else (a class escape such as `\d`, a word
      boundary `\b`) is counted as an operator: it is not a literal character. */
  function Lex(p: string): seq<Atom>
    decreases |p|
  {
    if p == [] then []
    else if p[0] == '\\' then
      if |p| >= 2 && IsMeta(p[1]) then [Literal(p[1])] + Lex(p[2..])
      else [Operator('\\')] + Lex(p[1..])
    else if IsMeta(p[0]) then [Operator(p[0])] + Lex(p[1..])
    else [Literal(p[0])] + Lex(p[1..])
  }

  /** The atoms that match `s` character for character. */
  function Literals(s: string): (r: seq<Atom>)
    ensures |r| == |s| && forall i :: 0 <= i < |s| ==> r[i] == Literal(s[i])
  {
    seq(|s|, i requires 0 <= i < |s| => Literal(s[i]))
  }

  /** Escaping acts character by character. */
  lemma {:induction false} EscapeConcat(a: string, b: string)
    ensures EscapeRegExp(a + b) == EscapeRegExp(a) + EscapeRegExp(b)
  {
    if a != [] {
      assert (a + b)[0] == a[0] && (a + b)[1..] == a[1..] + b;
      EscapeConcat(a[1..], b);
      assert EscapeRegExp(a + b) == EscapeChar(a[0]) + (EscapeRegExp(a[1..]) + EscapeRegExp(b));
    } else {
      assert a + b == b;
    }
  }

  /** The output is one character longer per metacharacter of the input. */
  lemma {:induction false} EscapeLength(s: string)
    ensures |EscapeRegExp(s)| == |s| + CountMeta(s)
  {
    if s != [] {
      EscapeLength(s[1..]);
    }
  }

  /** Removing the added backslashes gives the input back. */
  lemma {:induction false} UnescapeEscape(s: string)
    ensures Unescape(EscapeRegExp(s)) == s
  {
    if s != [] {
      var rest := EscapeRegExp(s[1..]);
      UnescapeEscape(s[1..]);
      if IsMeta(s[0]) {
        assert (['\\', s[0]] + rest)[2..] == rest;
      } else {
        assert s[0] != '\\';
        assert ([s[0]] + rest)[1..] == rest;
      }
    }
  }

  /** The escaped query is read as literal characters only: no character of user input
      can act as a regular-expression operator. */
  lemma {:induction false} EscapeIsLiteral(s: string)
    ensures Lex(EscapeRegExp(s)) == Literals(s)
  {
    if s != [] {
      var rest := EscapeRegExp(s[1..]);
      EscapeIsLiteral(s[1..]);
      if IsMeta(s[0]) {
        assert (['\\', s[0]] + rest)[2..] == rest;
      } else {
        assert s[0] != '\\';
        assert ([s[0]] + rest)[1..] == rest;
      }
      assert Literals(s) == [Literal(s[0])] + Literals(s[1..]);
    }
  }

  /** The pattern `(${escapeRegExp(query)})` is one capturing group around the query
      taken literally. */
  lemma GroupPattern(s: string)
    ensures Lex("(" + EscapeRegExp(s) + ")")
            == [Operator('(')] + Literals(s) + [Operator(')')]
  {
    var e := EscapeRegExp(s);
    EscapeIsLiteral(s);
    LexConcat(s, ")");
    assert ("(" + e + ")")[1..] == e + ")";
    assert Lex(")") == [Operator(')')];
  }

  /** Lexing an escaped pattern followed by more pattern text splits at the joint. */
  lemma {:induction false} LexConcat(s: string, p: string)
    ensures Lex(EscapeRegExp(s) + p) == Lex(EscapeRegExp(s)) + Lex(p)
  {
    if s != [] {
      var e, rest := EscapeRegExp(s), EscapeRegExp(s[1..]);
      LexConcat(s[1..], p);
      if IsMeta(s[0]) {
        assert e + p == ['\\', s[0]] + (rest + p);
        assert (['\\', s[0]] + (rest + p))[2..] == rest + p;
        assert (['\\', s[0]] + rest)[2..] == rest;
      } else {
        assert s[0] != '\\';
        assert e + p == [s[0]] + (rest + p);
        assert ([s[0]] + (rest + p))[1..] == rest + p;
        assert ([s[0]] + rest)[1..] == rest;
      }
    } else {
      assert EscapeRegExp(s) + p == p;
    }
  }
}
