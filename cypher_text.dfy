/** The three string helpers of the document compiler (database.ts):
    `escape`, which turns a property value into an openCypher literal, and
    the naming heuristics `toLabel` and `toEdge`, which derive a node label
    and a relationship type from the field name that introduced a node. */
module CypherText {
  import opened Js

  predicate NeedsBackslash(c: char)
  {
    c == '\'' || c == '\\'
  }

  /** The body of an escaped string: a backslash before every quote and
      every backslash, all other characters unchanged. */
  function EscapeChars(s: string): (r: string)
    ensures |r| >= |s|
    ensures forall i :: 0 <= i < |r| && r[i] == '\'' ==> 0 < i && r[i - 1] == '\\'
  {
    if s == [] then []
    else (if NeedsBackslash(s[0]) then ['\\', s[0]] else [s[0]]) + EscapeChars(s[1..])
  }

  /** `escape` on a string: the escaped body between single quotes. Every
      quote inside the literal follows a backslash. */
  function Escape(s: string): (r: string)
    ensures |r| >= |s| + 2 && r[0] == '\'' && r[|r| - 1] == '\''
    ensures forall i :: 0 < i < |r| - 1 && r[i] == '\'' ==> r[i - 1] == '\\'
  {
    "'" + EscapeChars(s) + "'"
  }

  /** `escape` on any value: strings are quoted, every other value is
      returned as it is (the template literal then prints it). */
  function EscapeValue(v: Value): (r: Value)
    ensures !v.Str? ==> r == v
    ensures v.Str? ==> r.Str? && ReadLiteral(r.s) == Some((v.s, ""))
  {
    if v.Str? then
      EscapeReadsBack(v.s, "");
      assert Escape(v.s) + "" == Escape(v.s);
      Str(Escape(v.s))
    else v
  }

  /** How an openCypher lexer reads a single-quoted string literal at the
      start of t: the characters it denotes and the text after the closing
      quote, or None when t does not start with a complete literal. */
  function ReadLiteral(t: string): Option<(string, string)>
  {
    if t == [] || t[0] != '\'' then None else ReadBody(t[1..])
  }

  function ReadBody(t: string): Option<(string, string)>
  {
    if t == [] then None
    else if t[0] == '\'' then Some(("", t[1..]))
    else if t[0] == '\\' then
      if |t| < 2 then None
      else match ReadBody(t[2..])
        case None => None
        case Some(r) => Some(([t[1]] + r.0, r.1))
    else match ReadBody(t[1..])
      case None => None
      case Some(r) => Some(([t[0]] + r.0, r.1))
  }

  /** The lexer reads an ordinary character as itself. */
  lemma ReadBodyPlain(c: char, t: string)
    requires c != '\'' && c != '\\'
    ensures ReadBody([c] + t) == match ReadBody(t)
                                 case None => None
                                 case Some(r) => Some(([c] + r.0, r.1))
  {
    assert ([c] + t)[1..] == t;
  }

  /** The lexer reads a backslash and the character after it as that
      character. */
  lemma ReadBodyEscaped(c: char, t: string)
    ensures ReadBody(['\\', c] + t) == match ReadBody(t)
                                       case None => None
                                       case Some(r) => Some(([c] + r.0, r.1))
  {
    assert (['\\', c] + t)[2..] == t;
  }

  lemma {:induction false} EscapeCharsReadsBack(s: string, rest: string)
    ensures ReadBody(EscapeChars(s) + "'" + rest) == Some((s, rest))
  {
    if s == [] {
      assert EscapeChars(s) + "'" + rest == "'" + rest;
    } else {
      EscapeCharsReadsBack(s[1..], rest);
      var tail := EscapeChars(s[1..]) + "'" + rest;
      if NeedsBackslash(s[0]) {
        assert EscapeChars(s) + "'" + rest == ['\\', s[0]] + tail;
        ReadBodyEscaped(s[0], tail);
      } else {
        assert EscapeChars(s) + "'" + rest == [s[0]] + tail;
        ReadBodyPlain(s[0], tail);
      }
      assert [s[0]] + s[1..] == s;
    }
  }

  /** The escaped literal is read back as exactly the original string, and
      the lexer stops at its closing quote whatever text follows it: no
      property value can end the literal early. */
  lemma EscapeReadsBack(s: string, rest: string)
    ensures ReadLiteral(Escape(s) + rest) == Some((s, rest))
  {
    EscapeCharsReadsBack(s, rest);
    assert (Escape(s) + rest)[1..] == EscapeChars(s) + "'" + rest;
  }

  predicate EndsWithS(s: string)
  {
    |s| > 0 && s[|s| - 1] == 's'
  }

  /** `toEdge`: the name without one trailing "s". */
  function ToEdge(s: string): (r: string)
    ensures r + (if EndsWithS(s) then "s" else "") == s
  {
    if EndsWithS(s) then s[..|s| - 1] else s
  }

  /** `toUpperCase` of one character, for the ASCII letters. */
  function Upper(c: char): (u: char)
    ensures 'a' <= c <= 'z' ==> 'A' <= u <= 'Z' && u as int == c as int - 32
    ensures !('a' <= c <= 'z') ==> u == c
  {
    if 'a' <= c <= 'z' then (c as int - 32) as char else c
  }

  function Capitalize(s: string): string
  {
    if s == [] then [] else [Upper(s[0])] + s[1..]
  }

  /** `toLabel`: the first character of the name upper-cased, followed by
      the rest of `toEdge` of the name. That is toEdge with its first
      character capitalised, except for the one-letter name "s": its edge
      type is empty, its label is "S". */
  function ToLabel(s: string): (r: string)
    ensures r == if s == "s" then "S" else Capitalize(ToEdge(s))
  {
    var e := ToEdge(s);
    assert s != "s" && s != [] ==> e != [] && e[0] == s[0];
    (if s == [] then [] else [Upper(s[0])]) + (if e == [] then [] else e[1..])
  }

  /** toEdge drops exactly one trailing "s" and changes nothing else. */
  lemma ToEdgeDropsOneS(s: string)
    ensures ToEdge(s) == s <==> !EndsWithS(s)
    ensures EndsWithS(s) ==> |ToEdge(s)| == |s| - 1 && ToEdge(s) + "s" == s
    ensures EndsWithS(s + "s") && ToEdge(s + "s") == s
  {
    assert (s + "s")[..|s + "s"| - 1] == s;
  }

  /** The label a compiled node gets: from its relation name when there is
      one, ":Post" for a root entry. */
  function NodeLabel(relation: string): string
  {
    if relation != "" then ":" + ToLabel(relation) else ":Post"
  }
}
