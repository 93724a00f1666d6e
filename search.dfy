/** The search mini-language of resolvers.ts: `SearchParams` scans the
    keyword string with a global regular expression for repeated groups
    `text key:value`, turns every match into one predicate of a WHERE
    clause, and `toString` renders that clause.

    The regular expression

        (?<text>.*?)(?<set>(?<key>\S*):(("(?<stringVal>.*?)")|(?<intVal>.*?)($|\s)))

    has no `m` or `s` flag: `.` stops at a line terminator and `$` is the
    end of the input. `ExecAt` is what one `exec` call finds from a given
    `lastIndex`, written out as a scan over the string; the lemmas after it
    state what the match is and that it is the first one. */
module Search {
  import opened Js
  import CypherText

  // ---------------------------------------------------------------------
  // Character classes

  /** The line terminators, which `.` does not match. */
  predicate IsLineTerminator(c: char)
  {
    c == '\n' || c == '\r' || c == '\U{2028}' || c == '\U{2029}'
  }

  /** `\s`: white space and line terminators. */
  predicate IsSpace(c: char)
  {
    || IsLineTerminator(c)
    || c == '\t' || c == '\U{000B}' || c == '\U{000C}' || c == ' ' || c == '\U{00A0}'
    || c == '\U{1680}' || ('\U{2000}' <= c <= '\U{200A}') || c == '\U{202F}' || c == '\U{205F}'
    || c == '\U{3000}' || c == '\U{FEFF}'
  }

  /** The end of the run of non-space characters starting at i. */
  function RunEnd(s: string, i: nat): (e: nat)
    requires i <= |s|
    ensures i <= e <= |s|
    ensures forall j :: i <= j < e ==> !IsSpace(s[j])
    ensures e < |s| ==> IsSpace(s[e])
    decreases |s| - i
  {
    if i == |s| || IsSpace(s[i]) then i else RunEnd(s, i + 1)
  }

  /** The last ':' in s[lo..hi]. */
  function LastColon(s: string, lo: nat, hi: nat): (r: Option<nat>)
    requires lo <= hi <= |s|
    ensures r.Some? ==> lo <= r.value < hi && s[r.value] == ':'
                        && forall j :: r.value < j < hi ==> s[j] != ':'
    ensures r.None? ==> forall j :: lo <= j < hi ==> s[j] != ':'
    decreases hi
  {
    if hi == lo then None
    else if s[hi - 1] == ':' then Some(hi - 1)
    else LastColon(s, lo, hi - 1)
  }

  /** A key can start at t: the run of non-space characters from t holds a
      ':' (`\S*:` matches there). */
  predicate KeyRunAt(s: string, t: nat)
  {
    t < |s| && LastColon(s, t, RunEnd(s, t)).Some?
  }

  /** The first position at or after q where a key can start, found run by
      run: a run without ':' is skipped whole. */
  function FirstKeyStart(s: string, q: nat): (r: Option<nat>)
    requires q <= |s|
    decreases |s| - q
  {
    if q == |s| then None
    else if IsSpace(s[q]) then FirstKeyStart(s, q + 1)
    else
      var e := RunEnd(s, q);
      if LastColon(s, q, e).Some? then Some(q) else FirstKeyStart(s, e)
  }

  /** Where a match whose key starts at t begins when the search starts at
      q: `text` cannot cross a line terminator, so after the last one
      before t. */
  function MatchStart(s: string, q: nat, t: nat): (p: nat)
    requires q <= t <= |s|
    ensures q <= p <= t
    ensures forall j :: p <= j < t ==> !IsLineTerminator(s[j])
    ensures p > q ==> IsLineTerminator(s[p - 1])
    decreases t
  {
    if t == q || IsLineTerminator(s[t - 1]) then t else MatchStart(s, q, t - 1)
  }

  /** The closing '"' of a quoted value whose body starts at i. */
  function ClosingQuote(s: string, i: nat): (r: Option<nat>)
    requires i <= |s|
    ensures r.Some? ==> i <= r.value < |s| && s[r.value] == '"'
    ensures r.Some? ==> forall j :: i <= j < r.value ==> s[j] != '"' && !IsLineTerminator(s[j])
    decreases |s| - i
  {
    if i == |s| || IsLineTerminator(s[i]) then None
    else if s[i] == '"' then Some(i)
    else ClosingQuote(s, i + 1)
  }

  // ---------------------------------------------------------------------
  // One exec call

  /** The value group that matched: `stringVal` or `intVal`. */
  datatype Capture = Quoted(stringVal: string) | Unquoted(intVal: string)

  datatype Match = Match(start: nat, text: string, key: string, val: Capture, end: nat)

  /** `pattern.exec(s)` with `pattern.lastIndex == from`: the leftmost
      match, or None once none is left (and always when from > |s|). */
  function ExecAt(s: string, from: nat): (r: Option<Match>)
    ensures r.Some? ==> from <= r.value.start < r.value.end <= |s|
  {
    if from > |s| then None
    else match FirstKeyStart(s, from)
      case None => None
      case Some(t) =>
        FirstKeyStartFacts(s, from);
        Some(MatchAt(s, MatchStart(s, from, t), t))
  }

  /** The match whose text starts at p and whose key starts at t: the key
      runs to the last ':' of the run at t; the value is quoted when a '"'
      follows the ':' and closes before a line terminator, and is
      otherwise the rest of the run, the white space after it consumed. */
  function MatchAt(s: string, p: nat, t: nat): (m: Match)
    requires p <= t && KeyRunAt(s, t)
    ensures m.start == p && m.text == s[p..t] && t < m.end <= |s|
  {
    var e := RunEnd(s, t);
    var k := LastColon(s, t, e).value;
    var v := k + 1;
    if v < |s| && s[v] == '"' && ClosingQuote(s, v + 1).Some? then
      var c := ClosingQuote(s, v + 1).value;
      Match(p, s[p..t], s[t..k], Quoted(s[v + 1..c]), c + 1)
    else
      Match(p, s[p..t], s[t..k], Unquoted(s[v..e]), if e < |s| then e + 1 else e)
  }

  /** FirstKeyStart finds exactly the first position where a key can start. */
  lemma {:induction false} FirstKeyStartFacts(s: string, q: nat)
    requires q <= |s|
    ensures var r := FirstKeyStart(s, q);
            && (r.Some? ==> q <= r.value < |s| && KeyRunAt(s, r.value)
                            && forall j :: q <= j < r.value ==> !KeyRunAt(s, j))
            && (r.None? ==> forall j :: q <= j < |s| ==> !KeyRunAt(s, j))
    decreases |s| - q
  {
    if q < |s| {
      if IsSpace(s[q]) {
        FirstKeyStartFacts(s, q + 1);
        assert RunEnd(s, q) == q;
      } else {
        var e := RunEnd(s, q);
        if LastColon(s, q, e).None? {
          forall j | q <= j < e
            ensures !KeyRunAt(s, j)
          {
            RunEndInside(s, q, j);
          }
          FirstKeyStartFacts(s, e);
        }
      }
    }
  }

  /** A run seen from a later position inside it ends at the same place. */
  lemma {:induction false} RunEndInside(s: string, q: nat, j: nat)
    requires q <= |s| && q <= j < RunEnd(s, q)
    ensures RunEnd(s, j) == RunEnd(s, q)
    decreases j - q
  {
    if j > q {
      assert RunEnd(s, q) == RunEnd(s, q + 1);
      RunEndInside(s, q + 1, j);
    }
  }

  /** Before the first position where a key can start there is no ':'. */
  lemma NoColonBeforeKey(s: string, from: nat, t: nat)
    requires from <= t <= |s|
    requires forall j :: from <= j < t ==> !KeyRunAt(s, j)
    ensures forall j :: from <= j < t ==> s[j] != ':'
  {
    forall j | from <= j < t
      ensures s[j] != ':'
    {
      assert !KeyRunAt(s, j);
      var e := RunEnd(s, j);
      if e == j {
        assert IsSpace(s[j]);
      } else {
        assert LastColon(s, j, e).None?;
      }
    }
  }

  /** The key and the ':' after it: the key holds no white space. */
  lemma MatchAtKey(s: string, p: nat, t: nat)
    requires p <= t && KeyRunAt(s, t)
    ensures var m := MatchAt(s, p, t);
            && (forall c :: c in m.key ==> !IsSpace(c))
            && t + |m.key| + 1 <= m.end
            && s[t..t + |m.key| + 1] == m.key + ":"
  {
    var m := MatchAt(s, p, t);
    var e := RunEnd(s, t);
    var k := LastColon(s, t, e).value;
    assert m.key == s[t..k];
    forall c | c in m.key
      ensures !IsSpace(c)
    {
      var j :| 0 <= j < |m.key| && m.key[j] == c;
      assert s[t + j] == c;
    }
    assert s[t..k + 1] == s[t..k] + [s[k]];
  }

  /** The value and what ends it: a quoted value within its quotes, with no
      '"' and no line terminator inside; an unquoted value with no white
      space and no ':', followed by the white space that ended it unless
      it ended at the end of input. */
  lemma MatchAtValue(s: string, p: nat, t: nat)
    requires p <= t && KeyRunAt(s, t)
    ensures var m := MatchAt(s, p, t);
            var v := t + |m.key| + 1;
            && v <= m.end
            && (m.val.Quoted? ==>
                  var sv := m.val.stringVal;
                  s[v..m.end] == "\"" + sv + "\""
                  && forall j :: 0 <= j < |sv| ==> sv[j] != '"' && !IsLineTerminator(sv[j]))
            && (m.val.Unquoted? ==>
                  var iv := m.val.intVal;
                  (forall j :: 0 <= j < |iv| ==> !IsSpace(iv[j]) && iv[j] != ':')
                  && (s[v..m.end] == iv
                      || (s[v..m.end] == iv + [s[m.end - 1]] && IsSpace(s[m.end - 1]))))
  {
    if MatchAt(s, p, t).val.Quoted? {
      QuotedValue(s, p, t);
    } else {
      UnquotedValue(s, p, t);
    }
  }

  lemma QuotedValue(s: string, p: nat, t: nat)
    requires p <= t && KeyRunAt(s, t) && MatchAt(s, p, t).val.Quoted?
    ensures var m := MatchAt(s, p, t);
            var v := t + |m.key| + 1;
            var sv := m.val.stringVal;
            && v <= m.end
            && s[v..m.end] == "\"" + sv + "\""
            && forall j :: 0 <= j < |sv| ==> sv[j] != '"' && !IsLineTerminator(sv[j])
  {
    var m := MatchAt(s, p, t);
    var e := RunEnd(s, t);
    var k := LastColon(s, t, e).value;
    var v := k + 1;
    assert |m.key| == k - t;
    var c := ClosingQuote(s, v + 1).value;
    assert m.val.stringVal == s[v + 1..c] && m.end == c + 1;
    QuotedSlice(s, v, c);
  }

  /** The characters from an opening quote at v to the closing quote at c. */
  lemma QuotedSlice(s: string, v: nat, c: nat)
    requires v < c < |s| && s[v] == '"' && s[c] == '"'
    ensures s[v..c + 1] == "\"" + s[v + 1..c] + "\""
  {
    var mid := s[v + 1..c];
    assert s[v..c + 1] == [s[v]] + mid + [s[c]];
  }

  lemma UnquotedValue(s: string, p: nat, t: nat)
    requires p <= t && KeyRunAt(s, t) && MatchAt(s, p, t).val.Unquoted?
    ensures var m := MatchAt(s, p, t);
            var v := t + |m.key| + 1;
            var iv := m.val.intVal;
            && v <= m.end
            && (forall j :: 0 <= j < |iv| ==> !IsSpace(iv[j]) && iv[j] != ':')
            && (s[v..m.end] == iv
                || (s[v..m.end] == iv + [s[m.end - 1]] && IsSpace(s[m.end - 1])))
  {
    var m := MatchAt(s, p, t);
    var e := RunEnd(s, t);
    var k := LastColon(s, t, e).value;
    var v := k + 1;
    assert |m.key| == k - t;
    assert m.val.intVal == s[v..e];
    if e < |s| {
      assert s[v..e + 1] == s[v..e] + [s[e]];
    }
  }

  /** What a match found by exec is: its text crosses no line terminator
      and holds no ':', and the matched characters are the text, the key,
      ':' and the value (see MatchAtKey and MatchAtValue). */
  lemma ExecText(s: string, from: nat)
    requires ExecAt(s, from).Some?
    ensures var m := ExecAt(s, from).value;
            && (forall c :: c in m.text ==> !IsLineTerminator(c) && c != ':')
            && KeyRunAt(s, m.start + |m.text|)
            && m == MatchAt(s, m.start, m.start + |m.text|)
  {
    var m := ExecAt(s, from).value;
    FirstKeyStartFacts(s, from);
    var t := FirstKeyStart(s, from).value;
    var p := MatchStart(s, from, t);
    NoColonBeforeKey(s, from, t);
    assert m == MatchAt(s, p, t);
    PlainSlice(s, p, t);
  }

  /** A slice of characters none of which is a line terminator or ':'
      holds none of them. */
  lemma PlainSlice(s: string, p: nat, t: nat)
    requires p <= t <= |s|
    requires forall j :: p <= j < t ==> !IsLineTerminator(s[j]) && s[j] != ':'
    ensures forall c :: c in s[p..t] ==> !IsLineTerminator(c) && c != ':'
  {
    forall c | c in s[p..t]
      ensures !IsLineTerminator(c) && c != ':'
    {
      var j :| 0 <= j < t - p && s[p..t][j] == c;
      assert s[p + j] == c;
    }
  }

  /** No match starts its key before the one ExecAt finds, and there is no
      match at all exactly when no key can start at or after from. */
  lemma ExecFirst(s: string, from: nat)
    requires from <= |s|
    ensures ExecAt(s, from).None? <==> forall j :: from <= j < |s| ==> !KeyRunAt(s, j)
    ensures ExecAt(s, from).Some? ==>
            var m := ExecAt(s, from).value;
            KeyRunAt(s, m.start + |m.text|) && forall j :: from <= j < m.start + |m.text| ==> !KeyRunAt(s, j)
  {
    FirstKeyStartFacts(s, from);
  }

  // ---------------------------------------------------------------------
  // parseInt

  datatype Num = Int(i: int) | NaN

  function HexDigitValue(c: char): (d: nat)
    ensures d <= 16
  {
    if '0' <= c <= '9' then c as int - '0' as int
    else if 'a' <= c <= 'f' then c as int - 'a' as int + 10
    else if 'A' <= c <= 'F' then c as int - 'A' as int + 10
    else 16
  }

  /** The digits in radix `radix` at the start of s. */
  function DigitPrefix(s: string, radix: nat): (n: nat)
    requires radix == 10 || radix == 16
    ensures n <= |s|
    ensures forall j :: 0 <= j < n ==> HexDigitValue(s[j]) < radix
    ensures n < |s| ==> HexDigitValue(s[n]) >= radix
  {
    if s == [] || HexDigitValue(s[0]) >= radix then 0 else 1 + DigitPrefix(s[1..], radix)
  }

  /** The value of a string of digits in radix `radix`, last digit last. */
  function RadixValue(s: string, radix: nat): nat
    requires radix == 10 || radix == 16
    requires forall j :: 0 <= j < |s| ==> HexDigitValue(s[j]) < radix
  {
    if s == [] then 0 else radix * RadixValue(s[..|s| - 1], radix) + HexDigitValue(s[|s| - 1])
  }

  /** `parseInt(s)` with no radix on a string without white space: an
      optional sign, "0x"/"0X" for hexadecimal, then the longest run of
      digits; NaN when there is none. */
  function ParseInt(s: string): (r: Num)
    ensures |s| == 0 || !(IsDigit(s[0]) || s[0] == '-' || s[0] == '+') ==> r.NaN?
    ensures |s| > 0 && IsDigit(s[0]) && !(|s| >= 2 && s[0] == '0' && (s[1] == 'x' || s[1] == 'X')) ==> r.Int? && r.i >= 0
    ensures r.Int? && r.i < 0 ==> s[0] == '-'
  {
    var negative := |s| > 0 && s[0] == '-';
    var body := if |s| > 0 && (s[0] == '-' || s[0] == '+') then s[1..] else s;
    var hex := |body| >= 2 && body[0] == '0' && (body[1] == 'x' || body[1] == 'X');
    var radix := if hex then 16 else 10;
    var digits := if hex then body[2..] else body;
    var n := DigitPrefix(digits, radix);
    if n == 0 then NaN
    else
      var magnitude: int := RadixValue(digits[..n], radix);
      Int(if negative then -magnitude else magnitude)
  }

  lemma DecimalDigits(s: string)
    requires forall j :: 0 <= j < |s| ==> IsDigit(s[j])
    ensures DigitPrefix(s, 10) == |s|
    ensures RadixValue(s, 10) == DigitsValue(s)
  {
    if s != [] {
      DecimalDigits(s[..|s| - 1]);
      DecimalDigits(s[1..]);
    }
  }

  /** parseInt reads back the decimal form of every integer. */
  lemma ParseIntOfDecimal(n: int)
    ensures ParseInt(IntToString(n)) == Int(n)
  {
    var m: nat := if n < 0 then -n else n;
    NatToStringValue(m);
    ParseIntOfDigits(IntToString(n), n < 0, NatToString(m));
  }

  /** A run of decimal digits, after a minus sign or not, parses to its
      value, negated after the sign. */
  lemma ParseIntOfDigits(s: string, negative: bool, digits: string)
    requires |digits| > 0 && forall j :: 0 <= j < |digits| ==> IsDigit(digits[j])
    requires s == if negative then "-" + digits else digits
    ensures ParseInt(s) == Int(if negative then -(DigitsValue(digits) as int) else DigitsValue(digits))
  {
    assert IsDigit(digits[0]);
    var body := if |s| > 0 && (s[0] == '-' || s[0] == '+') then s[1..] else s;
    assert body == digits && (|s| > 0 && s[0] == '-') == negative by {
      if negative {
        assert s[0] == '-' && s[1..] == digits;
      }
    }
    assert !(|body| >= 2 && body[0] == '0' && (body[1] == 'x' || body[1] == 'X')) by {
      if |body| >= 2 {
        assert IsDigit(digits[1]);
      }
    }
    DecimalDigits(digits);
    DecimalBody(s, digits);
  }

  /** parseInt of a sign-less run of decimal digits that it reads to the end. */
  lemma DecimalBody(s: string, body: string)
    requires body == if |s| > 0 && (s[0] == '-' || s[0] == '+') then s[1..] else s
    requires !(|body| >= 2 && body[0] == '0' && (body[1] == 'x' || body[1] == 'X'))
    requires 0 < DigitPrefix(body, 10) == |body|
    ensures ParseInt(s) == Int(if |s| > 0 && s[0] == '-' then -(RadixValue(body, 10) as int) else RadixValue(body, 10))
  {
    assert body[..|body|] == body;
  }

  // ---------------------------------------------------------------------
  // Predicates

  /** The value of a predicate: a number (possibly NaN) or the quoted
      string text. */
  datatype Operand = Numeric(num: Num) | Literal(text: string)

  /** `{key, comparitor, value}`. */
  datatype Pred = Pred(key: string, comparator: string, value: Operand)

  function RemoveBackticks(s: string): (r: string)
    ensures forall c :: c in r <==> c in s && c != '`'
  {
    if s == [] then [] else (if s[0] == '`' then [] else [s[0]]) + RemoveBackticks(s[1..])
  }

  /** `stringVal.replace(/'/g, "\\'")`: a backslash before every quote;
      backslashes already in the value are left as they are. */
  function EscapeQuotes(s: string): (r: string)
    ensures |r| >= |s|
  {
    if s == [] then [] else (if s[0] == '\'' then ['\\', '\''] else [s[0]]) + EscapeQuotes(s[1..])
  }

  /** The predicate one match becomes, or None where building it throws:
      an empty unquoted value is falsy, so the code falls back on
      `stringVal`, which is undefined, and calls `replace` on it. */
  function PredOf(m: Match): (r: Option<Pred>)
    ensures r.None? <==> m.val == Unquoted("")
    ensures r.Some? && m.key == "_id" ==> r.value.key == "id(n)" && r.value.comparator == "="
    ensures r.Some? && m.key != "_id" ==>
              r.value.comparator == "CONTAINS" && r.value.key == "n.`" + RemoveBackticks(m.key) + "`"
    ensures r.Some? && m.val.Unquoted? ==> r.value.value == Numeric(ParseInt(m.val.intVal))
    ensures r.Some? && m.val.Quoted? ==> r.value.value == Literal("'" + EscapeQuotes(m.val.stringVal) + "'")
  {
    var isId := m.key == "_id";
    var key := if isId then "id(n)" else "n.`" + RemoveBackticks(m.key) + "`";
    var comparator := if isId then "=" else "CONTAINS";
    match m.val
    case Unquoted(iv) => if iv != "" then Some(Pred(key, comparator, Numeric(ParseInt(iv)))) else None
    case Quoted(sv) => Some(Pred(key, comparator, Literal("'" + EscapeQuotes(sv) + "'")))
  }

  // ---------------------------------------------------------------------
  // The constructor's loop

  /** Where the constructor's loop ends: the fields and free text built so
      far, whether it finished or threw, and the pattern's lastIndex. */
  datatype ScanOut = ScanOut(fields: seq<Pred>, freetext: string, ok: bool, lastIndex: nat)

  /** The loop `while (res = pattern.exec(search))` from `lastIndex == from`.
      A match that throws leaves lastIndex at its end; a failed exec resets
      it to 0. */
  function ScanFrom(s: string, from: nat, fields: seq<Pred>, freetext: string): (r: ScanOut)
    ensures fields <= r.fields
    ensures r.ok ==> r.lastIndex == 0
    ensures !r.ok ==> from < r.lastIndex <= |s|
    decreases |s| - from
  {
    match ExecAt(s, from)
    case None => ScanOut(fields, freetext, true, 0)
    case Some(m) =>
      match PredOf(m)
      case None => ScanOut(fields, freetext + m.text, false, m.end)
      case Some(p) => ScanFrom(s, m.end, fields + [p], freetext + m.text)
  }

  /** The successive matches of the loop from lastIndex `from`. */
  function Matches(s: string, from: nat): seq<Match>
    decreases |s| - from
  {
    match ExecAt(s, from)
    case None => []
    case Some(m) => [m] + Matches(s, m.end)
  }

  /** The predicates of a list of matches, in order; None as soon as one
      of them throws. */
  function PredsOf(ms: seq<Match>): (r: Option<seq<Pred>>)
    ensures r.Some? <==> forall i :: 0 <= i < |ms| ==> PredOf(ms[i]).Some?
    ensures r.Some? ==> |r.value| == |ms| && forall i :: 0 <= i < |ms| ==> r.value[i] == PredOf(ms[i]).value
  {
    if ms == [] then Some([])
    else match (PredOf(ms[0]), PredsOf(ms[1..]))
      case (Some(p), Some(ps)) => Some([p] + ps)
      case _ => None
  }

  /** One turn of the loop: a match that gives a predicate continues the
      scan from its end. */
  lemma ScanStep(s: string, from: nat, fields: seq<Pred>, freetext: string)
    requires ExecAt(s, from).Some? && PredOf(ExecAt(s, from).value).Some?
    ensures var m := ExecAt(s, from).value;
            ScanFrom(s, from, fields, freetext) == ScanFrom(s, m.end, fields + [PredOf(m).value], freetext + m.text)
  {
  }

  /** The matches after one match: that match, then those from its end. */
  lemma MatchesHead(s: string, from: nat)
    requires ExecAt(s, from).Some?
    ensures Matches(s, from) == [ExecAt(s, from).value] + Matches(s, ExecAt(s, from).value.end)
  {
  }

  /** The matches and their predicates after one match. */
  lemma MatchesStep(s: string, from: nat)
    requires ExecAt(s, from).Some? && PredOf(ExecAt(s, from).value).Some?
    ensures var m := ExecAt(s, from).value;
            && Matches(s, from) == [m] + Matches(s, m.end)
            && PredsOf(Matches(s, from)) == match PredsOf(Matches(s, m.end))
                                              case None => None
                                              case Some(ps) => Some([PredOf(m).value] + ps)
  {
    var m := ExecAt(s, from).value;
    assert ([m] + Matches(s, m.end))[1..] == Matches(s, m.end);
  }

  lemma Associative<T>(a: seq<T>, b: seq<T>, c: seq<T>)
    ensures (a + b) + c == a + (b + c)
  {
  }

  /** Each match adds exactly one predicate, in scan order; the scan
      finishes, with lastIndex back at 0, exactly when no match throws. */
  lemma {:induction false} ScanIsPredsOfMatches(s: string, from: nat, fields: seq<Pred>, freetext: string)
    ensures var r := ScanFrom(s, from, fields, freetext);
            var ps := PredsOf(Matches(s, from));
            && (r.ok <==> ps.Some?)
            && (r.ok ==> r.fields == fields + ps.value && r.lastIndex == 0)
    decreases |s| - from
  {
    var next := ExecAt(s, from);
    if next.Some? {
      var m := next.value;
      if PredOf(m).Some? {
        var p := PredOf(m).value;
        ScanStep(s, from, fields, freetext);
        MatchesStep(s, from);
        ScanIsPredsOfMatches(s, m.end, fields + [p], freetext + m.text);
        var rest := PredsOf(Matches(s, m.end));
        if rest.Some? {
          Associative(fields, [p], rest.value);
        }
      } else {
        assert Matches(s, from)[0] == m;
      }
    }
  }

  /** The texts before the keys of a list of matches, concatenated. */
  function Texts(ms: seq<Match>): string
  {
    if ms == [] then "" else ms[0].text + Texts(ms[1..])
  }

  lemma TextsCons(m: Match, rest: seq<Match>)
    ensures Texts([m] + rest) == m.text + Texts(rest)
  {
    assert ([m] + rest)[1..] == rest;
  }

  /** The free text of a scan that finishes is the text before each key,
      in order: whatever follows the last match is dropped. */
  lemma {:induction false} FreetextIsMatchTexts(s: string, from: nat, fields: seq<Pred>, freetext: string)
    ensures var r := ScanFrom(s, from, fields, freetext);
            r.ok ==> r.freetext == freetext + Texts(Matches(s, from))
    decreases |s| - from
  {
    var next := ExecAt(s, from);
    if next.None? {
      assert Matches(s, from) == [];
      assert freetext + "" == freetext;
    } else {
      var m := next.value;
      if PredOf(m).Some? {
        ScanStep(s, from, fields, freetext);
        MatchesHead(s, from);
        FreetextIsMatchTexts(s, m.end, fields + [PredOf(m).value], freetext + m.text);
        var rest := Matches(s, m.end);
        TextsCons(m, rest);
        Associative(freetext, m.text, Texts(rest));
      }
    }
  }

  /** The free text collects only the text before each key: it never holds
      a ':'. */
  lemma {:induction false} FreetextHasNoColon(s: string, from: nat, fields: seq<Pred>, freetext: string)
    requires ':' !in freetext
    ensures ':' !in ScanFrom(s, from, fields, freetext).freetext
    decreases |s| - from
  {
    var next := ExecAt(s, from);
    if next.Some? {
      var m := next.value;
      ExecText(s, from);
      assert ':' !in freetext + m.text;
      if PredOf(m).Some? {
        ScanStep(s, from, fields, freetext);
        FreetextHasNoColon(s, m.end, fields + [PredOf(m).value], freetext + m.text);
      }
    }
  }

  function ColonCount(s: string): nat
  {
    if s == [] then 0 else (if s[0] == ':' then 1 else 0) + ColonCount(s[1..])
  }

  lemma {:induction false} ColonCountSplit(a: string, b: string)
    ensures ColonCount(a + b) == ColonCount(a) + ColonCount(b)
  {
    if a == [] {
      assert a + b == b;
    } else {
      assert (a + b)[1..] == a[1..] + b;
      ColonCountSplit(a[1..], b);
    }
  }

  lemma ColonCountAt(s: string, lo: nat, k: nat, hi: nat)
    requires lo <= k < hi <= |s| && s[k] == ':'
    ensures ColonCount(s[lo..]) >= 1 + ColonCount(s[hi..])
  {
    assert s[lo..] == s[lo..k] + ([s[k]] + (s[k + 1..hi] + s[hi..]));
    ColonCountSplit(s[lo..k], [s[k]] + (s[k + 1..hi] + s[hi..]));
    ColonCountSplit([s[k]], s[k + 1..hi] + s[hi..]);
    ColonCountSplit(s[k + 1..hi], s[hi..]);
  }

  /** There are never more predicates than ':' characters. */
  lemma {:induction false} FieldsAtMostColons(s: string, from: nat, fields: seq<Pred>, freetext: string)
    requires from <= |s|
    ensures |ScanFrom(s, from, fields, freetext).fields| <= |fields| + ColonCount(s[from..])
    decreases |s| - from
  {
    var next := ExecAt(s, from);
    if next.Some? {
      var m := next.value;
      MatchUsesColon(s, from);
      if PredOf(m).Some? {
        ScanStep(s, from, fields, freetext);
        FieldsAtMostColons(s, m.end, fields + [PredOf(m).value], freetext + m.text);
      }
    }
  }

  /** Every match consumes one ':' at least. */
  lemma MatchUsesColon(s: string, from: nat)
    requires ExecAt(s, from).Some?
    ensures var m := ExecAt(s, from).value;
            from < m.end <= |s| && ColonCount(s[from..]) >= 1 + ColonCount(s[m.end..])
  {
    var m := ExecAt(s, from).value;
    FirstKeyStartFacts(s, from);
    var t := FirstKeyStart(s, from).value;
    var p := MatchStart(s, from, t);
    assert m == MatchAt(s, p, t);
    var k := KeyColon(s, p, t);
    ColonCountAt(s, from, k, m.end);
  }

  /** The ':' that ends the key of a match. */
  lemma KeyColon(s: string, p: nat, t: nat) returns (k: nat)
    requires p <= t && KeyRunAt(s, t)
    ensures t <= k < MatchAt(s, p, t).end && s[k] == ':'
  {
    var e := RunEnd(s, t);
    k := LastColon(s, t, e).value;
  }

  /** A ':' after lastIndex always yields a predicate or an error: the scan
      cannot finish with nothing added. */
  lemma ColonGivesPredicate(s: string, from: nat, fields: seq<Pred>, freetext: string)
    requires from <= |s| && ':' in s[from..]
    ensures var r := ScanFrom(s, from, fields, freetext);
            !r.ok || |r.fields| > |fields|
  {
    var j :| from <= j < |s| && s[j] == ':';
    assert RunEnd(s, j) > j;
    assert LastColon(s, j, RunEnd(s, j)).Some?;
    assert KeyRunAt(s, j);
    ExecFirst(s, from);
    match ExecAt(s, from)
    case None =>
    case Some(m) =>
      match PredOf(m)
      case None =>
      case Some(p) =>
  }

  // ---------------------------------------------------------------------
  // toString

  /** `${value}`: a number in decimal, NaN as "NaN", a string as it is. */
  function OperandText(v: Operand): string
  {
    match v
    case Numeric(Int(i)) => IntToString(i)
    case Numeric(NaN) => "NaN"
    case Literal(t) => t
  }

  function PredText(p: Pred): string
  {
    p.key + " " + p.comparator + " " + OperandText(p.value)
  }

  function JoinPreds(fs: seq<Pred>): (r: string)
    ensures fs != [] ==> PredText(fs[0]) <= r
    ensures |fs| == 1 ==> r == PredText(fs[0])
  {
    if fs == [] then "" else if |fs| == 1 then PredText(fs[0]) else PredText(fs[0]) + " AND " + JoinPreds(fs[1..])
  }

  /** `SearchParams.toString`: nothing without predicates, otherwise
      "WHERE " and the predicates joined with " AND ". */
  function WhereClause(fs: seq<Pred>): (r: string)
    ensures r == "" <==> fs == []
    ensures fs != [] ==> |r| > 6 && r[..6] == "WHERE " && PredText(fs[0]) <= r[6..]
  {
    if |fs| > 0 then "WHERE " + JoinPreds(fs) else ""
  }

  lemma {:induction false} JoinPredsSnoc(fs: seq<Pred>, p: Pred)
    requires fs != []
    ensures JoinPreds(fs + [p]) == JoinPreds(fs) + " AND " + PredText(p)
  {
    assert (fs + [p])[0] == fs[0];
    if |fs| > 1 {
      assert (fs + [p])[1..] == fs[1..] + [p];
      JoinPredsSnoc(fs[1..], p);
    } else {
      assert (fs + [p])[1..] == [p];
    }
  }

  /** The clause grows by one " AND " item per predicate pushed, and is
      empty exactly when there is none; the free text never reaches it. */
  lemma WhereClauseSnoc(fs: seq<Pred>, p: Pred)
    ensures WhereClause([]) == ""
    ensures WhereClause(fs + [p]) == WhereClause(fs) + (if fs == [] then "WHERE " else " AND ") + PredText(p)
  {
    if fs != [] {
      JoinPredsSnoc(fs, p);
    } else {
      assert fs + [p] == [p];
    }
  }

  /** Escaping a non-empty value escapes its first character, then the rest. */
  lemma EscapeQuotesStep(s: string, rest: string)
    requires s != []
    ensures EscapeQuotes(s) + "'" + rest
            == (if s[0] == '\'' then ['\\', '\''] else [s[0]]) + (EscapeQuotes(s[1..]) + "'" + rest)
  {
  }

  /** With no backslash in the quoted value, the predicate's text is an
      openCypher literal that reads back as the value. */
  lemma {:induction false} EscapeQuotesReadsBack(s: string, rest: string)
    requires '\\' !in s
    ensures CypherText.ReadBody(EscapeQuotes(s) + "'" + rest) == Some((s, rest))
  {
    if s == [] {
      assert EscapeQuotes(s) + "'" + rest == "'" + rest;
    } else {
      assert s[0] in s && '\\' !in s[1..];
      EscapeQuotesReadsBack(s[1..], rest);
      EscapeQuotesStep(s, rest);
      if s[0] == '\'' {
        CypherText.ReadBodyEscaped('\'', EscapeQuotes(s[1..]) + "'" + rest);
      } else {
        CypherText.ReadBodyPlain(s[0], EscapeQuotes(s[1..]) + "'" + rest);
      }
      assert [s[0]] + s[1..] == s;
    }
  }

  /** A backslash in a quoted value is not escaped: the value `a\` gives
      the text 'a\' , whose closing quote the lexer reads as an escaped
      character, so the literal never ends. */
  lemma BackslashEndsNoLiteral()
    ensures "'" + EscapeQuotes("a\\") + "'" == "'a\\'"
    ensures CypherText.ReadLiteral("'a\\'") == None
  {
    assert EscapeQuotes("a\\") == "a\\" by {
      assert "a\\"[1..] == "\\";
      assert "\\"[1..] == [];
    }
    assert "'a\\'"[1..] == "a\\'";
    assert "a\\'"[1..] == "\\'";
  }

  // ---------------------------------------------------------------------
  // The stateful regular expression and the constructor

  /** The static global regular expression `SearchParams.pattern`, shared
      by every SearchParams: only its lastIndex changes. */
  class SearchPattern {
    var lastIndex: nat

    constructor()
      ensures lastIndex == 0
    {
      lastIndex := 0;
    }

    /** `pattern.exec(s)`: the match from lastIndex, which it advances to
      the end of the match, or resets to 0 when there is none. */
    method Exec(s: string) returns (m: Option<Match>)
      modifies this
      ensures m == ExecAt(s, old(lastIndex))
      ensures lastIndex == if m.Some? then m.value.end else 0
    {
      m := ExecAt(s, lastIndex);
      lastIndex := if m.Some? then m.value.end else 0;
    }
  }

  /** A SearchParams object: its predicates and its free text. */
  class SearchParams {
    var fields: seq<Pred>
    var freetext: string

    constructor()
      ensures fields == [] && freetext == ""
    {
      fields := [];
      freetext := "";
    }

    /** The loop of the constructor, as written, over the shared pattern;
        false where building a predicate throws. */
    method Scan(search: string, pattern: SearchPattern) returns (ok: bool)
      modifies this, pattern
      ensures var r := ScanFrom(search, old(pattern.lastIndex), old(fields), old(freetext));
              fields == r.fields && freetext == r.freetext && ok == r.ok && pattern.lastIndex == r.lastIndex
    {
      ghost var r := ScanFrom(search, pattern.lastIndex, fields, freetext);
      while true
        invariant ScanFrom(search, pattern.lastIndex, fields, freetext) == r
        decreases |search| - pattern.lastIndex
      {
        ghost var from := pattern.lastIndex;
        var res := pattern.Exec(search);
        if res.None? {
          return true;
        }
        var m := res.value;
        freetext := freetext + m.text;
        var p := PredOf(m);
        if p.None? {
          return false;
        }
        fields := fields + [p.value];
      }
    }
  }

  /** `new SearchParams(search)` as written: its scan starts wherever the
      shared pattern's lastIndex was left. */
  method NewSearchParams(search: string, pattern: SearchPattern) returns (params: SearchParams, ok: bool)
    modifies pattern
    ensures fresh(params)
    ensures var r := ScanFrom(search, old(pattern.lastIndex), [], "");
            params.fields == r.fields && params.freetext == r.freetext && ok == r.ok && pattern.lastIndex == r.lastIndex
  {
    params := new SearchParams();
    ok := params.Scan(search, pattern);
  }

  /** The scan every search is meant to run: from the start of the string. */
  function Parse(s: string): ScanOut
  {
    ScanFrom(s, 0, [], "")
  }

  /** `new SearchParams(search)` with a pattern of its own, as intended:
      the result depends on the search string alone. */
  method NewSearchParamsFixed(search: string) returns (params: SearchParams, ok: bool)
    ensures fresh(params)
    ensures var r := Parse(search);
            params.fields == r.fields && params.freetext == r.freetext && ok == r.ok
  {
    var pattern := new SearchPattern();
    params := new SearchParams();
    ok := params.Scan(search, pattern);
  }

  /** "name:" has an empty value: building its predicate throws, at the end of the match,
      leaving lastIndex at 5. */
  lemma EmptyValueThrows()
    ensures ScanFrom("name:", 0, [], "") == ScanOut([], "", false, 5)
  {
    var s := "name:";
    assert RunEnd(s, 5) == 5 && RunEnd(s, 4) == 5 && RunEnd(s, 3) == 5;
    assert RunEnd(s, 2) == 5 && RunEnd(s, 1) == 5 && RunEnd(s, 0) == 5;
    assert LastColon(s, 0, 5) == Some(4);
    assert FirstKeyStart(s, 0) == Some(0);
    assert MatchStart(s, 0, 0) == 0 && s[0..0] == "" && s[0..4] == "name" && s[5..5] == "";
    assert ExecAt(s, 0) == Some(Match(0, "", "name", Unquoted(""), 5));
  }

  lemma IdMatch()
    ensures ExecAt("_id:42", 0) == Some(Match(0, "", "_id", Unquoted("42"), 6))
    ensures ExecAt("_id:42", 6) == None
  {
    var u := "_id:42";
    assert RunEnd(u, 6) == 6 && RunEnd(u, 5) == 6 && RunEnd(u, 4) == 6 && RunEnd(u, 3) == 6;
    assert RunEnd(u, 2) == 6 && RunEnd(u, 1) == 6 && RunEnd(u, 0) == 6;
    assert LastColon(u, 0, 6) == Some(3) by {
      assert LastColon(u, 0, 5) == Some(3);
    }
    assert FirstKeyStart(u, 0) == Some(0);
    assert MatchStart(u, 0, 0) == 0 && u[0..0] == "" && u[0..3] == "_id" && u[4..6] == "42";
  }

  /** "_id:42" scanned from the start gives the predicate `id(n) = 42`. */
  lemma IdSearch()
    ensures Parse("_id:42") == ScanOut([Pred("id(n)", "=", Numeric(Int(42)))], "", true, 0)
  {
    var u := "_id:42";
    IdMatch();
    IdPred();
    var p := Pred("id(n)", "=", Numeric(Int(42)));
    ScanStep(u, 0, [], "");
    assert [] + [p] == [p] && "" + "" == "";
    assert ScanFrom(u, 6, [p], "") == ScanOut([p], "", true, 0);
  }

  /** The key `_id` with the value 42 compares the node's id to the number 42. */
  lemma IdPred()
    ensures PredOf(Match(0, "", "_id", Unquoted("42"), 6)) == Some(Pred("id(n)", "=", Numeric(Int(42))))
  {
    assert ParseInt("42") == Int(42) by {
      assert NatToString(42) == "42";
      ParseIntOfDecimal(42);
    }
  }

  /** The first match of a search mixing free text, an unquoted and a
      quoted value: the free text before the key, the key "a" and the
      value 5, the white space after it consumed. */
  lemma MixedFirstMatch()
    ensures ExecAt("hi a:5 b:\"c\"", 0) == Some(Match(0, "hi ", "a", Unquoted("5"), 7))
  {
    var w := "hi a:5 b:\"c\"";
    MixedFirstKey();
    assert MatchStart(w, 0, 3) == 0;
    assert w[0..3] == "hi " && w[3..4] == "a" && w[5..6] == "5";
  }

  /** In that search the first key starts at 3, after "hi ", and its run
      of non-blank characters "a:5" ends at 6 with its colon at 4. */
  lemma MixedFirstKey()
    ensures var w := "hi a:5 b:\"c\"";
            FirstKeyStart(w, 0) == Some(3) && RunEnd(w, 3) == 6 && LastColon(w, 3, 6) == Some(4)
  {
    var w := "hi a:5 b:\"c\"";
    assert RunEnd(w, 6) == 6 && RunEnd(w, 5) == 6 && RunEnd(w, 4) == 6 && RunEnd(w, 3) == 6;
    assert LastColon(w, 3, 6) == Some(4);
    assert FirstKeyStart(w, 0) == Some(3) by {
      assert RunEnd(w, 2) == 2 && RunEnd(w, 1) == 2 && RunEnd(w, 0) == 2;
      assert LastColon(w, 0, 2) == None;
      assert FirstKeyStart(w, 2) == FirstKeyStart(w, 3);
    }
  }

  /** The second match: the key "b" and the quoted value c. */
  lemma MixedSecondMatch()
    ensures ExecAt("hi a:5 b:\"c\"", 7) == Some(Match(7, "", "b", Quoted("c"), 12))
    ensures ExecAt("hi a:5 b:\"c\"", 12) == None
  {
    var w := "hi a:5 b:\"c\"";
    assert RunEnd(w, 7) == 12 && LastColon(w, 7, 12) == Some(8) by {
      assert RunEnd(w, 12) == 12 && RunEnd(w, 11) == 12 && RunEnd(w, 10) == 12 && RunEnd(w, 9) == 12;
      assert RunEnd(w, 8) == 12 && RunEnd(w, 7) == 12;
    }
    assert FirstKeyStart(w, 7) == Some(7);
    assert ClosingQuote(w, 10) == Some(11);
    assert MatchStart(w, 7, 7) == 7;
    assert w[7..7] == "" && w[7..8] == "b" && w[10..11] == "c";
  }

  /** The predicates of the two matches. */
  lemma MixedPreds()
    ensures PredOf(Match(0, "hi ", "a", Unquoted("5"), 7)) == Some(Pred("n.`a`", "CONTAINS", Numeric(Int(5))))
    ensures PredOf(Match(7, "", "b", Quoted("c"), 12)) == Some(Pred("n.`b`", "CONTAINS", Literal("'c'")))
  {
    assert ParseInt("5") == Int(5) by {
      ParseIntOfDecimal(5);
    }
    assert RemoveBackticks("a") == "a" && RemoveBackticks("b") == "b";
    assert "n.`" + "a" + "`" == "n.`a`" && "n.`" + "b" + "`" == "n.`b`";
    assert "'" + EscapeQuotes("c") + "'" == "'c'" by {
      assert EscapeQuotes("c") == "c";
    }
  }

  /** The whole search: two predicates in order, the number as it is and
      the string quoted; the free text is kept apart. */
  lemma MixedSearch()
    ensures Parse("hi a:5 b:\"c\"") == ScanOut([Pred("n.`a`", "CONTAINS", Numeric(Int(5))),
                                      Pred("n.`b`", "CONTAINS", Literal("'c'"))], "hi ", true, 0)
  {
    var w := "hi a:5 b:\"c\"";
    var p1 := Pred("n.`a`", "CONTAINS", Numeric(Int(5)));
    var p2 := Pred("n.`b`", "CONTAINS", Literal("'c'"));
    assert Parse(w) == ScanFrom(w, 7, [p1], "hi ") by {
      MixedFirstMatch();
      MixedPreds();
      ScanStep(w, 0, [], "");
      assert [] + [p1] == [p1] && "" + "hi " == "hi ";
    }
    assert ScanFrom(w, 7, [p1], "hi ") == ScanFrom(w, 12, [p1, p2], "hi ") by {
      MixedSecondMatch();
      MixedPreds();
      ScanStep(w, 7, [p1], "hi ");
      assert [p1] + [p2] == [p1, p2] && "hi " + "" == "hi ";
    }
    assert ScanFrom(w, 12, [p1, p2], "hi ") == ScanOut([p1, p2], "hi ", true, 0) by {
      MixedSecondMatch();
    }
  }

  /** The clause of that search: the free text "hi " never reaches it. */
  lemma MixedClause()
    ensures WhereClause([Pred("n.`a`", "CONTAINS", Numeric(Int(5))), Pred("n.`b`", "CONTAINS", Literal("'c'"))])
            == "WHERE " + "n.`a` CONTAINS 5" + " AND " + "n.`b` CONTAINS 'c'"
  {
    var p1 := Pred("n.`a`", "CONTAINS", Numeric(Int(5)));
    var p2 := Pred("n.`b`", "CONTAINS", Literal("'c'"));
    assert PredText(p1) == "n.`a` CONTAINS 5" by {
      assert IntToString(5) == "5";
    }
    assert PredText(p2) == "n.`b` CONTAINS 'c'";
    assert JoinPreds([p1, p2]) == PredText(p1) + " AND " + PredText(p2) by {
      assert [p1, p2][1..] == [p2];
    }
  }

  /** "_id:42" scanned from index 5 finds no match. */
  lemma IdSearchFromFive()
    ensures ScanFrom("_id:42", 5, [], "") == ScanOut([], "", true, 0)
  {
    var u := "_id:42";
    assert RunEnd(u, 6) == 6 && RunEnd(u, 5) == 6;
    assert LastColon(u, 5, 6) == None;
    assert FirstKeyStart(u, 5) == None by {
      assert FirstKeyStart(u, 6) == None;
    }
  }

  /** A search that throws leaves the shared lastIndex behind: after
      "name:" the search "_id:42" is scanned from index 5 and yields no
      predicate, so its WHERE clause is empty and the query matches every
      node; scanned from the start it yields `id(n) = 42`. */
  lemma StaleLastIndex()
    ensures var first := ScanFrom("name:", 0, [], "");
            && !first.ok && first.lastIndex == 5
            && ScanFrom("_id:42", first.lastIndex, [], "").fields == []
            && Parse("_id:42").fields == [Pred("id(n)", "=", Numeric(Int(42)))]
  {
    EmptyValueThrows();
    IdSearchFromFive();
    IdSearch();
  }
}
