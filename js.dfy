/** JavaScript values as the three core files see them: what JSON.parse
    produces, what a GraphQL response holds, and the few operations of the
    language the core relies on (typeof, truthiness, property access, the
    conversion of a value to a string inside a template literal).

    Numbers are integers: the core only ever handles node identifiers and
    integer-valued document fields. An object is an ordered list of fields,
    in the order Object.entries enumerates them: the fields of an `Obj`
    are taken to be listed in JavaScript own-key order already (keys that
    are array indices first, ascending, then the other keys in creation
    order); nothing reorders them. A string is a sequence of Unicode
    scalar values, one `char` each, not of UTF-16 code units. */
module Js {

  datatype Option<T> = None | Some(value: T)

  datatype Value =
    | Undefined
    | Null
    | Bool(b: bool)
    | Num(n: int)
    | Str(s: string)
    | Arr(elems: seq<Value>)
    | Obj(fields: seq<Field>)

  datatype Field = Field(key: string, val: Value)

  /** `typeof v === 'object'`: true of null, arrays and objects. */
  predicate IsObject(v: Value)
  {
    v.Null? || v.Arr? || v.Obj?
  }

  /** JavaScript truthiness (ToBoolean). */
  predicate Truthy(v: Value)
  {
    match v
    case Undefined => false
    case Null => false
    case Bool(b) => b
    case Num(n) => n != 0
    case Str(s) => s != ""
    case Arr(_) => true
    case Obj(_) => true
  }

  /** `v[k]` for a key that is not an array index: the first field named k
      of an object, undefined otherwise. */
  function Get(v: Value, k: string): Value
  {
    if v.Obj? then Lookup(v.fields, k) else Undefined
  }

  function Lookup(fs: seq<Field>, k: string): (r: Value)
    ensures r != Undefined ==> Field(k, r) in fs
    ensures (forall i :: 0 <= i < |fs| ==> fs[i].key != k) ==> r == Undefined
  {
    if fs == [] then Undefined
    else if fs[0].key == k then fs[0].val
    else Lookup(fs[1..], k)
  }

  predicate IsDigit(c: char)
  {
    '0' <= c <= '9'
  }

  function DigitChar(d: nat): (c: char)
    requires d < 10
    ensures IsDigit(c) && c as int - '0' as int == d
  {
    (d + '0' as int) as char
  }

  /** Decimal digits of a natural number, without leading zeros. */
  function NatToString(n: nat): (s: string)
    ensures |s| > 0
    ensures forall i :: 0 <= i < |s| ==> IsDigit(s[i])
    ensures s[0] == '0' ==> n == 0
    decreases n
  {
    if n < 10 then [DigitChar(n)] else NatToString(n / 10) + [DigitChar(n % 10)]
  }

  function DigitValue(c: char): nat
    requires IsDigit(c)
  {
    c as int - '0' as int
  }

  /** Value of a string of decimal digits. */
  function DigitsValue(s: string): nat
    requires forall i :: 0 <= i < |s| ==> IsDigit(s[i])
  {
    if s == [] then 0 else 10 * DigitsValue(s[..|s| - 1]) + DigitValue(s[|s| - 1])
  }

  lemma {:induction false} NatToStringValue(n: nat)
    ensures DigitsValue(NatToString(n)) == n
    decreases n
  {
    if n >= 10 {
      var s := NatToString(n);
      assert s[..|s| - 1] == NatToString(n / 10);
      NatToStringValue(n / 10);
    }
  }

  /** String(n) for an integer-valued number. */
  function IntToString(i: int): (s: string)
    ensures |s| > 0
    ensures (s[0] == '-') == (i < 0)
  {
    if i < 0 then "-" + NatToString(-i) else NatToString(i)
  }

  /** The string a value becomes inside a template literal `${v}`. */
  function ToJsString(v: Value): string
  {
    match v
    case Undefined => "undefined"
    case Null => "null"
    case Bool(b) => if b then "true" else "false"
    case Num(n) => IntToString(n)
    case Str(s) => s
    case Arr(es) => JoinElems(es)
    case Obj(_) => "[object Object]"
  }

  /** Array.prototype.join(","), where null and undefined become "". */
  function JoinElems(es: seq<Value>): string
  {
    if es == [] then ""
    else
      var head := if es[0].Null? || es[0].Undefined? then "" else ToJsString(es[0]);
      if |es| == 1 then head else head + "," + JoinElems(es[1..])
  }

  /** Object.entries of a string: one field per character, keyed by index. */
  function IndexFields(s: string, from: nat): (r: seq<Field>)
    requires from <= |s|
    ensures |r| == |s| - from
    ensures forall i :: 0 <= i < |r| ==> r[i] == Field(NatToString(from + i), Str([s[from + i]]))
    decreases |s| - from
  {
    if from == |s| then [] else [Field(NatToString(from), Str([s[from]]))] + IndexFields(s, from + 1)
  }

  /** Object.entries(v) for a value that is not an array: an object's own
      fields, a string's characters, nothing for the other primitives. */
  function OwnEntries(v: Value): (r: seq<Field>)
    requires !v.Arr?
    ensures v.Obj? ==> r == v.fields
    ensures !v.Obj? && !v.Str? ==> r == []
  {
    match v
    case Obj(fs) => fs
    case Str(s) => IndexFields(s, 0)
    case _ => []
  }

  /** The fields of a list whose value has typeof 'object', in order. */
  function ObjectFields(fs: seq<Field>): (r: seq<Field>)
    ensures forall f :: f in r <==> f in fs && IsObject(f.val)
  {
    if fs == [] then []
    else (if IsObject(fs[0].val) then [fs[0]] else []) + ObjectFields(fs[1..])
  }

  /** The entries `[index, element]` of an array, from `from` on, whose
      element has typeof 'object'. */
  function ObjectElems(es: seq<Value>, from: nat): (r: seq<Field>)
    requires from <= |es|
    ensures forall f :: f in r ==> IsObject(f.val) && f.val in es[from..]
    decreases |es| - from
  {
    if from == |es| then []
    else (if IsObject(es[from]) then [Field(NatToString(from), es[from])] else []) + ObjectElems(es, from + 1)
  }

  /** Object.entries throws a TypeError on null and undefined. */
  predicate Throws(o: Value)
  {
    o.Null? || o.Undefined?
  }

  /** The entries of a value whose own value has typeof 'object', in
      Object.entries order: what the `objects` accumulators of toCypher and
      of NodeLinkBuilder.parse collect. */
  function ObjectEntries(o: Value): (r: seq<Field>)
    requires !Throws(o)
    ensures forall f :: f in r ==> IsObject(f.val)
    ensures o.Obj? ==> forall f :: f in r ==> f in o.fields
    ensures o.Arr? ==> forall f :: f in r ==> f.val in o.elems
    ensures !o.Arr? && !o.Obj? ==> r == []
  {
    match o
    case Obj(fs) => ObjectFields(fs)
    case Arr(es) => ObjectElems(es, 0)
    case _ => []
  }
}
