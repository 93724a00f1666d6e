/** The document compiler of database.ts: `QueryBuilder` and
    `Database.toCypher`, which walks a parsed JSON document depth-first in
    pre-order, takes one node id per visited fragment, moves the fields
    whose value has typeof 'object' out of the fragment and emits an
    openCypher MERGE for every non-array fragment with a field left, plus
    a MERGE of the edge to its parent when the fragment has a relation name.

    The statements a call emits are specified as a list of `Stmt` values
    (`Compile`); `Render` gives the text that reaches the builder. */
module Database {
  import opened Js
  import opened CypherText

  // ---------------------------------------------------------------------
  // Statements and their text

  datatype Stmt =
    | NodeMerge(id: int, nodeLabel: string, props: seq<Field>)
    | EdgeMerge(child: int, edge: string, parent: int)

  /** What one call of toCypher produces: its statements, the builder's next
      id afterwards, and whether it returned normally (false: it threw). */
  datatype Out = Out(stmts: seq<Stmt>, next: int, ok: bool)

  /** `${key}: ${escape(val)}` for every field, joined with ", ". */
  function PropsText(fs: seq<Field>): string
  {
    if fs == [] then ""
    else
      var item := fs[0].key + ": " + ToJsString(EscapeValue(fs[0].val));
      if |fs| == 1 then item else item + ", " + PropsText(fs[1..])
  }

  function NodeText(id: int, nodeLabel: string, props: seq<Field>): string
  {
    "MERGE (n" + IntToString(id) + nodeLabel + " {" + PropsText(props) + "})\n"
  }

  function EdgeText(child: int, edge: string, parent: int): string
  {
    "MERGE (n" + IntToString(child) + ")-[:" + edge + "]->(n" + IntToString(parent) + ")\n"
  }

  /** The fields text joins the `key: value` items with ", ": the text of
      two non-empty field lists in turn is their two texts so joined. */
  lemma {:induction false} PropsTextAppend(a: seq<Field>, b: seq<Field>)
    requires a != [] && b != []
    ensures PropsText(a + b) == PropsText(a) + ", " + PropsText(b)
    decreases |a|
  {
    assert (a + b)[0] == a[0] && (a + b)[1..] == a[1..] + b;
    if |a| > 1 {
      PropsTextAppend(a[1..], b);
      var item := a[0].key + ": " + ToJsString(EscapeValue(a[0].val));
      Associative(item + ", ", PropsText(a[1..]) + ", ", PropsText(b));
      Associative(item + ", ", PropsText(a[1..]), ", ");
    }
  }

  /** The text of one statement: a MERGE of the node named after the
      statement's id (the child's, for an edge), ending in a newline. */
  function Render(s: Stmt): (r: string)
    ensures var n := IntToString(StmtId(s));
            && |r| > 8 + |n| && r[..8] == "MERGE (n" && r[8..8 + |n|] == n && r[|r| - 1] == '\n'
  {
    match s
    case NodeMerge(id, l, props) =>
      var tail := l + " {" + PropsText(props) + "})\n";
      assert NodeText(id, l, props) == "MERGE (n" + IntToString(id) + tail;
      MergeText(IntToString(id), tail);
      NodeText(id, l, props)
    case EdgeMerge(child, edge, parent) =>
      var tail := ")-[:" + edge + "]->(n" + IntToString(parent) + ")\n";
      assert EdgeText(child, edge, parent) == "MERGE (n" + IntToString(child) + tail;
      MergeText(IntToString(child), tail);
      EdgeText(child, edge, parent)
  }

  lemma MergeText(n: string, tail: string)
    requires |tail| > 0 && tail[|tail| - 1] == '\n'
    ensures var r := "MERGE (n" + n + tail;
            && |r| > 8 + |n| && r[..8] == "MERGE (n" && r[8..8 + |n|] == n && r[|r| - 1] == '\n'
  {
  }

  function RenderAll(ss: seq<Stmt>): string
  {
    if ss == [] then "" else Render(ss[0]) + RenderAll(ss[1..])
  }

  lemma {:induction false} RenderAllAppend(a: seq<Stmt>, b: seq<Stmt>)
    ensures RenderAll(a + b) == RenderAll(a) + RenderAll(b)
  {
    if a == [] {
      assert a + b == b;
    } else {
      assert (a + b)[0] == a[0] && (a + b)[1..] == a[1..] + b;
      RenderAllAppend(a[1..], b);
      Associative(Render(a[0]), RenderAll(a[1..]), RenderAll(b));
    }
  }

  lemma Associative(a: string, b: string, c: string)
    ensures (a + b) + c == a + (b + c)
  {
  }

  lemma RenderOne(s: Stmt)
    ensures RenderAll([s]) == Render(s)
  {
    assert [s][1..] == [];
    assert Render(s) + "" == Render(s);
  }

  // ---------------------------------------------------------------------
  // The builder

  /** `QueryBuilder`: an id counter and an append-only statement buffer. */
  class QueryBuilder {
    var id: int
    var query: string

    constructor()
      ensures id == 0 && query == ""
    {
      id := 0;
      query := "";
    }

    /** `nextId`: `this.id++`, the value before the increment. */
    method NextId() returns (r: int)
      modifies this
      ensures r == old(id) && id == old(id) + 1
      ensures query == old(query)
    {
      r := id;
      id := id + 1;
    }

    /** `addQuery`: appends its argument to the buffer. */
    method AddQuery(q: string)
      modifies this
      ensures query == old(query) + q
      ensures id == old(id)
    {
      query := query + q;
    }
  }

  /** A new builder hands out the ids 0, 1, 2 in order. */
  method FirstIds() returns (a: int, b: int, c: int)
    ensures a == 0 && b == 1 && c == 2
  {
    var builder := new QueryBuilder();
    a := builder.NextId();
    b := builder.NextId();
    c := builder.NextId();
  }

  /** Two calls of addQuery leave their arguments in call order. */
  method QueriesInOrder(x: string, y: string) returns (query: string)
    ensures query == x + y
  {
    var builder := new QueryBuilder();
    builder.AddQuery(x);
    builder.AddQuery(y);
    query := builder.query;
  }

  // ---------------------------------------------------------------------
  // Splitting a fragment

  /** The fields of a list whose value does not have typeof 'object'. */
  function ScalarFields(fs: seq<Field>): (r: seq<Field>)
    ensures forall f :: f in r <==> f in fs && !IsObject(f.val)
  {
    if fs == [] then []
    else (if IsObject(fs[0].val) then [] else [fs[0]]) + ScalarFields(fs[1..])
  }

  /** The fields of a non-array fragment left after the object fields are
      deleted: the properties of its node. */
  function Remaining(o: Value): seq<Field>
    requires !o.Arr?
  {
    ScalarFields(OwnEntries(o))
  }

  /** The fragment as toCypher leaves it: an object keeps exactly its
      non-object fields; an array keeps its length, with a hole (read as
      undefined) where an element had typeof 'object'. */
  function Residual(o: Value): (r: Value)
    ensures o.Obj? ==> r.Obj? && forall f :: f in r.fields <==> f in o.fields && !IsObject(f.val)
    ensures o.Arr? ==> r.Arr? && |r.elems| == |o.elems|
    ensures o.Arr? ==> forall i :: 0 <= i < |o.elems| ==>
                         r.elems[i] == if IsObject(o.elems[i]) then Undefined else o.elems[i]
    ensures !o.Obj? && !o.Arr? ==> r == o
  {
    match o
    case Obj(fs) => Obj(ScalarFields(fs))
    case Arr(es) => Arr(seq(|es|, i requires 0 <= i < |es| => if IsObject(es[i]) then Undefined else es[i]))
    case _ => o
  }

  // ---------------------------------------------------------------------
  // The specification of toCypher

  /** The statements emitted for the fragment itself, before recursing. */
  function Header(o: Value, parent: int, relation: string, id: int): (r: seq<Stmt>)
    requires !Throws(o)
    ensures |r| <= 2
    ensures r != [] <==> !o.Arr? && |Remaining(o)| > 0
    ensures r != [] ==> r[0] == NodeMerge(id, NodeLabel(relation), Remaining(o))
    ensures |r| == 2 <==> r != [] && relation != ""
    ensures |r| == 2 ==> r[1] == EdgeMerge(id, ToEdge(relation), parent)
  {
    if !o.Arr? && |Remaining(o)| > 0 then
      [NodeMerge(id, NodeLabel(relation), Remaining(o))]
      + (if relation != "" then [EdgeMerge(id, ToEdge(relation), parent)] else [])
    else []
  }

  /** `toCypher(o, parent, relation, builder)` when the builder's next id is
      `id`: the id is taken first; a null or undefined fragment then throws. */
  function Compile(o: Value, parent: int, relation: string, id: int): (r: Out)
    ensures id < r.next
    ensures Throws(o) ==> !r.ok && r.stmts == []
    decreases o, 1
  {
    if Throws(o) then Out([], id + 1, false)
    else
      var kids := CompileEntries(ObjectEntries(o), o, if o.Arr? then parent else id, relation, id + 1);
      Out(Header(o, parent, relation, id) + kids.stmts, kids.next, kids.ok)
  }

  /** The loop over `objects`: array elements recurse with the array's own
      parent and relation, object fields with `parent` (the fragment's id)
      and their own key. The first child that throws ends the loop. */
  function CompileEntries(kids: seq<Field>, owner: Value, parent: int, relation: string, id: int): (r: Out)
    requires forall f :: f in kids ==> (owner.Arr? && f.val in owner.elems) || (owner.Obj? && f in owner.fields)
    ensures id <= r.next
    ensures kids != [] ==> id < r.next
    ensures !r.ok ==> kids != []
    decreases owner, 0, |kids|
  {
    if kids == [] then Out([], id, true)
    else
      var first := Compile(kids[0].val, parent, if owner.Arr? then relation else kids[0].key, id);
      if !first.ok then first
      else
        var rest := CompileEntries(kids[1..], owner, parent, relation, first.next);
        Out(first.stmts + rest.stmts, rest.next, rest.ok)
  }

  // ---------------------------------------------------------------------
  // The imperative compiler

  /** The `if` block of toCypher: the node MERGE of a non-array fragment
      with fields left, followed by the edge MERGE when it has a relation. */
  method EmitHeader(o: Value, parent: int, relation: string, currentId: int, builder: QueryBuilder)
    requires !Throws(o)
    modifies builder
    ensures builder.query == old(builder.query) + RenderAll(Header(o, parent, relation, currentId))
    ensures builder.id == old(builder.id)
  {
    ghost var q0 := builder.query;
    ghost var header := Header(o, parent, relation, currentId);
    if !o.Arr? && |Remaining(o)| > 0 {
      var nodeLabel := NodeLabel(relation);
      ghost var node := NodeMerge(currentId, nodeLabel, Remaining(o));
      builder.AddQuery(NodeText(currentId, nodeLabel, Remaining(o)));
      RenderOne(node);
      if relation != "" {
        ghost var edge := EdgeMerge(currentId, ToEdge(relation), parent);
        builder.AddQuery(EdgeText(currentId, ToEdge(relation), parent));
        RenderOne(edge);
        assert header == [node] + [edge];
        RenderAllAppend([node], [edge]);
        assert RenderAll(header) == Render(node) + Render(edge);
        Associative(q0, Render(node), Render(edge));
      } else {
        assert header == [node];
        assert builder.query == q0 + RenderAll(header);
      }
    } else {
      assert header == [];
      assert builder.query == q0 + "";
    }
  }

  /** `Database.toCypher`. The in-place deletion of object fields from `o`
      is returned as `rest`; `ok` is false where the source throws. */
  method ToCypher(o: Value, parent: int, relation: string, builder: QueryBuilder) returns (rest: Value, ok: bool)
    modifies builder
    ensures var r := Compile(o, parent, relation, old(builder.id));
            builder.id == r.next && builder.query == old(builder.query) + RenderAll(r.stmts) && ok == r.ok
    ensures !Throws(o) ==> rest == Residual(o)
    decreases o, 1
  {
    var currentId := builder.NextId();
    if Throws(o) {
      return o, false;
    }
    var objects := ObjectEntries(o);
    rest := Residual(o);
    ghost var q0 := builder.query;
    EmitHeader(o, parent, relation, currentId, builder);
    ghost var header := Header(o, parent, relation, currentId);
    ghost var q1 := builder.query;
    var childParent := if o.Arr? then parent else currentId;
    ghost var whole := CompileEntries(objects, o, childParent, relation, builder.id);
    assert Compile(o, parent, relation, currentId) == Out(header + whole.stmts, whole.next, whole.ok);
    ok := EmitChildren(objects, o, childParent, relation, builder);
    RenderAllAppend(header, whole.stmts);
    Associative(q0, RenderAll(header), RenderAll(whole.stmts));
  }

  /** The `for` loop of toCypher over `objects`; returns false where a
      recursive call throws. */
  method EmitChildren(objects: seq<Field>, o: Value, childParent: int, relation: string, builder: QueryBuilder)
    returns (ok: bool)
    requires forall f :: f in objects ==> (o.Arr? && f.val in o.elems) || (o.Obj? && f in o.fields)
    modifies builder
    ensures var r := CompileEntries(objects, o, childParent, relation, old(builder.id));
            builder.id == r.next && builder.query == old(builder.query) + RenderAll(r.stmts) && ok == r.ok
    decreases o, 0
  {
    ghost var whole := CompileEntries(objects, o, childParent, relation, builder.id);
    ghost var q1 := builder.query;
    ghost var done: seq<Stmt> := [];
    EntriesEnds(objects, o, childParent, relation, builder.id);
    assert RenderAll(done) == "" && q1 + "" == q1;
    for i := 0 to |objects|
      invariant builder.query == q1 + RenderAll(done)
      invariant var left := CompileEntries(objects[i..], o, childParent, relation, builder.id);
                done + left.stmts == whole.stmts && left.next == whole.next && left.ok == whole.ok
    {
      ghost var id0 := builder.id;
      var key, value := objects[i].key, objects[i].val;
      var _, childOk := ToCypher(value, childParent, if o.Arr? then relation else key, builder);
      EmitStep(objects, i, o, childParent, relation, id0, done, whole, q1);
      if !childOk {
        return false;
      }
      done := done + Compile(value, childParent, if o.Arr? then relation else key, id0).stmts;
    }
    EntriesEnds(objects, o, childParent, relation, builder.id);
    assert done + [] == done;
    return true;
  }

  /** The loop over `objects` starts with all of them left and ends with
      none left. */
  lemma EntriesEnds(objects: seq<Field>, o: Value, parent: int, relation: string, id: int)
    requires forall f :: f in objects ==> (o.Arr? && f.val in o.elems) || (o.Obj? && f in o.fields)
    ensures objects[0..] == objects
    ensures CompileEntries(objects[|objects|..], o, parent, relation, id) == Out([], id, true)
  {
    assert objects[|objects|..] == [];
  }

  /** One turn of the loop over `objects`. */
  lemma EntriesStep(objects: seq<Field>, i: nat, o: Value, parent: int, relation: string, id: int)
    requires i < |objects|
    requires forall f :: f in objects ==> (o.Arr? && f.val in o.elems) || (o.Obj? && f in o.fields)
    ensures var left := CompileEntries(objects[i..], o, parent, relation, id);
            var first := Compile(objects[i].val, parent, if o.Arr? then relation else objects[i].key, id);
            if first.ok then
              var after := CompileEntries(objects[i + 1..], o, parent, relation, first.next);
              left == Out(first.stmts + after.stmts, after.next, after.ok)
            else left == first
  {
    assert objects[i..][0] == objects[i] && objects[i..][1..] == objects[i + 1..];
  }

  lemma SeqAssociative(a: seq<Stmt>, b: seq<Stmt>, c: seq<Stmt>)
    ensures (a + b) + c == a + (b + c)
  {
  }

  /** One turn of the loop over `objects`, as the loop sees it: the text
      the child appends extends the rendering of what is done, and either
      the loop ends with the whole list's result or its invariant holds for
      the next entry. */
  lemma EmitStep(objects: seq<Field>, i: nat, o: Value, parent: int, relation: string, id: int,
                 done: seq<Stmt>, whole: Out, q: string)
    requires i < |objects|
    requires forall f :: f in objects ==> (o.Arr? && f.val in o.elems) || (o.Obj? && f in o.fields)
    requires forall f :: f in objects[i..] ==> (o.Arr? && f.val in o.elems) || (o.Obj? && f in o.fields)
    requires var left := CompileEntries(objects[i..], o, parent, relation, id);
             done + left.stmts == whole.stmts && left.next == whole.next && left.ok == whole.ok
    ensures var first := Compile(objects[i].val, parent, if o.Arr? then relation else objects[i].key, id);
            (q + RenderAll(done)) + RenderAll(first.stmts) == q + RenderAll(done + first.stmts)
            && (!first.ok ==> done + first.stmts == whole.stmts && first.next == whole.next && !whole.ok)
            && (first.ok ==>
                  var after := CompileEntries(objects[i + 1..], o, parent, relation, first.next);
                  (done + first.stmts) + after.stmts == whole.stmts && after.next == whole.next && after.ok == whole.ok)
  {
    var first := Compile(objects[i].val, parent, if o.Arr? then relation else objects[i].key, id);
    EntriesStep(objects, i, o, parent, relation, id);
    RenderAllAppend(done, first.stmts);
    Associative(q, RenderAll(done), RenderAll(first.stmts));
    if first.ok {
      var after := CompileEntries(objects[i + 1..], o, parent, relation, first.next);
      SeqAssociative(done, first.stmts, after.stmts);
    }
  }

  /** `Database.toCypher(o)` with its defaults: parent 0, no relation and a
      fresh builder, which is returned. */
  method CompileDocument(o: Value) returns (builder: QueryBuilder, ok: bool)
    ensures fresh(builder)
    ensures var r := Compile(o, 0, "", 0);
            builder.query == RenderAll(r.stmts) && builder.id == r.next && ok == r.ok
  {
    builder := new QueryBuilder();
    var _, done := ToCypher(o, 0, "", builder);
    ok := done;
  }

  // ---------------------------------------------------------------------
  // Properties of the compiler

  /** The id a statement is about: the node's own id, or the edge's child. */
  function StmtId(s: Stmt): int
  {
    if s.NodeMerge? then s.id else s.child
  }

  predicate IdsIn(ss: seq<Stmt>, lo: int, hi: int)
  {
    forall s :: s in ss ==> lo <= StmtId(s) < hi
  }

  /** The number of toCypher invocations on a fragment and everything below
      it, when none throws: one for the fragment, then its object entries. */
  function Visits(o: Value): nat
    decreases o, 1
  {
    if Throws(o) then 1 else 1 + VisitsEntries(ObjectEntries(o), o)
  }

  function VisitsEntries(kids: seq<Field>, owner: Value): nat
    requires forall f :: f in kids ==> (owner.Arr? && f.val in owner.elems) || (owner.Obj? && f in owner.fields)
    decreases owner, 0, |kids|
  {
    if kids == [] then 0 else Visits(kids[0].val) + VisitsEntries(kids[1..], owner)
  }

  /** No fragment the walk reaches is null (or, at the root, undefined). */
  predicate NullFree(o: Value)
    decreases o, 1
  {
    !Throws(o) && NullFreeEntries(ObjectEntries(o), o)
  }

  predicate NullFreeEntries(kids: seq<Field>, owner: Value)
    requires forall f :: f in kids ==> (owner.Arr? && f.val in owner.elems) || (owner.Obj? && f in owner.fields)
    decreases owner, 0, |kids|
  {
    kids == [] || (NullFree(kids[0].val) && NullFreeEntries(kids[1..], owner))
  }

  /** Every invocation takes exactly one id, before anything else: a call
      consumes the ids [id, next), at least its own and at most one per
      fragment below it, all of them exactly when it returns normally, and
      every statement it emits is about one of those ids. It returns
      normally exactly when no fragment it reaches is null. */
  lemma {:induction false} CompileIds(o: Value, parent: int, relation: string, id: int)
    ensures var r := Compile(o, parent, relation, id);
            id + 1 <= r.next <= id + Visits(o)
            && (r.ok <==> NullFree(o))
            && (r.ok ==> r.next == id + Visits(o))
            && IdsIn(r.stmts, id, r.next)
    decreases o, 1
  {
    if !Throws(o) {
      var kids := ObjectEntries(o);
      var childParent := if o.Arr? then parent else id;
      EntriesIds(kids, o, childParent, relation, id + 1);
      var header := Header(o, parent, relation, id);
      assert forall s :: s in header ==> StmtId(s) == id;
    }
  }

  lemma {:induction false} EntriesIds(kids: seq<Field>, owner: Value, parent: int, relation: string, id: int)
    requires forall f :: f in kids ==> (owner.Arr? && f.val in owner.elems) || (owner.Obj? && f in owner.fields)
    ensures var r := CompileEntries(kids, owner, parent, relation, id);
            id <= r.next <= id + VisitsEntries(kids, owner)
            && (r.ok <==> NullFreeEntries(kids, owner))
            && (r.ok ==> r.next == id + VisitsEntries(kids, owner))
            && IdsIn(r.stmts, id, r.next)
    decreases owner, 0, |kids|
  {
    if kids != [] {
      var key := if owner.Arr? then relation else kids[0].key;
      CompileIds(kids[0].val, parent, key, id);
      var first := Compile(kids[0].val, parent, key, id);
      if first.ok {
        EntriesIds(kids[1..], owner, parent, relation, first.next);
      }
    }
  }

  /** Statements come in pre-order: their ids never decrease, and every node
      MERGE has a larger id than all node MERGEs before it. */
  predicate PreOrder(ss: seq<Stmt>)
  {
    forall i, j :: 0 <= i < j < |ss| ==>
      StmtId(ss[i]) <= StmtId(ss[j]) && (ss[i].NodeMerge? && ss[j].NodeMerge? ==> ss[i].id < ss[j].id)
  }

  lemma PreOrderAppend(a: seq<Stmt>, b: seq<Stmt>, lo: int, mid: int, hi: int)
    requires lo <= mid <= hi
    requires PreOrder(a) && PreOrder(b) && IdsIn(a, lo, mid) && IdsIn(b, mid, hi)
    ensures PreOrder(a + b) && IdsIn(a + b, lo, hi)
  {
    forall i, j | 0 <= i < j < |a + b|
      ensures StmtId((a + b)[i]) <= StmtId((a + b)[j])
      ensures (a + b)[i].NodeMerge? && (a + b)[j].NodeMerge? ==> (a + b)[i].id < (a + b)[j].id
    {
      if j < |a| {
        assert (a + b)[i] == a[i] && (a + b)[j] == a[j];
      } else if i >= |a| {
        assert (a + b)[i] == b[i - |a|] && (a + b)[j] == b[j - |a|];
      } else {
        assert (a + b)[i] == a[i] && (a + b)[j] == b[j - |a|];
        assert a[i] in a && b[j - |a|] in b;
      }
    }
  }

  lemma {:induction false} CompilePreOrder(o: Value, parent: int, relation: string, id: int)
    ensures PreOrder(Compile(o, parent, relation, id).stmts)
    decreases o, 1
  {
    if !Throws(o) {
      var childParent := if o.Arr? then parent else id;
      var kids := CompileEntries(ObjectEntries(o), o, childParent, relation, id + 1);
      EntriesPreOrder(ObjectEntries(o), o, childParent, relation, id + 1);
      EntriesIds(ObjectEntries(o), o, childParent, relation, id + 1);
      var header := Header(o, parent, relation, id);
      HeaderPreOrder(o, parent, relation, id);
      PreOrderAppend(header, kids.stmts, id, id + 1, kids.next);
    }
  }

  /** The fragment's own statements are about its id alone. */
  lemma HeaderPreOrder(o: Value, parent: int, relation: string, id: int)
    requires !Throws(o)
    ensures PreOrder(Header(o, parent, relation, id)) && IdsIn(Header(o, parent, relation, id), id, id + 1)
  {
    var header := Header(o, parent, relation, id);
    assert forall s :: s in header ==> StmtId(s) == id;
  }

  lemma {:induction false} EntriesPreOrder(kids: seq<Field>, owner: Value, parent: int, relation: string, id: int)
    requires forall f :: f in kids ==> (owner.Arr? && f.val in owner.elems) || (owner.Obj? && f in owner.fields)
    ensures PreOrder(CompileEntries(kids, owner, parent, relation, id).stmts)
    decreases owner, 0, |kids|
  {
    if kids != [] {
      var key := if owner.Arr? then relation else kids[0].key;
      CompilePreOrder(kids[0].val, parent, key, id);
      var first := Compile(kids[0].val, parent, key, id);
      if first.ok {
        CompileIds(kids[0].val, parent, key, id);
        var rest := CompileEntries(kids[1..], owner, parent, relation, first.next);
        EntriesPreOrder(kids[1..], owner, parent, relation, first.next);
        EntriesIds(kids[1..], owner, parent, relation, first.next);
        PreOrderAppend(first.stmts, rest.stmts, id, first.next, rest.next);
      }
    }
  }

  /** The label a node MERGE gets from the relation whose edge type is e:
      toLabel is toEdge capitalised, and the name "s" has the empty edge
      type and the label "S". */
  function LabelOfEdge(e: string): string
  {
    ":" + if e == [] then "S" else Capitalize(e)
  }

  /** The shape of every statement list toCypher emits: each node MERGE has
      at least one property and none of typeof 'object'; each edge MERGE
      directly follows the MERGE of its child node, points to an earlier id,
      and has the type that matches that node's label. */
  predicate WellFormed(ss: seq<Stmt>)
  {
    && (forall k :: 0 <= k < |ss| && ss[k].NodeMerge? ==>
          |ss[k].props| > 0 && forall f :: f in ss[k].props ==> !IsObject(f.val))
    && (forall k :: 0 <= k < |ss| && ss[k].EdgeMerge? ==>
          0 < k && ss[k - 1].NodeMerge? && ss[k - 1].id == ss[k].child && ss[k].parent < ss[k].child
          && ss[k - 1].nodeLabel == LabelOfEdge(ss[k].edge))
  }

  predicate StartsWithNode(ss: seq<Stmt>)
  {
    ss == [] || ss[0].NodeMerge?
  }

  lemma WellFormedAppend(a: seq<Stmt>, b: seq<Stmt>)
    requires WellFormed(a) && WellFormed(b) && StartsWithNode(b)
    ensures WellFormed(a + b)
    ensures StartsWithNode(a) ==> StartsWithNode(a + b)
  {
    var ab := a + b;
    forall k | 0 <= k < |ab| && ab[k].EdgeMerge?
      ensures 0 < k && ab[k - 1].NodeMerge? && ab[k - 1].id == ab[k].child && ab[k].parent < ab[k].child
              && ab[k - 1].nodeLabel == LabelOfEdge(ab[k].edge)
    {
      if k < |a| {
        assert ab[k] == a[k] && ab[k - 1] == a[k - 1];
      } else {
        assert ab[k] == b[k - |a|];
        assert k - |a| > 0;
        assert ab[k - 1] == b[k - |a| - 1];
      }
    }
    forall k | 0 <= k < |ab| && ab[k].NodeMerge?
      ensures |ab[k].props| > 0 && forall f :: f in ab[k].props ==> !IsObject(f.val)
    {
      if k < |a| {
        assert ab[k] == a[k];
      } else {
        assert ab[k] == b[k - |a|];
      }
    }
  }

  /** The label toCypher gives a node with a relation name matches the
      edge type it gives the edge to the parent. */
  lemma LabelMatchesEdge(relation: string)
    requires relation != ""
    ensures NodeLabel(relation) == LabelOfEdge(ToEdge(relation))
  {
    if ToEdge(relation) == [] {
      ToEdgeDropsOneS(relation);
      assert relation == ToEdge(relation) + "s";
    }
  }

  lemma NodeWellFormed(n: Stmt)
    requires n.NodeMerge? && |n.props| > 0 && forall f :: f in n.props ==> !IsObject(f.val)
    ensures WellFormed([n]) && StartsWithNode([n])
  {
  }

  lemma PairWellFormed(n: Stmt, e: Stmt)
    requires n.NodeMerge? && |n.props| > 0 && forall f :: f in n.props ==> !IsObject(f.val)
    requires e.EdgeMerge? && e.child == n.id && e.parent < e.child && n.nodeLabel == LabelOfEdge(e.edge)
    ensures WellFormed([n, e]) && StartsWithNode([n, e])
  {
  }

  lemma HeaderWellFormed(o: Value, parent: int, relation: string, id: int)
    requires !Throws(o)
    requires relation == "" || parent < id
    ensures WellFormed(Header(o, parent, relation, id)) && StartsWithNode(Header(o, parent, relation, id))
  {
    if !o.Arr? && |Remaining(o)| > 0 {
      var n := NodeMerge(id, NodeLabel(relation), Remaining(o));
      if relation != "" {
        LabelMatchesEdge(relation);
        PairWellFormed(n, EdgeMerge(id, ToEdge(relation), parent));
        assert Header(o, parent, relation, id) == [n, EdgeMerge(id, ToEdge(relation), parent)];
      } else {
        NodeWellFormed(n);
        assert Header(o, parent, relation, id) == [n] + [];
      }
    }
  }

  lemma {:induction false} CompileWellFormed(o: Value, parent: int, relation: string, id: int)
    requires relation == "" || parent < id
    ensures WellFormed(Compile(o, parent, relation, id).stmts)
    ensures StartsWithNode(Compile(o, parent, relation, id).stmts)
    decreases o, 1
  {
    if !Throws(o) {
      var childParent := if o.Arr? then parent else id;
      var kids := CompileEntries(ObjectEntries(o), o, childParent, relation, id + 1);
      EntriesWellFormed(ObjectEntries(o), o, childParent, relation, id + 1);
      HeaderWellFormed(o, parent, relation, id);
      var header := Header(o, parent, relation, id);
      WellFormedAppend(header, kids.stmts);
      if header == [] {
        assert header + kids.stmts == kids.stmts;
      }
    }
  }

  lemma {:induction false} EntriesWellFormed(kids: seq<Field>, owner: Value, parent: int, relation: string, id: int)
    requires forall f :: f in kids ==> (owner.Arr? && f.val in owner.elems) || (owner.Obj? && f in owner.fields)
    requires parent < id || (owner.Arr? && relation == "")
    ensures WellFormed(CompileEntries(kids, owner, parent, relation, id).stmts)
    ensures StartsWithNode(CompileEntries(kids, owner, parent, relation, id).stmts)
    decreases owner, 0, |kids|
  {
    if kids != [] {
      var key := if owner.Arr? then relation else kids[0].key;
      var first := Compile(kids[0].val, parent, key, id);
      assert WellFormed(first.stmts) && StartsWithNode(first.stmts) by {
        assert key == "" || parent < id;
        CompileWellFormed(kids[0].val, parent, key, id);
      }
      if first.ok {
        var rest := CompileEntries(kids[1..], owner, parent, relation, first.next);
        assert WellFormed(rest.stmts) && StartsWithNode(rest.stmts) by {
          CompileIds(kids[0].val, parent, key, id);
          EntriesWellFormed(kids[1..], owner, parent, relation, first.next);
        }
        assert CompileEntries(kids, owner, parent, relation, id).stmts == first.stmts + rest.stmts;
        WellFormedAppend(first.stmts, rest.stmts);
      } else {
        assert CompileEntries(kids, owner, parent, relation, id) == first;
      }
    }
  }

  /** When every statement after the header is about a larger id, the
      statements about `id` are exactly those of the header. */
  lemma PrefixOwnsId(header: seq<Stmt>, tail: seq<Stmt>, id: int, hi: int)
    requires IdsIn(tail, id + 1, hi)
    ensures (header + tail)[..|header|] == header
    ensures forall k :: 0 <= k < |header + tail| && StmtId((header + tail)[k]) == id ==>
              k < |header| && (header + tail)[k] == header[k]
  {
    forall k | |header| <= k < |header + tail|
      ensures StmtId((header + tail)[k]) > id
    {
      assert (header + tail)[k] == tail[k - |header|];
      assert tail[k - |header|] in tail;
    }
  }

  /** A fragment's statements are its header followed by statements about
      larger ids only. */
  lemma RootSplit(o: Value, parent: int, relation: string, id: int)
    requires !Throws(o)
    ensures var ss := Compile(o, parent, relation, id).stmts;
            var header := Header(o, parent, relation, id);
            |header| <= |ss| && ss[..|header|] == header
            && forall k :: 0 <= k < |ss| && StmtId(ss[k]) == id ==> k < |header|
  {
    var childParent := if o.Arr? then parent else id;
    var kids := CompileEntries(ObjectEntries(o), o, childParent, relation, id + 1);
    var header := Header(o, parent, relation, id);
    var ss := Compile(o, parent, relation, id).stmts;
    assert ss == header + kids.stmts;
    assert IdsIn(kids.stmts, id + 1, kids.next) by {
      EntriesIds(ObjectEntries(o), o, childParent, relation, id + 1);
    }
    PrefixOwnsId(header, kids.stmts, id, kids.next);
  }

  /** The statements about a fragment's own id: a node MERGE exactly when
      the fragment is not an array and has a field left once its object
      fields are moved out, and an edge MERGE exactly when, in addition, it
      has a relation name. They come first, with the label from the
      relation name (":Post" without one) and the edge type toEdge of it. */
  lemma RootStatements(o: Value, parent: int, relation: string, id: int)
    ensures var ss := Compile(o, parent, relation, id).stmts;
            (exists k :: 0 <= k < |ss| && ss[k].NodeMerge? && ss[k].id == id)
              <==> !Throws(o) && !o.Arr? && |Remaining(o)| > 0
    ensures var ss := Compile(o, parent, relation, id).stmts;
            (exists k :: 0 <= k < |ss| && ss[k].EdgeMerge? && ss[k].child == id)
              <==> !Throws(o) && !o.Arr? && |Remaining(o)| > 0 && relation != ""
    ensures !Throws(o) && !o.Arr? && |Remaining(o)| > 0 ==>
            var ss := Compile(o, parent, relation, id).stmts;
            ss[0] == NodeMerge(id, NodeLabel(relation), Remaining(o))
            && (relation != "" ==> ss[1] == EdgeMerge(id, ToEdge(relation), parent))
  {
    if !Throws(o) {
      RootSplit(o, parent, relation, id);
      var header := Header(o, parent, relation, id);
      var ss := Compile(o, parent, relation, id).stmts;
      if !o.Arr? && |Remaining(o)| > 0 {
        assert ss[0] == header[0];
        if relation != "" {
          assert ss[1] == header[1];
        } else {
          assert |header| == 1;
        }
      } else {
        assert header == [];
      }
    }
  }

  /** One element of a list named "tags" with a single string field. */
  lemma OneTag(x: string, id: int)
    ensures var t := Obj([Field("name", Str(x))]);
            Compile(t, 0, "tags", id) == Out([NodeMerge(id, ":Tag", [Field("name", Str(x))]), EdgeMerge(id, "tag", 0)], id + 1, true)
  {
    var t := Obj([Field("name", Str(x))]);
    assert t.fields[1..] == [];
    assert ObjectFields(t.fields) == [] && ScalarFields(t.fields) == t.fields;
    assert ObjectEntries(t) == [] && Remaining(t) == [Field("name", Str(x))];
    assert ToEdge("tags") == "tag" && ToLabel("tags") == "Tag";
    assert NodeLabel("tags") == ":Tag";
    assert |Remaining(t)| > 0;
    assert Header(t, 0, "tags", id) == [NodeMerge(id, ":Tag", [Field("name", Str(x))]), EdgeMerge(id, "tag", 0)];
  }

  /** The entries toCypher collects from a list of two objects. */
  lemma TwoObjectEntries(x: Value, y: Value)
    requires x.Obj? && y.Obj?
    ensures ObjectEntries(Arr([x, y])) == [Field("0", x), Field("1", y)]
  {
    assert NatToString(0) == "0" && NatToString(1) == "1";
    assert ObjectElems([x, y], 2) == [];
    assert ObjectElems([x, y], 1) == [Field("1", y)];
  }

  /** The loop over the two tags: each one is compiled in turn. */
  lemma TagEntries(a: string, b: string)
    ensures var x := Obj([Field("name", Str(a))]);
            var y := Obj([Field("name", Str(b))]);
            CompileEntries([Field("0", x), Field("1", y)], Arr([x, y]), 0, "tags", 2)
              == Out([NodeMerge(2, ":Tag", [Field("name", Str(a))]), EdgeMerge(2, "tag", 0),
                      NodeMerge(3, ":Tag", [Field("name", Str(b))]), EdgeMerge(3, "tag", 0)], 4, true)
  {
    var x := Obj([Field("name", Str(a))]);
    var y := Obj([Field("name", Str(b))]);
    var entries := [Field("0", x), Field("1", y)];
    assert entries[1..] == [Field("1", y)];
    SecondTagEntry(a, b);
    OneTag(a, 2);
    EntriesCons(entries, Arr([x, y]), 0, "tags", 2);
  }

  /** The last turn of that loop: the second tag, with id 3. */
  lemma SecondTagEntry(a: string, b: string)
    ensures var x := Obj([Field("name", Str(a))]);
            var y := Obj([Field("name", Str(b))]);
            CompileEntries([Field("1", y)], Arr([x, y]), 0, "tags", 3)
              == Out([NodeMerge(3, ":Tag", [Field("name", Str(b))]), EdgeMerge(3, "tag", 0)], 4, true)
  {
    var x := Obj([Field("name", Str(a))]);
    var y := Obj([Field("name", Str(b))]);
    var sy := [NodeMerge(3, ":Tag", [Field("name", Str(b))]), EdgeMerge(3, "tag", 0)];
    OneTag(b, 3);
    EntriesCons([Field("1", y)], Arr([x, y]), 0, "tags", 3);
    assert [Field("1", y)][1..] == [];
    assert sy + [] == sy;
  }

  /** One turn of the loop over `objects` whose child does not throw: the
      child's statements, then those of the remaining entries. */
  lemma EntriesCons(kids: seq<Field>, owner: Value, parent: int, relation: string, id: int)
    requires kids != []
    requires forall f :: f in kids ==> (owner.Arr? && f.val in owner.elems) || (owner.Obj? && f in owner.fields)
    requires Compile(kids[0].val, parent, if owner.Arr? then relation else kids[0].key, id).ok
    ensures var first := Compile(kids[0].val, parent, if owner.Arr? then relation else kids[0].key, id);
            var rest := CompileEntries(kids[1..], owner, parent, relation, first.next);
            CompileEntries(kids, owner, parent, relation, id) == Out(first.stmts + rest.stmts, rest.next, rest.ok)
  {
  }

  /** The list of tags itself: no statement of its own, its elements
      linked to the list's parent under the list's relation name. */
  lemma TagList(a: string, b: string)
    ensures var tags := Arr([Obj([Field("name", Str(a))]), Obj([Field("name", Str(b))])]);
            Compile(tags, 0, "tags", 1) == Out([NodeMerge(2, ":Tag", [Field("name", Str(a))]), EdgeMerge(2, "tag", 0),
                                                NodeMerge(3, ":Tag", [Field("name", Str(b))]), EdgeMerge(3, "tag", 0)], 4, true)
  {
    var x := Obj([Field("name", Str(a))]);
    var y := Obj([Field("name", Str(b))]);
    TwoObjectEntries(x, y);
    TagEntries(a, b);
    var tags := Arr([x, y]);
    assert Header(tags, 0, "tags", 1) == [];
    var out := CompileEntries([Field("0", x), Field("1", y)], tags, 0, "tags", 2);
    assert [] + out.stmts == out.stmts;
  }

  /** A document with a list of tags: the root and the list emit nothing
      and take ids 0 and 1; each tag is a node labelled from the list's
      field name, linked to the root (the list's own parent). */
  lemma TagsExample(a: string, b: string)
    ensures var doc := Obj([Field("tags", Arr([Obj([Field("name", Str(a))]), Obj([Field("name", Str(b))])]))]);
            Compile(doc, 0, "", 0) == Out([NodeMerge(2, ":Tag", [Field("name", Str(a))]), EdgeMerge(2, "tag", 0),
                                           NodeMerge(3, ":Tag", [Field("name", Str(b))]), EdgeMerge(3, "tag", 0)], 4, true)
  {
    var tags := Arr([Obj([Field("name", Str(a))]), Obj([Field("name", Str(b))])]);
    var doc := Obj([Field("tags", tags)]);
    var out := Out([NodeMerge(2, ":Tag", [Field("name", Str(a))]), EdgeMerge(2, "tag", 0),
                    NodeMerge(3, ":Tag", [Field("name", Str(b))]), EdgeMerge(3, "tag", 0)], 4, true);
    assert ObjectEntries(doc) == doc.fields by {
      assert doc.fields[1..] == [];
      assert ObjectFields(doc.fields) == doc.fields;
    }
    assert Header(doc, 0, "", 0) == [] by {
      assert doc.fields[1..] == [];
      assert ScalarFields(doc.fields) == [];
    }
    assert CompileEntries(doc.fields, doc, 0, "", 1) == out by {
      TagList(a, b);
      assert Compile(tags, 0, "tags", 1) == out;
      assert doc.fields[1..] == [];
      assert CompileEntries(doc.fields[1..], doc, 0, "", 4) == Out([], 4, true);
      assert out.stmts + [] == out.stmts;
    }
    assert [] + out.stmts == out.stmts;
  }

  /** The text of a tag's node MERGE: the escaped value between quotes. */
  lemma NodeTextExample()
    ensures Render(NodeMerge(2, ":Tag", [Field("name", Str("a"))])) == "MERGE (n2:Tag {name: 'a'})\n"
  {
    var props := [Field("name", Str("a"))];
    NamePropsExample();
    assert IntToString(2) == "2";
    assert NodeText(2, ":Tag", props) == "MERGE (n" + "2" + ":Tag" + " {" + "name: 'a'" + "})\n";
  }

  /** The properties of a tag named a: the name between quotes. */
  lemma NamePropsExample()
    ensures PropsText([Field("name", Str("a"))]) == "name: 'a'"
  {
    var fs := [Field("name", Str("a"))];
    assert ToJsString(EscapeValue(Str("a"))) == "'a'" by {
      assert "a"[1..] == [];
      assert EscapeChars("a") == "a";
    }
    assert |fs| == 1;
  }

  /** The text of a tag's edge MERGE, from the child to the parent. */
  lemma EdgeTextExample()
    ensures Render(EdgeMerge(2, "tag", 0)) == "MERGE (n2)-[:tag]->(n0)\n"
  {
    assert IntToString(2) == "2" && IntToString(0) == "0";
  }
}
