/** The GraphQL resolvers of resolvers.ts. Every resolver factory
    (`getNodeId`, `getProperty`, `getRelation`, `getNode`) and the search
    query is modelled by two functions: the openCypher text it sends to the
    database, and the shaping of the result table the database returns
    into references `{_id}`. The database round trip itself is not
    modelled: a result table is a parameter. */
module Resolvers {
  import opened Js
  import CypherText
  import Search

  /** A result table: rows of cells. */
  type Table = seq<seq<Value>>

  /** What a field of a type table resolves with. An absent relation name
      or label is "" (the code tests them for truthiness only). */
  datatype Resolver =
    | NodeId
    | Property(field: string)
    | Relation(many: bool, relation: string, direction: string, targetLabel: string)

  /** `getRelation(many = false, relation?, direction = 'in', label?)`. */
  function GetRelation(many: bool, relation: string, direction: Option<string>, targetLabel: string): (r: Resolver)
    ensures r.Relation? && r.many == many && r.relation == relation && r.targetLabel == targetLabel
    ensures r.direction == if direction.Some? then direction.value else "in"
  {
    Relation(many, relation, if direction.Some? then direction.value else "in", targetLabel)
  }

  // ---------------------------------------------------------------------
  // Query texts

  /** The query of `getProperty(field)` for the node `_id`: it selects
      the node by the id printed after "id(n)=" and returns the field. */
  function PropertyQuery(id: Value, field: string): (q: string)
    ensures var n := ToJsString(id);
            && |q| == 32 + |n| + |field|
            && q[..22] == "MATCH (n) WHERE id(n)=" && q[22..22 + |n|] == n
            && q[22 + |n|..] == " RETURN n." + field
  {
    "MATCH (n) WHERE id(n)=" + ToJsString(id) + " RETURN n." + field
  }

  function LeftArrow(direction: string): string
  {
    if direction == "in" then "<" else ""
  }

  function RightArrow(direction: string): string
  {
    if direction == "out" then ">" else ""
  }

  /** `":" + s` when s is given, nothing otherwise. */
  function Tag(s: string): string
  {
    if s != "" then ":" + s else ""
  }

  /** The query of `getRelation` for the node `_id`: the pattern's head
      up to "-[", the relation type, the part between the relation and the
      target's label, the label, and the tail that binds `_id`. */
  function RelationQuery(relation: string, direction: string, targetLabel: string, id: Value): (q: string)
    ensures |q| > 9 && q[..9] == "MATCH (n)"
    ensures var tail := RelationTail(id); |q| > |tail| && q[|q| - |tail|..] == tail
  {
    RelationHead(direction) + Tag(relation) + RelationMiddle(direction) + Tag(targetLabel) + RelationTail(id)
  }

  function RelationHead(direction: string): string
  {
    "MATCH (n)" + LeftArrow(direction) + "-["
  }

  function RelationMiddle(direction: string): string
  {
    "]-" + RightArrow(direction) + "(r"
  }

  function RelationTail(id: Value): string
  {
    ") WHERE id(n)=" + ToJsString(id) + " RETURN id(r)"
  }

  /** The query of `getNode(label)`: every node carrying the label. */
  function NodeQuery(nodeLabel: string): (q: string)
    ensures |q| == 23 + |nodeLabel| && q[..9] == "MATCH (n:" && q[9..9 + |nodeLabel|] == nodeLabel
    ensures q[9 + |nodeLabel|..] == ") RETURN id(n)"
  {
    "MATCH (n:" + nodeLabel + ") RETURN id(n)"
  }

  /** The query of `Query.search` for a WHERE clause: every node the
      clause admits, with its labels. */
  function SearchQuery(where: string): (q: string)
    ensures |q| == 33 + |where| && q[..10] == "MATCH (n) " && q[10..10 + |where|] == where
    ensures q[10 + |where|..] == " RETURN id(n),labels(n)"
  {
    "MATCH (n) " + where + " RETURN id(n),labels(n)"
  }

  /** `({ _id })`: the reference's `_id`; destructuring null or undefined
      throws. */
  function RefId(reference: Value): Option<Value>
  {
    if reference.Null? || reference.Undefined? then None else Some(Get(reference, "_id"))
  }

  /** The query a field resolver sends for a reference; getNodeId sends
      none (Some(None)), and None is the throw of the destructuring. */
  function QueryOf(r: Resolver, reference: Value): (q: Option<Option<string>>)
    ensures r.NodeId? ==> q == (if RefId(reference).Some? then Some(None) else None)
    ensures r.Property? && RefId(reference).Some? ==> q == Some(Some(PropertyQuery(RefId(reference).value, r.field)))
    ensures r.Relation? && RefId(reference).Some? ==>
              q == Some(Some(RelationQuery(r.relation, r.direction, r.targetLabel, RefId(reference).value)))
    ensures RefId(reference).None? ==> q.None?
  {
    match RefId(reference)
    case None => None
    case Some(id) =>
      match r
      case NodeId => Some(None)
      case Property(field) => Some(Some(PropertyQuery(id, field)))
      case Relation(_, relation, direction, targetLabel) => Some(Some(RelationQuery(relation, direction, targetLabel, id)))
  }

  // ---------------------------------------------------------------------
  // Shaping the result table

  /** `row[i]`, undefined past its end. */
  function Cell(row: seq<Value>, i: nat): Value
  {
    if i < |row| then row[i] else Undefined
  }

  /** `results[0][0]`; None where `results[0]` is undefined and the second
      index throws. */
  function FirstCell(results: Table): (r: Option<Value>)
    ensures r.None? <==> results == []
    ensures r.Some? ==> r.value == Cell(results[0], 0)
  {
    if results == [] then None else Some(Cell(results[0], 0))
  }

  /** `{_id: v}`. */
  function Ref(v: Value): (r: Value)
    ensures Get(r, "_id") == v
  {
    Obj([Field("_id", v)])
  }

  /** `results.map(ids => ({ _id: ids[0] }))`. */
  function RefsOf(results: Table): (r: seq<Value>)
    ensures |r| == |results|
    ensures forall i :: 0 <= i < |results| ==> r[i] == Ref(Cell(results[i], 0))
  {
    if results == [] then [] else [Ref(Cell(results[0], 0))] + RefsOf(results[1..])
  }

  /** `results.map(([_id, __typename]) => ({ _id, __typename }))`. */
  function SearchResults(results: Table): (r: seq<Value>)
    ensures |r| == |results|
    ensures forall i :: 0 <= i < |results| ==>
              r[i] == Obj([Field("_id", Cell(results[i], 0)), Field("__typename", Cell(results[i], 1))])
  {
    if results == [] then []
    else [Obj([Field("_id", Cell(results[0], 0)), Field("__typename", Cell(results[0], 1))])] + SearchResults(results[1..])
  }

  /** `SearchResult.__resolveType`: the `__typename` of the result;
      destructuring null or undefined throws. */
  function ResolveType(result: Value): Option<Value>
  {
    if result.Null? || result.Undefined? then None else Some(Get(result, "__typename"))
  }

  /** What a field resolver resolves with, given the reference and the
      table its query returned; None where it throws. */
  function Resolve(r: Resolver, reference: Value, results: Table): (v: Option<Value>)
    ensures RefId(reference).None? ==> v.None?
  {
    match RefId(reference)
    case None => None
    case Some(id) =>
      match r
      case NodeId => Some(id)
      case Property(_) => FirstCell(results)
      case Relation(many, _, _, _) =>
        if many then Some(Arr(RefsOf(results)))
        else match FirstCell(results)
          case None => None
          case Some(c) => Some(Ref(c))
  }

  /** `getNode(label)`: the query and the references of its rows. */
  function ResolveNodes(results: Table): (v: Value)
    ensures v.Arr? && |v.elems| == |results|
    ensures forall i :: 0 <= i < |results| ==> Get(v.elems[i], "_id") == Cell(results[i], 0)
  {
    Arr(RefsOf(results))
  }

  // ---------------------------------------------------------------------
  // Properties of the resolvers

  /** getNodeId returns the reference's `_id` unchanged and sends no query,
      whatever the table. */
  lemma NodeIdIsIdentity(reference: Value, results: Table)
    requires reference.Obj?
    ensures QueryOf(NodeId, reference) == Some(None)
    ensures Resolve(NodeId, reference, results) == Some(Get(reference, "_id"))
  {
  }

  /** A many-relation yields one reference per row, in row order: reading
      `_id` back from each gives the first column of the table. */
  lemma RefsReadBack(results: Table)
    ensures var refs := RefsOf(results);
            forall i :: 0 <= i < |results| ==> Get(refs[i], "_id") == Cell(results[i], 0)
  {
  }

  /** A many-relation resolves, for any reference that can be
      destructured, to a list with one reference per row, in row order,
      each reading back as its row's first cell. */
  lemma ManyRelationReadsBack(relation: string, direction: string, targetLabel: string, reference: Value, results: Table)
    requires RefId(reference).Some?
    ensures var v := Resolve(Relation(true, relation, direction, targetLabel), reference, results);
            && v.Some? && v.value.Arr? && |v.value.elems| == |results|
            && forall i :: 0 <= i < |results| ==> Get(v.value.elems[i], "_id") == Cell(results[i], 0)
  {
  }

  /** Every search result is the node id of its row, typed by the row's
      labels cell. */
  lemma SearchResultTypes(results: Table)
    ensures forall i :: 0 <= i < |results| ==>
              Get(SearchResults(results)[i], "_id") == Cell(results[i], 0)
              && ResolveType(SearchResults(results)[i]) == Some(Cell(results[i], 1))
  {
    forall i | 0 <= i < |results|
      ensures Get(SearchResults(results)[i], "_id") == Cell(results[i], 0)
              && ResolveType(SearchResults(results)[i]) == Some(Cell(results[i], 1))
    {
      RowFields(Cell(results[i], 0), Cell(results[i], 1));
    }
  }

  /** The two fields of a search result are read back under their names. */
  lemma RowFields(id: Value, typename: Value)
    ensures Get(Obj([Field("_id", id), Field("__typename", typename)]), "_id") == id
    ensures Get(Obj([Field("_id", id), Field("__typename", typename)]), "__typename") == typename
  {
    var fs := [Field("_id", id), Field("__typename", typename)];
    assert |fs[0].key| != |"__typename"|;
    assert fs[1..] == [Field("__typename", typename)];
    assert Lookup(fs[1..], "__typename") == typename;
  }

  /** The single form of a relation and getProperty both take the first
      cell of the first row, and both throw on an empty table. */
  lemma SingleResults(relation: string, direction: string, targetLabel: string, field: string, reference: Value, results: Table)
    requires RefId(reference).Some?
    ensures Resolve(Relation(false, relation, direction, targetLabel), reference, results).None? <==> results == []
    ensures Resolve(Property(field), reference, results).None? <==> results == []
    ensures results != [] ==>
              Resolve(Property(field), reference, results) == Some(Cell(results[0], 0))
              && Get(Resolve(Relation(false, relation, direction, targetLabel), reference, results).value, "_id")
                 == Cell(results[0], 0)
  {
  }

  /** The resolvers as evidently intended: a property or a single
      relation with no row resolves to null instead of throwing at
      `results[0][0]`; everything else is as `Resolve` gives it. */
  function ResolveIntended(r: Resolver, reference: Value, results: Table): (v: Option<Value>)
    ensures RefId(reference).Some? && results == [] && (r.Property? || (r.Relation? && !r.many)) ==> v == Some(Null)
    ensures !(results == [] && (r.Property? || (r.Relation? && !r.many))) ==> v == Resolve(r, reference, results)
    ensures RefId(reference).None? ==> v.None?
  {
    if RefId(reference).Some? && results == [] && (r.Property? || (r.Relation? && !r.many)) then Some(Null)
    else Resolve(r, reference, results)
  }

  /** Corrected, no resolver throws on a reference it can destructure,
      whatever the table, while the code as written throws on an empty
      table (SingleResults). */
  lemma IntendedNeverThrows(r: Resolver, reference: Value, results: Table)
    requires RefId(reference).Some?
    ensures ResolveIntended(r, reference, results).Some?
    ensures results == [] && (r.Property? || (r.Relation? && !r.many)) ==>
              Resolve(r, reference, results).None? && ResolveIntended(r, reference, results) == Some(Null)
  {
  }

  /** The correction changes nothing where the code as written returns. */
  lemma IntendedExtendsResolve(r: Resolver, reference: Value, results: Table)
    ensures Resolve(r, reference, results).Some? ==> ResolveIntended(r, reference, results) == Resolve(r, reference, results)
  {
  }

  /** How a direction is drawn in the pattern: incoming, outgoing, or any
      other string, which leaves the pattern undirected. */
  datatype Arrow = Incoming | Outgoing | Undirected

  function ArrowOf(direction: string): Arrow
  {
    if direction == "in" then Incoming else if direction == "out" then Outgoing else Undirected
  }

  /** The relation query shows `<-` exactly for 'in' and `->` exactly for
      'out': two directions give the same query exactly when they are drawn
      the same way. */
  lemma RelationQueryDirection(relation: string, d1: string, d2: string, targetLabel: string, id: Value)
    ensures RelationQuery(relation, d1, targetLabel, id) == RelationQuery(relation, d2, targetLabel, id)
            <==> ArrowOf(d1) == ArrowOf(d2)
    ensures RelationQuery(relation, d1, targetLabel, id)[9] == (if d1 == "in" then '<' else '-')
  {
    ArrowChars(relation, d1, targetLabel, id);
    ArrowChars(relation, d2, targetLabel, id);
    if ArrowOf(d1) == ArrowOf(d2) {
      assert RelationHead(d1) == RelationHead(d2) && RelationMiddle(d1) == RelationMiddle(d2);
    }
  }

  /** The character after "MATCH (n)" is '<' exactly for 'in'; the one
      after the "]-" that closes the relation is '>' exactly for 'out'. */
  lemma ArrowChars(relation: string, direction: string, targetLabel: string, id: Value)
    ensures var q := RelationQuery(relation, direction, targetLabel, id);
            var m := |RelationHead(direction)| + |Tag(relation)|;
            && |RelationHead(direction)| == 11 + |LeftArrow(direction)|
            && m + 2 < |q|
            && q[9] == (if direction == "in" then '<' else '-')
            && q[m + 2] == (if direction == "out" then '>' else '(')
  {
    var head, tag, mid := RelationHead(direction), Tag(relation), RelationMiddle(direction);
    Parts(head, tag, mid, Tag(targetLabel), RelationTail(id));
    var q := RelationQuery(relation, direction, targetLabel, id);
    assert q[9] == head[9];
    assert q[|head| + |tag| + 2] == (head + tag + mid)[|head| + |tag| + 2] == mid[2];
  }

  lemma Parts(a: string, b: string, c: string, d: string, e: string)
    ensures var q := a + b + c + d + e;
            && q[..|a|] == a && q[|a|..|a| + |b|] == b
            && q[..|a| + |b| + |c|] == a + b + c && q[|a| + |b| + |c|..|a| + |b| + |c| + |d|] == d
  {
    var q := a + b + c + d + e;
    assert q[..|a| + |b| + |c|] == a + b + c;
  }

  /** The relation type appears, as `:rel` right after "-[", exactly when a
      relation name is given, and the target label, as `:Label` right after
      "(r", exactly when a label is given. */
  lemma RelationQueryParts(relation: string, direction: string, targetLabel: string, id: Value)
    ensures var q := RelationQuery(relation, direction, targetLabel, id);
            var head := RelationHead(direction);
            q[..|head|] == head && q[|head|..|head| + |Tag(relation)|] == (if relation != "" then ":" + relation else "")
    ensures var q := RelationQuery(relation, direction, targetLabel, id);
            var head := RelationHead(direction) + Tag(relation) + RelationMiddle(direction);
            q[..|head|] == head && q[|head|..|head| + |Tag(targetLabel)|] == (if targetLabel != "" then ":" + targetLabel else "")
  {
    Parts(RelationHead(direction), Tag(relation), RelationMiddle(direction), Tag(targetLabel), RelationTail(id));
  }

  /** With no predicate the search query has no WHERE clause: it returns
      every node. */
  lemma EmptySearchMatchesAll()
    ensures SearchQuery(Search.WhereClause([])) == "MATCH (n)  RETURN id(n),labels(n)"
  {
  }

  /** `Query.search` as written: the clause comes from a SearchParams built
      over the shared pattern; None where building it throws. */
  method SearchAsWritten(keywords: Option<string>, pattern: Search.SearchPattern) returns (query: Option<string>)
    modifies pattern
    ensures var r := Search.ScanFrom(if keywords.Some? then keywords.value else "", old(pattern.lastIndex), [], "");
            query == (if r.ok then Some(SearchQuery(Search.WhereClause(r.fields))) else None)
            && pattern.lastIndex == r.lastIndex
  {
    var params, ok := Search.NewSearchParams(if keywords.Some? then keywords.value else "", pattern);
    if !ok {
      return None;
    }
    query := Some(SearchQuery(Search.WhereClause(params.fields)));
  }

  /** `Query.search` as intended: keywords default to "", and the clause is
      the one of a scan from the start. */
  function SearchText(keywords: Option<string>): Option<string>
  {
    var r := Search.Parse(if keywords.Some? then keywords.value else "");
    if r.ok then Some(SearchQuery(Search.WhereClause(r.fields))) else None
  }

  /** `Query.search` without keywords searches for "", which has no
      predicate. */
  lemma SearchWithoutKeywords()
    ensures SearchText(None) == Some("MATCH (n)  RETURN id(n),labels(n)")
  {
    assert Search.FirstKeyStart("", 0) == None;
    assert Search.ExecAt("", 0) == None;
    assert Search.Parse("") == Search.ScanOut([], "", true, 0);
    assert SearchQuery("") == "MATCH (n)  RETURN id(n),labels(n)";
  }

  // ---------------------------------------------------------------------
  // The type tables

  datatype Entry = Entry(name: string, resolver: Resolver)

  function PostTable(): seq<Entry>
  {
    [ Entry("_id", NodeId), Entry("id", Property("id")), Entry("title", Property("title")),
      Entry("body", Property("body")), Entry("creation", Property("creation")), Entry("score", Property("score")),
      Entry("user", GetRelation(false, "user", None, "")),
      Entry("comments", GetRelation(true, "comment", None, "")),
      Entry("answers", GetRelation(true, "answer", None, "")) ]
  }

  function CommentTable(): seq<Entry>
  {
    [ Entry("_id", NodeId), Entry("id", Property("id")), Entry("body", Property("body")),
      Entry("user", GetRelation(false, "user", None, "")) ]
  }

  function AnswerTable(): seq<Entry>
  {
    [ Entry("_id", NodeId), Entry("id", Property("id")), Entry("body", Property("body")),
      Entry("creation", Property("creation")), Entry("score", Property("score")),
      Entry("user", GetRelation(false, "user", None, "")), Entry("accepted", Property("accepted")),
      Entry("comments", GetRelation(true, "comment", None, "")),
      Entry("answers", GetRelation(false, "comment", Some("out"), "Post")) ]
  }

  function UserTable(): seq<Entry>
  {
    [ Entry("_id", NodeId), Entry("id", Property("id")), Entry("name", Property("name")),
      Entry("posts", GetRelation(true, "user", Some("out"), "Post")),
      Entry("comments", GetRelation(true, "user", Some("out"), "Comment")),
      Entry("answers", GetRelation(true, "user", Some("out"), "Answer")) ]
  }

  /** A field resolver that agrees with the document compiler: `_id` is the
      node id, a property is read under the field's own name, and an
      incoming relation follows the edge type toCypher gives a nested
      object under that field name (toEdge of it), returning a list
      exactly when the field name is plural. */
  predicate FollowsCompiler(e: Entry)
  {
    && (e.resolver.NodeId? <==> e.name == "_id")
    && (e.resolver.Property? ==> e.resolver.field == e.name)
    && (e.resolver.Relation? && e.resolver.direction == "in" ==>
          e.resolver.relation == CypherText.ToEdge(e.name)
          && (e.resolver.many <==> CypherText.EndsWithS(e.name)))
  }

  lemma PluralEdges()
    ensures CypherText.ToEdge("user") == "user" && !CypherText.EndsWithS("user")
    ensures CypherText.ToEdge("comments") == "comment" && CypherText.EndsWithS("comments")
    ensures CypherText.ToEdge("answers") == "answer" && CypherText.EndsWithS("answers")
  {
    CypherText.ToEdgeDropsOneS("user");
    CypherText.ToEdgeDropsOneS("comment");
    CypherText.ToEdgeDropsOneS("answer");
    assert "comment" + "s" == "comments" && "answer" + "s" == "answers";
  }

  /** Every entry of the four type tables agrees with the compiler. */
  lemma TablesFollowCompiler()
    ensures forall e :: e in PostTable() ==> FollowsCompiler(e)
    ensures forall e :: e in CommentTable() ==> FollowsCompiler(e)
    ensures forall e :: e in AnswerTable() ==> FollowsCompiler(e)
    ensures forall e :: e in UserTable() ==> FollowsCompiler(e)
  {
    PluralEdges();
  }

  /** The outgoing relations of User follow the edges toCypher gives an
      object under "user": from the user's node, of type "user". */
  lemma UserRelationsAreUserEdges()
    ensures forall e :: e in UserTable() && e.resolver.Relation? ==>
              e.resolver.direction == "out" && e.resolver.relation == CypherText.ToEdge("user")
              && e.resolver.many
  {
  }

  /** `getNode('Post')` and `getNode('User')` ask for the labels toCypher
      gives a root document and an object under "user". */
  lemma NodeQueriesMatchCompilerLabels()
    ensures NodeQuery("Post") == "MATCH (n" + CypherText.NodeLabel("") + ") RETURN id(n)"
    ensures NodeQuery("User") == "MATCH (n" + CypherText.NodeLabel("user") + ") RETURN id(n)"
  {
    assert CypherText.ToLabel("user") == "User";
  }

  /** The compiler draws a "comment" edge only out of the node of an
      object held under "comment" or "comments", which it labels ":Comment". */
  lemma CommentEdgesLeaveCommentNodes()
    ensures forall name :: CypherText.ToEdge(name) == "comment" ==> CypherText.NodeLabel(name) == ":Comment"
  {
    assert CypherText.Capitalize("comment") == "Comment";
    forall name | CypherText.ToEdge(name) == "comment"
      ensures CypherText.NodeLabel(name) == ":Comment"
    {
      assert name != "" && name != "s";
    }
  }

  /** `Answer.answers` follows an outgoing "comment" edge to a Post, while
      an answer's node is labelled ":Answer" and every "comment" edge leaves
      a ":Comment" node: from an Answer the query finds no row. */
  lemma AnswerAnswersLeaveCommentNodes()
    ensures Entry("answers", GetRelation(false, "comment", Some("out"), "Post")) in AnswerTable()
    ensures CypherText.NodeLabel("answers") == ":Answer"
    ensures forall name :: CypherText.ToEdge(name) == "comment" ==> CypherText.NodeLabel(name) == ":Comment"
  {
    assert AnswerTable()[8].name == "answers";
    PluralEdges();
    assert CypherText.Capitalize("answer") == "Answer";
    CommentEdgesLeaveCommentNodes();
  }
}
