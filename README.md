# sayari-demo core, modelled in Dafny

This project models the data path of the sayari-demo server and the graph
view of its web client:

- **Document compiler** (`database.ts`): `QueryBuilder` and
  `Database.toCypher` walk a parsed JSON document depth-first in
  pre-order and take one node id per fragment. Fields whose value has
  typeof `'object'` are moved out of a fragment. Every non-array fragment
  with a field left gets an openCypher `MERGE` of its node. When the
  fragment has a relation name, a `MERGE` of the edge to its parent
  follows, with the label `toLabel(relation)` and the edge type
  `toEdge(relation)`. Values are written with `escape`.
- **Search** (`resolvers.ts`): `SearchParams` runs the global regular
  expression `(?<text>.*?)(?<set>(?<key>\S*):(("(?<stringVal>.*?)")|(?<intVal>.*?)($|\s)))`
  over the keywords. Each match becomes a predicate `{key, comparitor,
  value}`, and `toString` joins the predicates into a WHERE clause.
- **Resolvers** (`resolvers.ts`): the factories `getNodeId`,
  `getProperty`, `getRelation` and `getNode` are modelled with the query
  text each one sends and the way each one shapes the returned result
  table into references `{_id}`. So are `Query.search` and the `Post`,
  `Comment`, `Answer` and `User` type tables.
- **Node-link builder** (`graph.tsx`): `NodeLinkBuilder` turns a GraphQL
  response into a map of nodes keyed by `_id`, in first-insertion order,
  and a list of parent links.

The modules are laid out as follows:

- `js.dfy` (module `Js`) holds the JavaScript semantics the core relies
  on: values, truthiness, typeof `'object'` (which includes `null`), the
  order of `Object.entries`, `String(n)` and property reads. An object's
  fields are listed in JavaScript own-key order (integer-like keys first,
  ascending, then the other keys in creation order), and `Object.entries`
  of an object keeps that list order; for an array or a string it gives
  the indices in ascending order.
- `cypher_text.dfy` holds `escape`, `toEdge` and `toLabel`.
- `database.dfy` holds the compiler.
- `search.dfy` holds the regular expression (as a scan over the string),
  `parseInt` and `SearchParams`.
- `resolvers.dfy` holds the resolvers.
- `graph.dfy` holds `NodeLinkBuilder`.

## How the model is built

**Compiler.** `toCypher` is specified by `Compile`, a function from a
fragment and the builder's next id to the list of statements it emits,
the id after it and whether it returned normally. `Render` gives the text
a statement adds to the query. `Database.ToCypher` is a recursive method
on a `QueryBuilder` class. It is proved to append exactly
`RenderAll(Compile(...).stmts)` and to leave the fragment as `Residual`
describes it. The deletion happens in place in the source; here the
fragment is returned as a value.

**Search.** The regular expression is modelled as a scan over the string.
Its pieces are `RunEnd`, `LastColon`, `FirstKeyStart`, `MatchStart`,
`ClosingQuote` and `ExecAt`. The constructor's loop is `ScanFrom`, which
starts from the pattern's `lastIndex`. `SearchPattern` and `SearchParams`
are classes whose methods are proved against these functions.

**Node-link builder.** `parse` is specified by `Walk`, the trace of
`addLink` and `addNode` calls it makes, or None when it throws. The
builder state a trace leads to is `Apply`. `NodeLinkBuilder.Parse` is
proved to reach exactly `Apply(old state, Walk(...))`. Inside
`reduce`, `delete data[key]` acts on the list being iterated, not on the
element:

- a key that is an array index leaves a hole, which a later turn reads as
  `undefined` (and then throws);
- `"length"` cannot be deleted and throws in strict mode;
- any other key is absent and nothing happens.

**Where the code is followed.** `getProperty`, and `getRelation` with a
single result, read `results[0][0]`. On an empty result table that
throws, although an unmatched reference is meant to resolve to an empty
(null) field. The model follows the code: `Resolve` gives None. The
intended behaviour is `ResolveIntended`, listed under "## Findings".

## Model

| member | source | states |
|---|---|---|
| CypherText.EscapeValue | src/server/database.ts:114-124 | a string becomes a quoted literal that a Cypher string reader reads back as exactly that string; any other value is left as it is |
| CypherText.EscapeChars | src/server/database.ts:118 | the escaped body is at least as long as the string, and every quote in it follows a backslash |
| CypherText.Escape | src/server/database.ts:117-118 | the escaped string starts and ends with a quote, and every quote between them follows a backslash |
| CypherText.EscapeCharsReadsBack | src/server/database.ts:118 | the body written by the backslash-before-quote-and-backslash replacement, followed by a closing quote, reads back as the original string and leaves what follows untouched |
| CypherText.EscapeReadsBack | src/server/database.ts:118 | `'` + escaped string + `'` followed by any text reads back as the string, with the text left over |
| CypherText.ToEdge | src/server/database.ts:130-132 | toEdge drops exactly one trailing "s": appending "s" again when the input ended in one gives the input back |
| CypherText.ToEdgeDropsOneS | src/server/database.ts:130-132 | toEdge is the identity exactly on strings not ending in "s", shortens the others by one, and undoes appending an "s" |
| CypherText.Upper | src/server/database.ts:127 | toUpperCase of one character: a-z map to A-Z, every other character is unchanged |
| CypherText.ToLabel | src/server/database.ts:126-128 | toLabel is toEdge with its first character upper-cased, except that "s" gives "S" |
| Js.ObjectEntries | src/server/database.ts:55-65 | the `objects` accumulator holds only values of typeof 'object', taken from the object's own fields or the array's elements, and nothing for any other value |
| Database.QueryBuilder.constructor | src/server/database.ts:8-10 | a new builder has id 0 and an empty query |
| Database.QueryBuilder.NextId | src/server/database.ts:11-13 | returns the current id and increments it; the query is unchanged |
| Database.QueryBuilder.AddQuery | src/server/database.ts:14-16 | appends its argument to the query; the id is unchanged |
| Database.FirstIds | src/server/database.ts:8-13 | a new builder hands out 0, 1, 2 in turn |
| Database.QueriesInOrder | src/server/database.ts:14-16 | two addQuery calls leave their texts concatenated in call order |
| Database.PropsTextAppend | src/server/database.ts:75-78 | the fields text of two non-empty field lists in turn is the text of the first, ", ", then the text of the second: the items are joined with ", " in field order |
| Database.Render | src/server/database.ts:80-86 | the text of every statement is a MERGE that starts with `MERGE (n` followed by the decimal id of its node (the child, for an edge), and ends with a newline |
| Database.RenderAllAppend | src/server/database.ts:14-16 | the text of two statement lists emitted one after the other is the concatenation of their texts |
| Database.ScalarFields | src/server/database.ts:56-65 | the fields kept in a fragment are exactly those whose value does not have typeof 'object' |
| Database.Residual | src/server/database.ts:58-62 | after toCypher an object keeps exactly its non-object fields, and an array keeps its length with `undefined` where an element had typeof 'object' |
| Database.Header | src/server/database.ts:67-88 | a fragment's own statements are at most two; there is one exactly when it is not an array and has a field left, and it is the node MERGE for its id with the label from the relation and the remaining fields; a second, the edge MERGE to the parent typed `toEdge(relation)`, follows exactly when a relation is given |
| Database.Compile | src/server/database.ts:51-93 | toCypher takes an id before anything else, so the next id is always larger; a null or undefined fragment throws and emits nothing |
| Database.CompileEntries | src/server/database.ts:90-93 | the loop over `objects` never lowers the id, takes at least one id when there is a child, and throws only when there is a child |
| Database.EmitHeader | src/server/database.ts:67-88 | appends exactly the text of the fragment's own node MERGE and edge MERGE, and takes no id |
| Database.ToCypher | src/server/database.ts:51-96 | toCypher appends exactly the rendered statements of `Compile`, leaves the builder's id at `Compile`'s next id, returns normally exactly when `Compile` does, and leaves the fragment as `Residual` describes |
| Database.EmitChildren | src/server/database.ts:90-93 | the loop over `objects` appends the statements of the children compiled in order, each starting at the id the previous one left, and stops at the first child that throws |
| Database.EntriesStep | src/server/database.ts:90-93 | one turn of the loop: a child that throws ends it, otherwise the remaining children follow from the id that child left |
| Database.CompileDocument | src/server/database.ts:51-52 | `toCypher(o)` with the default parent 0, no relation and a new builder produces the text of `Compile(o, 0, "", 0)` |
| Database.CompileIds | src/server/database.ts:51-93 | each call takes its own id first and at most one id per fragment below it, all of them exactly when no fragment reached is null; it returns normally exactly when the document is null-free, and every statement is about an id it took |
| Database.EntriesIds | src/server/database.ts:90-93 | the same id accounting for the loop over `objects` |
| Database.CompilePreOrder | src/server/database.ts:51-93 | statements come in pre-order: ids never decrease, and node MERGE ids strictly increase |
| Database.EntriesPreOrder | src/server/database.ts:90-93 | the loop's statements come in pre-order |
| Database.LabelMatchesEdge | src/server/database.ts:71-86 | the node label `:toLabel(relation)` is the capitalised edge type `toEdge(relation)` |
| Database.HeaderWellFormed | src/server/database.ts:67-88 | a fragment's own statements are well formed: a node MERGE with at least one non-object property, then at most one edge MERGE from it to an earlier id, typed to match its label |
| Database.CompileWellFormed | src/server/database.ts:51-93 | every statement list toCypher emits is well formed and starts with a node MERGE when not empty |
| Database.EntriesWellFormed | src/server/database.ts:90-93 | the loop's statements are well formed |
| Database.RootSplit | src/server/database.ts:51-93 | a fragment's own statements come first, and no later statement is about its id |
| Database.RootStatements | src/server/database.ts:67-88 | a node MERGE for the fragment's id exists exactly when the fragment is a non-null non-array with a field left, and an edge MERGE exactly when it also has a relation name; they come first, with label `:toLabel(relation)` (":Post" without one) and edge type toEdge(relation) |
| Database.OneTag | src/server/database.ts:67-88 | an object `{name}` under relation "tags" emits `MERGE (n:Tag {name: …})` and an edge of type "tag" to its parent |
| Database.TwoObjectEntries | src/server/database.ts:55-65 | the entries of an array of two objects are its indices "0" and "1" in order |
| Database.TagEntries | src/server/database.ts:90-93 | the two tags are compiled in turn, with ids 2 and 3 |
| Database.TagList | src/server/database.ts:67-93 | for the list of two tags `[{name: a}, {name: b}]` under relation "tags" with parent 0, the list emits nothing of its own and each tag emits its node MERGE and an edge of type "tag" to node 0 (the list's parent), for every a and b |
| Database.TagsExample | src/server/database.ts:51-96 | `{tags: [{name: a}, {name: b}]}` emits exactly two tag nodes, each linked to node 0, and the root emits nothing |
| Database.NodeTextExample | src/server/database.ts:75-82 | the text of a tag's node MERGE is `MERGE (n2:Tag {name: 'a'})` |
| Database.NamePropsExample | src/server/database.ts:75-78 | the single field `name` with the string value "a" is written `name: 'a'` |
| Database.EdgeTextExample | src/server/database.ts:85-87 | the text of an edge MERGE is `MERGE (n2)-[:tag]->(n0)` |
| Search.RunEnd | src/server/resolvers.ts:139 | `\S*` from a position: the longest run of non-white-space characters |
| Search.LastColon | src/server/resolvers.ts:139 | the greedy `\S*` followed by ':' backtracks to the last colon of the run |
| Search.MatchStart | src/server/resolvers.ts:139 | the lazy `.*?` text starts at the earliest position after which no line terminator comes before the key |
| Search.ClosingQuote | src/server/resolvers.ts:139 | `"(?<stringVal>.*?)"` ends at the first quote, with no line terminator before it |
| Search.ExecAt | src/server/resolvers.ts:139-145 | `exec` from lastIndex finds a match that starts at or after lastIndex and ends after its start |
| Search.MatchAt | src/server/resolvers.ts:139 | the match at a key position spans from its text start to past the key |
| Search.FirstKeyStartFacts | src/server/resolvers.ts:139 | the first key position is the first one where `\S*:` matches |
| Search.ExecFirst | src/server/resolvers.ts:139 | exec fails exactly when no position from lastIndex starts `\S*:`, and otherwise matches at the first such position |
| Search.ExecText | src/server/resolvers.ts:139 | the text group has no line terminator and no colon, and the match is the one at the key that follows it |
| Search.MatchAtKey | src/server/resolvers.ts:139 | the key group has no white space and is followed by ':' in the input |
| Search.MatchAtValue | src/server/resolvers.ts:139 | a quoted value is the text between two quotes with no quote or line terminator inside; an unquoted value has no white space or colon and is followed by white space or the end |
| Search.QuotedValue | src/server/resolvers.ts:139 | the quoted alternative: the input holds `"stringVal"` after the colon |
| Search.UnquotedValue | src/server/resolvers.ts:139 | the unquoted alternative: the input holds intVal, then white space or the end |
| Search.MatchUsesColon | src/server/resolvers.ts:139 | every match consumes at least one colon of the input |
| Search.DigitPrefix | src/server/resolvers.ts:150 | parseInt reads the longest run of digits of the radix |
| Search.ParseInt | src/server/resolvers.ts:150 | parseInt gives NaN when the string is empty or does not start with a digit or a sign; a string starting with a decimal digit other than the "0x" prefix gives a non-negative integer; a negative result comes only after a minus sign |
| Search.ParseIntOfDecimal | src/server/resolvers.ts:150 | parseInt reads back the decimal form of every integer |
| Search.ParseIntOfDigits | src/server/resolvers.ts:150 | a run of decimal digits, signed or not, parses to its value |
| Search.RemoveBackticks | src/server/resolvers.ts:148 | the key keeps exactly its characters other than backticks |
| Search.EscapeQuotes | src/server/resolvers.ts:150 | the quoted value is never shorter than the string it quotes |
| Search.EscapeQuotesReadsBack | src/server/resolvers.ts:150 | for a value without backslashes, the quoted value reads back as the string |
| Search.BackslashEndsNoLiteral | src/server/resolvers.ts:137-150 | a value ending in a backslash yields text that is not a closed Cypher string literal |
| Search.PredOf | src/server/resolvers.ts:148-161 | a match throws exactly when its unquoted value is empty; key `_id` compares `id(n)` with `=`, other keys compare ``n.`key` `` (backticks removed) with CONTAINS; the value is parseInt of an unquoted value or the quoted string with escaped quotes |
| Search.PredsOf | src/server/resolvers.ts:145-161 | the predicates of a list of matches exist exactly when none throws, one per match, in order |
| Search.ScanStep | src/server/resolvers.ts:145-162 | one turn of the loop appends the match's predicate and text and continues from the match's end |
| Search.ScanIsPredsOfMatches | src/server/resolvers.ts:143-163 | the constructor finishes exactly when no match throws; its fields are then the predicates of all matches in order, and lastIndex is back at 0 |
| Search.FreetextIsMatchTexts | src/server/resolvers.ts:145-146 | the free text of a finished scan is the text before each key, concatenated in order |
| Search.FreetextHasNoColon | src/server/resolvers.ts:146 | the free text never holds a colon |
| Search.FieldsAtMostColons | src/server/resolvers.ts:143-163 | there are never more predicates than colons in the input |
| Search.ColonGivesPredicate | src/server/resolvers.ts:143-163 | an input with a colon gives at least one predicate or throws |
| Search.ScanFrom | src/server/resolvers.ts:143-163 | the constructor's loop only appends to the fields; when it finishes, lastIndex is back at 0, and when a match throws, lastIndex is left past where the scan started, within the input |
| Search.JoinPredsSnoc | src/server/resolvers.ts:169-170 | the predicates are joined with " AND " in order |
| Search.JoinPreds | src/server/resolvers.ts:169-170 | the join starts with the first predicate and is that predicate alone when it is the only one |
| Search.WhereClause | src/server/resolvers.ts:165-174 | toString is empty exactly when there is no predicate, and otherwise is "WHERE " followed by the first predicate |
| Search.WhereClauseSnoc | src/server/resolvers.ts:165-174 | toString is empty without predicates and is "WHERE " followed by the predicates joined with " AND " otherwise |
| Search.SearchPattern.constructor | src/server/resolvers.ts:139 | the pattern starts with lastIndex 0 |
| Search.SearchPattern.Exec | src/server/resolvers.ts:139-145 | exec returns the match from lastIndex and sets lastIndex to its end, or to 0 when there is none |
| Search.SearchParams.constructor | src/server/resolvers.ts:140-141 | fields start empty and freetext empty |
| Search.SearchParams.Scan | src/server/resolvers.ts:143-163 | the constructor's loop leaves fields, freetext and the pattern's lastIndex as `ScanFrom` from the old lastIndex gives them |
| Search.NewSearchParams | src/server/resolvers.ts:139-163 | `new SearchParams(search)` with the shared static pattern scans from wherever the pattern's lastIndex was left |
| Search.NewSearchParamsFixed | src/server/resolvers.ts:143-163 | a search scanned from the start gives the fields and free text of `Parse` |
| Search.EmptyValueThrows | src/server/resolvers.ts:150 | "name:" throws and leaves lastIndex at 5 |
| Search.IdMatch | src/server/resolvers.ts:139 | "_id:42" has exactly one match: key "_id", unquoted value "42" |
| Search.IdPred | src/server/resolvers.ts:152-155 | key `_id` gives `id(n) = 42` |
| Search.IdSearch | src/server/resolvers.ts:152-155 | "_id:42" gives the single predicate `id(n) = 42` and no free text |
| Search.MixedFirstMatch | src/server/resolvers.ts:139 | in `hi a:5 b:"c"` the first match is text "hi ", key "a", value 5, with the white space after it consumed |
| Search.MixedSecondMatch | src/server/resolvers.ts:139 | the second match is key "b" with the quoted value c, and nothing follows |
| Search.MixedPreds | src/server/resolvers.ts:148-161 | those matches give ``n.`a` CONTAINS 5`` and ``n.`b` CONTAINS 'c'`` |
| Search.MixedSearch | src/server/resolvers.ts:143-163 | the whole search yields the two predicates in order, with free text "hi " |
| Search.MixedClause | src/server/resolvers.ts:165-174 | their WHERE clause joins them with AND and leaves out the free text |
| Search.IdSearchFromFive | src/server/resolvers.ts:139-145 | "_id:42" scanned from index 5 finds no match |
| Search.StaleLastIndex | src/server/resolvers.ts:139-150 | after "name:" throws, the next search "_id:42" starts at index 5 and yields no predicate; scanned from 0 it yields `id(n) = 42` |
| Resolvers.GetRelation | src/server/resolvers.ts:123 | getRelation keeps its arguments; the direction defaults to 'in' |
| Resolvers.QueryOf | src/server/resolvers.ts:97-126 | getNodeId sends no query; getProperty and getRelation send their query for the reference's `_id`; destructuring null or undefined throws |
| Resolvers.PropertyQuery | src/server/resolvers.ts:116 | getProperty's query selects the node whose id is printed after `id(n)=` and returns the field |
| Resolvers.RelationQuery | src/server/resolvers.ts:126 | getRelation's query starts with `MATCH (n)` and ends by selecting the node by its id and returning `id(r)` |
| Resolvers.NodeQuery | src/server/resolvers.ts:105 | getNode's query matches the nodes carrying the label and returns their ids |
| Resolvers.SearchQuery | src/server/resolvers.ts:58 | the search query puts the WHERE clause between `MATCH (n) ` and ` RETURN id(n),labels(n)` |
| Resolvers.FirstCell | src/server/resolvers.ts:118 | `results[0][0]` is missing exactly when the table is empty |
| Resolvers.Ref | src/server/resolvers.ts:129-132 | a reference built from a cell has that cell as its `_id` |
| Resolvers.RefsOf | src/server/resolvers.ts:130 | one reference per row, holding the row's first cell, in order |
| Resolvers.SearchResults | src/server/resolvers.ts:63-66 | one result per row: `_id` from the first cell and `__typename` from the second |
| Resolvers.Resolve | src/server/resolvers.ts:97-135 | a resolver on a null or undefined reference throws |
| Resolvers.ResolveNodes | src/server/resolvers.ts:101-108 | getNode returns a list with one reference per row, in row order, and element i reads back `_id` as the first cell of row i |
| Resolvers.NodeIdIsIdentity | src/server/resolvers.ts:97-99 | getNodeId returns the reference's `_id` whatever the table, and sends no query |
| Resolvers.ManyRelationReadsBack | src/server/resolvers.ts:120-130 | a many-relation resolves, for every reference that can be destructured, to a list with one reference per row, in row order, each reading back `_id` as its row's first cell |
| Resolvers.RefsReadBack | src/server/resolvers.ts:129-130 | every reference a list resolver returns reads back as its row's first cell |
| Resolvers.SearchResultTypes | src/server/resolvers.ts:48-66 | every search result has `_id` from its row's first cell, and `__resolveType` gives its row's second cell |
| Resolvers.SingleResults | src/server/resolvers.ts:112-135 | getProperty and a single getRelation throw exactly on an empty table, and otherwise return the first cell (as a reference for the relation) |
| Resolvers.ResolveIntended | src/server/resolvers.ts:112-135 | the corrected resolvers: a property or a single relation with no row gives null, every other case is what the code as written gives, and an undestructurable reference still throws |
| Resolvers.IntendedNeverThrows | src/server/resolvers.ts:112-135 | corrected, every resolver returns for every reference with an `_id` and every table; where the code as written throws (an empty table under a property or single relation) the correction gives null |
| Resolvers.IntendedExtendsResolve | src/server/resolvers.ts:112-135 | wherever the code as written returns, the correction returns the same value |
| Resolvers.RelationQueryDirection | src/server/resolvers.ts:126 | two directions give the same query exactly when they draw the same arrow: `<-` for 'in', `->` for 'out', `-` for anything else |
| Resolvers.ArrowChars | src/server/resolvers.ts:126 | the relation pattern has '<' after "MATCH (n)" exactly for 'in', and '>' after the closing "]-" exactly for 'out' |
| Resolvers.RelationQueryParts | src/server/resolvers.ts:126 | the relation type appears as ":relation" only when given, and the target label as ":label" only when given |
| Resolvers.EmptySearchMatchesAll | src/server/resolvers.ts:165-174 | a search with no predicate sends `MATCH (n)  RETURN id(n),labels(n)`, which matches every node |
| Resolvers.SearchAsWritten | src/server/resolvers.ts:54-58 | Query.search scans the keywords (default "") with the shared pattern, and sends the query with their WHERE clause unless the scan throws |
| Resolvers.SearchWithoutKeywords | src/server/resolvers.ts:54-58 | without keywords the search matches every node |
| Resolvers.PluralEdges | src/server/resolvers.ts:15-17 | the edge types the compiler gives the fields "user", "comments" and "answers" are "user", "comment" and "answer" |
| Resolvers.TablesFollowCompiler | src/server/resolvers.ts:8-46 | in every type table `_id` is the node id, a property is read under its own name, and an incoming relation follows the edge toCypher gives that field name, returning a list exactly when the name is plural |
| Resolvers.UserRelationsAreUserEdges | src/server/resolvers.ts:39-46 | every relation of User follows an outgoing "user" edge and returns a list |
| Resolvers.NodeQueriesMatchCompilerLabels | src/server/resolvers.ts:68-69 | `posts` and `users` query the labels toCypher gives root documents (":Post") and "user" objects (":User") |
| Resolvers.CommentEdgesLeaveCommentNodes | src/server/database.ts:71-86 | every field name whose edge type is "comment" gives its node the label ":Comment", so each "comment" edge leaves a :Comment node |
| Resolvers.AnswerAnswersLeaveCommentNodes | src/server/resolvers.ts:36 | `Answer.answers` follows an outgoing "comment" edge to a Post, while an answer's node is labelled ":Answer" and every "comment" edge the compiler draws leaves a ":Comment" node |
| NodeLinks.List | src/web/graph.tsx:96 | a non-array is wrapped in a one-element list; an array is iterated as it is |
| NodeLinks.ArrayIndexOfDecimal | src/web/graph.tsx:108 | the key of an array index is read back as that index |
| NodeLinks.Delete | src/web/graph.tsx:108 | `delete data[key]` on the list throws exactly for "length", and leaves a hole exactly at an index key |
| NodeLinks.DeleteAllFacts | src/web/graph.tsx:102-112 | the `reduce`'s deletions throw exactly when a collected key is "length", and otherwise only add holes |
| NodeLinks.Read | src/web/graph.tsx:97 | an element read by the loop is `undefined` (a hole), the wrapped value or an element of the array |
| NodeLinks.Spread | src/web/graph.tsx:119 | `{...node}` copies an object's fields |
| NodeLinks.Walk | src/web/graph.tsx:95-102 | parse on a null or undefined value (which is not an array) throws: `Object.entries(node)` fails, or first `node._id` when the parent id is truthy |
| NodeLinks.FalsyChildrenSkipped | src/web/graph.tsx:114-117 | when no collected value is truthy, the inner loop recurses into nothing |
| NodeLinks.SetNode | src/web/graph.tsx:123-125 | `nodes.set` maps the key to the node and leaves every other key, present or absent, as it was; the links are kept; the order is extended by at most one key, and stays free of duplicates and equal to the map's keys |
| NodeLinks.ApplyAppend | src/web/graph.tsx:123-128 | applying two traces in turn is applying their concatenation |
| NodeLinks.ApplyLinks | src/web/graph.tsx:126-128 | the links are the old links followed by every link of the trace, none dropped or merged |
| NodeLinks.ApplyKeepsValid | src/web/graph.tsx:88-128 | the key order stays free of duplicates and names exactly the map's keys |
| NodeLinks.LastWriteWins | src/web/graph.tsx:123-125 | a key is present exactly when it was present or added, and maps to the last node added under it |
| NodeLinks.LastNodeStored | src/web/graph.tsx:123-125 | a key has a last node exactly when the trace adds it |
| NodeLinks.FirstInsertionOrder | src/web/graph.tsx:123-132 | the nodes come out in the order their keys were first added |
| NodeLinks.NodeCount | src/web/graph.tsx:123-132 | there are as many nodes as distinct keys added |
| NodeLinks.WalkClosed | src/web/graph.tsx:95-121 | every link parse makes has a truthy target and a stored source, and a stored target unless it is the call's parent |
| NodeLinks.WalkListClosed | src/web/graph.tsx:97-120 | the same for the rest of the loop |
| NodeLinks.ElementClosed | src/web/graph.tsx:98-119 | the same for one element |
| NodeLinks.ChildrenClosed | src/web/graph.tsx:114-117 | the same for an element's children, whose parent is the element's `_id` |
| NodeLinks.LinksHaveEndpoints | src/web/graph.tsx:92-128 | after `new NodeLinkBuilder(data)` every link's source and target are keys of the node map |
| NodeLinks.RootStoredLast | src/web/graph.tsx:95-121 | a null or undefined element throws; otherwise the element's link to a truthy parent comes first and the element itself is stored last, under its `_id`, after its children |
| NodeLinks.NonArrayIsSingleton | src/web/graph.tsx:96 | parsing a non-array is parsing the one-element list around it |
| NodeLinks.FalsyObjectsSkipped | src/web/graph.tsx:97-120 | an element none of whose collected values is truthy (every object field null, or none at all) and none of whose keys is "length" adds its link to a truthy parent and then its shallow copy, and nothing between |
| NodeLinks.LeafElement | src/web/graph.tsx:97-120 | the element `{_id: k}`, for every k, parent and holes, adds its link to a truthy parent and then itself, and leaves the holes as they were |
| NodeLinks.LeafList | src/web/graph.tsx:95-121 | a list of one leaf adds its link and then the leaf |
| NodeLinks.ParentChildren | src/web/graph.tsx:102-117 | the `objects` of `{_id, c: [leaf]}` is the field c, its deletion does nothing to the list, and the leaf is linked under "c" to the parent's `_id` |
| NodeLinks.ChildLinkedOnlyUnderTruthyId | src/web/graph.tsx:98-100 | for the document `{_id: id, c: [{_id: k}]}`, for every id and k, the child is linked to the parent exactly when id is not 0, the child is stored before the parent, and the stored parent keeps its list c |
| NodeLinks.NullFieldSkipped | src/web/graph.tsx:114-116 | the document `{_id: 1, u: null}` stores the node alone: the null field u is collected but not recursed into |
| NodeLinks.DeletionHitsTheList | src/web/graph.tsx:102-112 | a field named "1" deletes the list's second element, which then throws; a field named "length" throws |
| NodeLinks.NodeLinkBuilder.constructor | src/web/graph.tsx:89-90 | the builder starts with no nodes and no links |
| NodeLinks.NodeLinkBuilder.AddNode | src/web/graph.tsx:123-125 | `nodes.set(node._id, node)`: the key is appended to the order only when new, and maps to the node |
| NodeLinks.NodeLinkBuilder.AddLink | src/web/graph.tsx:126-128 | the link is appended; nothing else changes |
| NodeLinks.NodeLinkBuilder.Build | src/web/graph.tsx:129-135 | the nodes in map order and the links in insertion order |
| NodeLinks.NodeLinkBuilder.Parse | src/web/graph.tsx:95-121 | parse returns normally exactly when the walk does, and leaves the builder as the walk's trace applied to its old state |
| NodeLinks.NodeLinkBuilder.ParseItem | src/web/graph.tsx:97-120 | one turn of the loop on the element as read, holes included |
| NodeLinks.NodeLinkBuilder.ParseElement | src/web/graph.tsx:98-119 | one element: link, collect and delete object fields, recurse, add the node |
| NodeLinks.NodeLinkBuilder.ParseChildren | src/web/graph.tsx:114-117 | the inner loop recurses into each truthy collected value, in order |
| NodeLinks.DeleteKeys | src/web/graph.tsx:102-112 | the deletions of the `reduce`, in order, stopping at "length" |
| NodeLinks.NewNodeLinkBuilder | src/web/graph.tsx:92-94 | `new NodeLinkBuilder(data)` succeeds exactly when the walk does, with the state its trace gives |

## Left out

- Numbers are integers. Floating point, `NaN` arithmetic and numbers past 2^53 are not modelled; `parseInt`'s NaN is kept as a value.
- CypherText.Upper: upper-cases a-z only, because Unicode case mapping is not modelled.
- Redis, the network and `async`/`await` are not modelled: `Database.query` is replaced by a result table passed as a parameter.
- Cypher queries are not evaluated. The model builds each query's text and reads the result table it is given, so which rows a query finds on a given graph is not proved. For example, that `Answer.answers` finds no row from an Answer node, and so throws at `results[0][0]`, is argued from AnswerAnswersLeaveCommentNodes and not proved.
- `Database.size`, `Database.query`'s logging and error wrapping, and `mockNeo4j` are not modelled: they only talk to the database.
- `Mutation.delete` is not modelled: it only forwards a query and logs.
- `http.ts`, `utils.ts`, `index.ts`, `options.ts`, the React components, `graph-worker.ts` and the rest of `graph.tsx` are not part of this model.
- Database.ToCypher: deletes in place in the source, but here the fragment is returned as a new value (`Residual`). Aliasing between fragments is not modelled.
- NodeLinks.NodeLinkBuilder.Parse: the deletion from the iterated list is modelled as a set of holes, not as an update of a shared array. A node stored by `addNode` is a shallow copy; the model does not track that nested values stay shared with the response.
- Map keys are compared with Dafny equality, which matches SameValueZero for primitive `_id`s; objects used as keys, which the source compares by identity, are not distinguished.
- Objects with a repeated key are not excluded from `Value`; `Lookup` takes the first one.
- Strings are sequences of Unicode characters, not of UTF-16 code units. For a character outside the Basic Multilingual Plane the source counts two code units where the model counts one: `Object.entries` of such a string (a root string document in `toCypher`, a string element in `parse`) yields two entries in the source and one here, and the regular expression's `lastIndex` (and so where a stale search resumes) is counted in code units in the source and in characters here.
- The own key `"__proto__"` is not special here. In the source, `acc[key] = val` under that key calls the prototype setter and leaves no entry in `objects`: a `null` or object value under `"__proto__"` is moved out of the fragment but neither throws nor is compiled. The model collects it like any other key, so `Compile` throws on `{"a": 1, "__proto__": null}` and takes a node id for an object under that key.
- `parseInt`'s skipping of leading white space is not modelled: an unquoted search value never holds white space.
- Search.EscapeQuotes: a backslash in a quoted search value is not escaped, as the source's FIXME says; `BackslashEndsNoLiteral` shows the query text that results.

## Findings

| source | as written | input that shows it | evidently intended | confidence | as-written member | corrected member |
|---|---|---|---|---|---|---|
| src/server/resolvers.ts:139-150 | `SearchParams.pattern` is one static regular expression with the `g` flag. When a search throws at line 150 (an unquoted value that is empty), its `lastIndex` stays at the end of the failed match, and the next search starts scanning there | the search `name:` followed by the search `_id:42`: the second starts at index 5, finds no predicate and matches every node | every search scans its keywords from the start | not executed | Search.NewSearchParams, Search.StaleLastIndex | Search.NewSearchParamsFixed, Search.IdSearch |
| src/server/resolvers.ts:118-132 | `getProperty` and a single `getRelation` return `results[0][0]` and `{ _id: results[0][0] }`; on an empty result table `results[0]` is undefined and reading `[0]` of it throws a TypeError | a Comment node with no `user` edge: the `user` relation query returns no row and the resolver throws instead of giving null; likewise `getProperty` for an `_id` that names no node | an unmatched field resolves to null | not executed | Resolvers.SingleResults | Resolvers.ResolveIntended, Resolvers.IntendedNeverThrows |
