/** `NodeLinkBuilder` of graph.tsx: it flattens a GraphQL response tree
    into the nodes and links a force-directed graph draws.

    `parse(data, parentId, relationship)` walks the tree. A value that is
    not an array is treated as a one-element list. For every element it
    adds a link to the parent when `parentId` is truthy, collects the
    entries whose value has typeof 'object', deletes each such key from the
    list being iterated (not from the element), recurses into the truthy
    ones with the element's `_id` as the new parent, and finally stores a
    shallow copy of the element keyed by its `_id`.

    The walk is specified as a list of events (`Walk`); `Apply` gives the
    state the builder's Map and Set are in after them. */
module NodeLinks {
  import opened Js

  datatype Link = Link(source: Value, target: Value, name: string)

  /** What one step of the walk does to the builder. */
  datatype Event =
    | AddLinkEvent(link: Link)
    | AddNodeEvent(key: Value, node: Value)

  // ---------------------------------------------------------------------
  // The walk

  /** The list `parse` iterates: the value itself when it is an array,
      a one-element list around it otherwise. */
  function List(data: Value): (r: seq<Value>)
    ensures data.Arr? ==> r == data.elems
    ensures !data.Arr? ==> r == [data]
  {
    if data.Arr? then data.elems else [data]
  }

  /** The array index a property key denotes: the canonical decimal form
      of an integer below 2^32 - 1. */
  function ArrayIndex(key: string): Option<nat>
  {
    if key != [] && (forall i :: 0 <= i < |key| ==> IsDigit(key[i])) && (key[0] != '0' || key == "0")
       && DigitsValue(key) < 0xFFFF_FFFF
    then Some(DigitsValue(key))
    else None
  }

  /** Every index has exactly one key, its decimal form. */
  lemma ArrayIndexOfDecimal(k: nat)
    requires k < 0xFFFF_FFFF
    ensures ArrayIndex(NatToString(k)) == Some(k)
  {
    NatToStringValue(k);
  }

  /** `delete data[key]` in strict mode on the iterated list, whose deleted
      indices are `holes`: an index key leaves a hole, "length" cannot be
      deleted and throws (None), any other key is absent and nothing
      happens. */
  function Delete(holes: set<nat>, key: string): (r: Option<set<nat>>)
    ensures r.None? <==> key == "length"
    ensures r.Some? ==> r.value == holes + (if ArrayIndex(key).Some? then {ArrayIndex(key).value} else {})
  {
    if key == "length" then None
    else match ArrayIndex(key)
      case Some(k) => Some(holes + {k})
      case None => Some(holes)
  }

  /** The deletions of the `reduce` over one element's entries. */
  function DeleteAll(holes: set<nat>, objects: seq<Field>): (r: Option<set<nat>>)
    decreases |objects|
  {
    if objects == [] then Some(holes)
    else match Delete(holes, objects[0].key)
      case None => None
      case Some(h) => DeleteAll(h, objects[1..])
  }

  /** The deletions throw exactly when a collected key is "length", and
      otherwise only add holes. */
  lemma {:induction false} DeleteAllFacts(holes: set<nat>, objects: seq<Field>)
    ensures DeleteAll(holes, objects).Some? <==> forall i :: 0 <= i < |objects| ==> objects[i].key != "length"
    ensures DeleteAll(holes, objects).Some? ==> holes <= DeleteAll(holes, objects).value
    decreases |objects|
  {
    if objects != [] {
      assert forall i :: 0 < i < |objects| ==> objects[i] == objects[1..][i - 1];
      match Delete(holes, objects[0].key)
      case None =>
      case Some(h) => DeleteAllFacts(h, objects[1..]);
    }
  }

  /** Element i of the list as the loop reads it: undefined at a hole. */
  function Read(owner: Value, holes: set<nat>, i: nat): (v: Value)
    requires i < |List(owner)|
    ensures v == Undefined || v == owner || (owner.Arr? && v in owner.elems)
  {
    if i in holes then Undefined else List(owner)[i]
  }

  /** `{ ...node }`: an object's own fields; a string's characters or an
      array's elements under their indices; nothing for other values. */
  function Spread(node: Value): (r: Value)
    ensures r.Obj?
    ensures node.Obj? ==> r == node
  {
    match node
    case Obj(_) => node
    case Str(s) => Obj(IndexFields(s, 0))
    case Arr(es) => Obj(ElemFields(es, 0))
    case _ => Obj([])
  }

  function ElemFields(es: seq<Value>, from: nat): (r: seq<Field>)
    requires from <= |es|
    ensures |r| == |es| - from
    ensures forall i :: 0 <= i < |r| ==> r[i] == Field(NatToString(from + i), es[from + i])
    decreases |es| - from
  {
    if from == |es| then [] else [Field(NatToString(from), es[from])] + ElemFields(es, from + 1)
  }

  /** The link `parse` adds for an element, when `parentId` is truthy. */
  function LinkEvents(node: Value, parentId: Value, relationship: string): seq<Event>
  {
    if Truthy(parentId) then [AddLinkEvent(Link(Get(node, "_id"), parentId, relationship))] else []
  }

  /** `parse(data, parentId, relationship)`: the events of the call, None
      where it throws. */
  function Walk(data: Value, parentId: Value, relationship: string): (r: Option<seq<Event>>)
    ensures !data.Arr? && Throws(data) ==> r.None?
    decreases data, 3
  {
    WalkList(data, 0, {}, parentId, relationship)
  }

  /** The `for` loop of `parse` from element i on, with the list's holes. */
  function WalkList(owner: Value, i: nat, holes: set<nat>, parentId: Value, relationship: string): (r: Option<seq<Event>>)
    requires i <= |List(owner)|
    decreases owner, 2, |List(owner)| - i
  {
    if i == |List(owner)| then Some([])
    else
      var node := Read(owner, holes, i);
      if Throws(node) then None
      else match Element(node, holes, parentId, relationship)
        case None => None
        case Some(step) =>
          match WalkList(owner, i + 1, step.1, parentId, relationship)
          case None => None
          case Some(rest) => Some(step.0 + rest)
  }

  /** One pass of the loop body on an element that is neither null nor
      undefined: the events it causes (the link to the parent, those of its
      children, the shallow copy stored last) and the list's holes after
      the `reduce` deleted its object keys. */
  function Element(node: Value, holes: set<nat>, parentId: Value, relationship: string): (r: Option<(seq<Event>, set<nat>)>)
    requires !Throws(node)
    decreases node, 1
  {
    var objects := ObjectEntries(node);
    match DeleteAll(holes, objects)
    case None => None
    case Some(holes') =>
      match WalkChildren(node, objects, Get(node, "_id"))
      case None => None
      case Some(kids) =>
        Some((LinkEvents(node, parentId, relationship) + kids + [AddNodeEvent(Get(node, "_id"), Spread(node))], holes'))
  }

  /** The inner `for` loop over `objects`: a recursive `parse` for each
      truthy value, with the element's `_id` as parent. */
  function WalkChildren(node: Value, objects: seq<Field>, id: Value): Option<seq<Event>>
    requires forall f :: f in objects ==> (node.Arr? && f.val in node.elems) || (node.Obj? && f in node.fields)
    decreases node, 0, |objects|
  {
    if objects == [] then Some([])
    else
      var first := if Truthy(objects[0].val) then Walk(objects[0].val, id, objects[0].key) else Some([]);
      match first
      case None => None
      case Some(evs) =>
        match WalkChildren(node, objects[1..], id)
        case None => None
        case Some(rest) => Some(evs + rest)
  }

  // ---------------------------------------------------------------------
  // The builder's state

  /** The Map `nodes`, as its keys in insertion order and their values,
      and the Set `links` in insertion order. */
  datatype State = State(order: seq<Value>, nodes: map<Value, Value>, links: seq<Link>)

  function EmptyState(): State
  {
    State([], map[], [])
  }

  predicate Distinct(s: seq<Value>)
  {
    forall i, j :: 0 <= i < j < |s| ==> s[i] != s[j]
  }

  /** The order lists each key of the Map exactly once. */
  ghost predicate ValidState(g: State)
  {
    Distinct(g.order) && forall k :: k in g.nodes <==> k in g.order
  }

  /** `Map.set`: a new key goes to the end, an existing key keeps its
      place and gets the new value. */
  function SetNode(g: State, key: Value, node: Value): (r: State)
    ensures key in r.nodes && r.nodes[key] == node && r.links == g.links
    ensures forall k :: k != key ==> (k in r.nodes <==> k in g.nodes) && (k in g.nodes ==> r.nodes[k] == g.nodes[k])
    ensures g.order <= r.order && |r.order| <= |g.order| + 1
    ensures ValidState(g) ==> ValidState(r)
  {
    State(if key in g.nodes then g.order else g.order + [key], g.nodes[key := node], g.links)
  }

  function Step(g: State, e: Event): State
  {
    match e
    case AddLinkEvent(l) => g.(links := g.links + [l])
    case AddNodeEvent(k, n) => SetNode(g, k, n)
  }

  function Apply(g: State, evs: seq<Event>): State
    decreases |evs|
  {
    if evs == [] then g else Apply(Step(g, evs[0]), evs[1..])
  }

  lemma {:induction false} ApplyAppend(g: State, a: seq<Event>, b: seq<Event>)
    ensures Apply(g, a + b) == Apply(Apply(g, a), b)
    decreases |a|
  {
    if a != [] {
      assert (a + b)[1..] == a[1..] + b;
      ApplyAppend(Step(g, a[0]), a[1..], b);
    } else {
      assert a + b == b;
    }
  }

  lemma Associative(a: seq<Event>, b: seq<Event>, c: seq<Event>)
    ensures a + (b + c) == (a + b) + c
  {
  }

  lemma ApplySnoc(g: State, a: seq<Event>, e: Event)
    ensures Apply(g, a + [e]) == Step(Apply(g, a), e)
  {
    ApplyAppend(g, a, [e]);
  }

  // ---------------------------------------------------------------------
  // What the events leave in the Map and the Set

  /** The links of a trace, in order. */
  function LinksOf(evs: seq<Event>): seq<Link>
  {
    if evs == [] then []
    else LinksOf(evs[..|evs| - 1]) + (if evs[|evs| - 1].AddLinkEvent? then [evs[|evs| - 1].link] else [])
  }

  /** The keys stored by a trace, in order, repetitions included. */
  function NodeKeys(evs: seq<Event>): seq<Value>
  {
    if evs == [] then []
    else NodeKeys(evs[..|evs| - 1]) + (if evs[|evs| - 1].AddNodeEvent? then [evs[|evs| - 1].key] else [])
  }

  /** The node stored last under key k by a trace, if any. */
  function LastNode(evs: seq<Event>, k: Value): Option<Value>
  {
    if evs == [] then None
    else if evs[|evs| - 1].AddNodeEvent? && evs[|evs| - 1].key == k then Some(evs[|evs| - 1].node)
    else LastNode(evs[..|evs| - 1], k)
  }

  /** The position of the first occurrence of k. */
  function FirstIndex(ks: seq<Value>, k: Value): (r: nat)
    requires k in ks
    ensures r < |ks| && ks[r] == k && k !in ks[..r]
  {
    if ks[0] == k then 0 else 1 + FirstIndex(ks[1..], k)
  }

  lemma FirstIndexSnoc(ks: seq<Value>, x: Value, k: Value)
    requires k in ks + [x]
    ensures k in ks ==> FirstIndex(ks + [x], k) == FirstIndex(ks, k)
    ensures k !in ks ==> FirstIndex(ks + [x], k) == |ks|
  {
    var i := FirstIndex(ks + [x], k);
    assert (ks + [x])[..i] == if i <= |ks| then ks[..i] else ks + [x];
    if k in ks {
      var j := FirstIndex(ks, k);
      assert (ks + [x])[j] == k;
    }
  }

  lemma {:induction false} ApplyLinks(g: State, evs: seq<Event>)
    ensures Apply(g, evs).links == g.links + LinksOf(evs)
    decreases |evs|
  {
    if evs == [] {
      assert g.links + [] == g.links;
    } else {
      var init, last := evs[..|evs| - 1], evs[|evs| - 1];
      assert evs == init + [last];
      ApplySnoc(g, init, last);
      ApplyLinks(g, init);
    }
  }

  /** Storing keeps every key listed once in the order. */
  lemma {:induction false} ApplyKeepsValid(g: State, evs: seq<Event>)
    requires ValidState(g)
    ensures ValidState(Apply(g, evs))
    decreases |evs|
  {
    if evs != [] {
      var h := Step(g, evs[0]);
      if evs[0].AddNodeEvent? && evs[0].key !in g.nodes {
        assert forall i :: 0 <= i < |g.order| ==> g.order[i] != evs[0].key;
      }
      assert ValidState(h);
      ApplyKeepsValid(h, evs[1..]);
    }
  }

  /** A key is in the Map after a trace exactly when it was there before or
      the trace stores it, and its value is the one stored last. */
  lemma {:induction false} LastWriteWins(g: State, evs: seq<Event>, k: Value)
    ensures k in Apply(g, evs).nodes <==> k in g.nodes || LastNode(evs, k).Some?
    ensures LastNode(evs, k).Some? ==> Apply(g, evs).nodes[k] == LastNode(evs, k).value
    ensures LastNode(evs, k).None? && k in g.nodes ==> Apply(g, evs).nodes[k] == g.nodes[k]
    decreases |evs|
  {
    if evs != [] {
      var init, last := evs[..|evs| - 1], evs[|evs| - 1];
      assert evs == init + [last];
      ApplySnoc(g, init, last);
      LastWriteWins(g, init, k);
    }
  }

  lemma {:induction false} LastNodeStored(evs: seq<Event>, k: Value)
    ensures LastNode(evs, k).Some? <==> k in NodeKeys(evs)
    decreases |evs|
  {
    if evs != [] {
      LastNodeStored(evs[..|evs| - 1], k);
    }
  }

  /** o lists the keys of ks, each once, in the order of their first
      occurrence in ks. */
  ghost predicate FirstOccurrenceOrder(o: seq<Value>, ks: seq<Value>)
  {
    && Distinct(o)
    && (forall k :: k in o <==> k in ks)
    && (forall i :: 0 <= i < |o| ==> o[i] in ks)
    && (forall i, j :: 0 <= i < j < |o| ==> FirstIndex(ks, o[i]) < FirstIndex(ks, o[j]))
  }

  lemma OrderStep(o: seq<Value>, ks: seq<Value>, k: Value)
    requires FirstOccurrenceOrder(o, ks)
    ensures FirstOccurrenceOrder(if k in o then o else o + [k], ks + [k])
  {
    forall x | x in ks
      ensures FirstIndex(ks + [k], x) == FirstIndex(ks, x)
    {
      FirstIndexSnoc(ks, k, x);
    }
    if k !in o {
      FirstIndexSnoc(ks, k, k);
      var o' := o + [k];
      forall i, j | 0 <= i < j < |o'|
        ensures o'[i] != o'[j] && FirstIndex(ks + [k], o'[i]) < FirstIndex(ks + [k], o'[j])
      {
        assert o'[i] == o[i];
        if j == |o| {
          assert o'[j] == k && FirstIndex(ks, o[i]) < |ks|;
        } else {
          assert o'[j] == o[j];
        }
      }
    }
  }

  /** After a trace from the empty builder, the Map holds the keys the
      trace stores, each once, in the order of their first storing. */
  lemma {:induction false} FirstInsertionOrder(evs: seq<Event>)
    ensures FirstOccurrenceOrder(Apply(EmptyState(), evs).order, NodeKeys(evs))
    decreases |evs|
  {
    if evs != [] {
      var init, last := evs[..|evs| - 1], evs[|evs| - 1];
      FirstInsertionOrder(init);
      var o, ks := Apply(EmptyState(), init).order, NodeKeys(init);
      assert Apply(EmptyState(), evs).order == (if last.AddNodeEvent? && last.key !in o then o + [last.key] else o) by {
        assert evs == init + [last];
        ApplySnoc(EmptyState(), init, last);
        ApplyKeepsValid(EmptyState(), init);
      }
      assert NodeKeys(evs) == ks + (if last.AddNodeEvent? then [last.key] else []);
      if last.AddNodeEvent? {
        OrderStep(o, ks, last.key);
      } else {
        assert ks + [] == ks;
      }
    }
  }

  lemma {:induction false} DistinctCard(s: seq<Value>)
    requires Distinct(s)
    ensures |set x | x in s| == |s|
    decreases |s|
  {
    if s != [] {
      var init := s[..|s| - 1];
      assert Distinct(init);
      DistinctCard(init);
      assert (set x | x in s) == (set x | x in init) + {s[|s| - 1]};
      assert s[|s| - 1] !in init;
    }
  }

  /** `build` returns one node per distinct `_id` stored, however often an
      `_id` repeats. */
  lemma NodeCount(evs: seq<Event>)
    ensures var g := Apply(EmptyState(), evs);
            |g.order| == |g.nodes| == |set k | k in NodeKeys(evs)|
  {
    var g := Apply(EmptyState(), evs);
    FirstInsertionOrder(evs);
    ApplyKeepsValid(EmptyState(), evs);
    DistinctCard(g.order);
    assert g.nodes.Keys == set k | k in g.order;
    assert (set k | k in g.order) == set k | k in NodeKeys(evs);
  }

  /** A loop that has produced `done` and has `rest` still to produce
      produces `whole`. */
  ghost predicate Pending(whole: Option<seq<Event>>, done: seq<Event>, rest: Option<seq<Event>>)
  {
    (whole.Some? <==> rest.Some?) && (rest.Some? ==> whole.value == done + rest.value)
  }

  /** The two ends of the loop over `objects`: it starts on all of them
      and, past the last, has no events left to add. */
  lemma ChildrenEnds(node: Value, objects: seq<Field>, id: Value)
    requires forall f :: f in objects ==> (node.Arr? && f.val in node.elems) || (node.Obj? && f in node.fields)
    ensures objects[0..] == objects
    ensures WalkChildren(node, objects[|objects|..], id) == Some([])
  {
  }

  /** An element that throws ends the loop with an exception. */
  lemma WalkListFails(owner: Value, i: nat, holes: set<nat>, parentId: Value, relationship: string)
    requires i < |List(owner)|
    requires Throws(Read(owner, holes, i)) || Element(Read(owner, holes, i), holes, parentId, relationship).None?
    ensures WalkList(owner, i, holes, parentId, relationship).None?
  {
  }

  /** A loop that has gone through the whole list has produced everything. */
  lemma WalkListEnd(owner: Value, holes: set<nat>, parentId: Value, relationship: string,
                    whole: Option<seq<Event>>, done: seq<Event>)
    requires Pending(whole, done, WalkList(owner, |List(owner)|, holes, parentId, relationship))
    ensures whole == Some(done)
  {
    assert done + [] == done;
  }

  /** One more element of the `for` loop of `parse`: the trace so far
      grows by the element's events. */
  lemma WalkListStep(owner: Value, i: nat, holes: set<nat>, parentId: Value, relationship: string,
                     whole: Option<seq<Event>>, done: seq<Event>)
    requires i < |List(owner)| && !Throws(Read(owner, holes, i))
    requires Element(Read(owner, holes, i), holes, parentId, relationship).Some?
    requires Pending(whole, done, WalkList(owner, i, holes, parentId, relationship))
    ensures var step := Element(Read(owner, holes, i), holes, parentId, relationship).value;
            Pending(whole, done + step.0, WalkList(owner, i + 1, step.1, parentId, relationship))
  {
    var step := Element(Read(owner, holes, i), holes, parentId, relationship).value;
    var rest := WalkList(owner, i + 1, step.1, parentId, relationship);
    if rest.Some? {
      Associative(done, step.0, rest.value);
    }
  }

  /** One turn of `parse`'s loop: the element's events extend the trace
      done so far, and the rest of the walk continues from the new holes. */
  lemma ParseStep(owner: Value, i: nat, holes: set<nat>, parentId: Value, relationship: string,
                  whole: Option<seq<Event>>, done: seq<Event>, g0: State, deleted: set<nat>)
    requires i < |List(owner)| && !Throws(Read(owner, holes, i))
    requires Element(Read(owner, holes, i), holes, parentId, relationship).Some?
    requires deleted == Element(Read(owner, holes, i), holes, parentId, relationship).value.1
    requires Pending(whole, done, WalkList(owner, i, holes, parentId, relationship))
    ensures var mine := Element(Read(owner, holes, i), holes, parentId, relationship).value.0;
            && Apply(Apply(g0, done), mine) == Apply(g0, done + mine)
            && Pending(whole, done + mine, WalkList(owner, i + 1, deleted, parentId, relationship))
  {
    var mine := Element(Read(owner, holes, i), holes, parentId, relationship).value.0;
    ApplyAppend(g0, done, mine);
    WalkListStep(owner, i, holes, parentId, relationship, whole, done);
  }

  // ---------------------------------------------------------------------
  // Properties of the walk

  /** Some event of the trace stores key k. */
  ghost predicate Stored(evs: seq<Event>, k: Value)
  {
    exists e :: e in evs && e.AddNodeEvent? && e.key == k
  }

  /** Every link of the trace has a truthy target and a stored source, and
      its target is stored too unless it is `p`, the parent of the call. */
  ghost predicate LinksClosed(evs: seq<Event>, p: Value)
  {
    forall e :: e in evs && e.AddLinkEvent? ==>
      Truthy(e.link.target) && Stored(evs, e.link.source) && (Stored(evs, e.link.target) || e.link.target == p)
  }

  lemma StoredAppend(a: seq<Event>, b: seq<Event>, k: Value)
    requires Stored(a, k) || Stored(b, k)
    ensures Stored(a + b, k)
  {
    var w :| (w in a || w in b) && w.AddNodeEvent? && w.key == k;
    assert w in a + b;
  }

  lemma ClosedAppend(a: seq<Event>, b: seq<Event>, p: Value)
    requires LinksClosed(a, p) && LinksClosed(b, p)
    ensures LinksClosed(a + b, p)
  {
    forall e | e in a + b && e.AddLinkEvent?
      ensures Truthy(e.link.target) && Stored(a + b, e.link.source)
              && (Stored(a + b, e.link.target) || e.link.target == p)
    {
      StoredAppend(a, b, e.link.source);
      if e.link.target != p {
        StoredAppend(a, b, e.link.target);
      }
    }
  }

  lemma {:induction false} WalkClosed(data: Value, p: Value, r: string)
    ensures var w := Walk(data, p, r); w.Some? ==> LinksClosed(w.value, p)
    decreases data, 3
  {
    WalkListClosed(data, 0, {}, p, r);
  }

  lemma {:induction false} WalkListClosed(owner: Value, i: nat, holes: set<nat>, p: Value, r: string)
    requires i <= |List(owner)|
    ensures var w := WalkList(owner, i, holes, p, r); w.Some? ==> LinksClosed(w.value, p)
    decreases owner, 2, |List(owner)| - i
  {
    if i < |List(owner)| {
      var node := Read(owner, holes, i);
      if !Throws(node) {
        var step := Element(node, holes, p, r);
        if step.Some? {
          ElementClosed(node, holes, p, r);
          WalkListClosed(owner, i + 1, step.value.1, p, r);
          var rest := WalkList(owner, i + 1, step.value.1, p, r);
          if rest.Some? {
            ClosedAppend(step.value.0, rest.value, p);
          }
        }
      }
    }
  }

  lemma {:induction false} ElementClosed(node: Value, holes: set<nat>, p: Value, r: string)
    requires !Throws(node)
    ensures var e := Element(node, holes, p, r); e.Some? ==> LinksClosed(e.value.0, p)
    decreases node, 1
  {
    var e := Element(node, holes, p, r);
    if e.Some? {
      var id := Get(node, "_id");
      var objects := ObjectEntries(node);
      ChildrenClosed(node, objects, id);
      var kids := WalkChildren(node, objects, id).value;
      var links := LinkEvents(node, p, r);
      var mine := AddNodeEvent(id, Spread(node));
      var evs := links + kids + [mine];
      assert e.value.0 == evs;
      assert mine in evs;
      assert Stored(evs, id);
      forall x | x in evs && x.AddLinkEvent?
        ensures Truthy(x.link.target) && Stored(evs, x.link.source)
                && (Stored(evs, x.link.target) || x.link.target == p)
      {
        if x in kids {
          StoredAppend(links, kids, x.link.source);
          StoredAppend(links + kids, [mine], x.link.source);
        } else {
          assert x in links;
        }
      }
    }
  }

  lemma {:induction false} ChildrenClosed(node: Value, objects: seq<Field>, id: Value)
    requires forall f :: f in objects ==> (node.Arr? && f.val in node.elems) || (node.Obj? && f in node.fields)
    ensures var w := WalkChildren(node, objects, id); w.Some? ==> LinksClosed(w.value, id)
    decreases node, 0, |objects|
  {
    if objects != [] {
      var f := objects[0];
      assert f in objects;
      if Truthy(f.val) {
        WalkClosed(f.val, id, f.key);
      }
      ChildrenClosed(node, objects[1..], id);
      var first := if Truthy(f.val) then Walk(f.val, id, f.key) else Some([]);
      var rest := WalkChildren(node, objects[1..], id);
      if first.Some? && rest.Some? {
        ClosedAppend(first.value, rest.value, id);
      }
    }
  }

  lemma {:induction false} LinksOfMembers(evs: seq<Event>, l: Link)
    requires l in LinksOf(evs)
    ensures AddLinkEvent(l) in evs
    decreases |evs|
  {
    var init := evs[..|evs| - 1];
    if l in LinksOf(init) {
      LinksOfMembers(init, l);
      assert forall e :: e in init ==> e in evs;
    }
  }

  lemma {:induction false} StoredKeys(evs: seq<Event>, k: Value)
    requires Stored(evs, k)
    ensures k in NodeKeys(evs)
    decreases |evs|
  {
    var init, last := evs[..|evs| - 1], evs[|evs| - 1];
    if !(last.AddNodeEvent? && last.key == k) {
      var w :| w in evs && w.AddNodeEvent? && w.key == k;
      assert evs == init + [last];
      assert w in init;
      StoredKeys(init, k);
    }
  }

  /** The graph `build` returns has no dangling link: after parsing a whole
      response, the source and the target of every link are stored nodes. */
  lemma LinksHaveEndpoints(data: Value)
    ensures var w := Walk(data, Undefined, "");
            w.Some? ==> var g := Apply(EmptyState(), w.value);
                        forall l :: l in g.links ==> l.source in g.nodes && l.target in g.nodes
  {
    var w := Walk(data, Undefined, "");
    if w.Some? {
      var evs := w.value;
      var g := Apply(EmptyState(), evs);
      WalkClosed(data, Undefined, "");
      ApplyLinks(EmptyState(), evs);
      assert g.links == LinksOf(evs);
      forall l | l in g.links
        ensures l.source in g.nodes && l.target in g.nodes
      {
        LinksOfMembers(evs, l);
        assert Truthy(l.target);
        StoredKeys(evs, l.source);
        StoredKeys(evs, l.target);
        LastNodeStored(evs, l.source);
        LastNodeStored(evs, l.target);
        LastWriteWins(EmptyState(), evs, l.source);
        LastWriteWins(EmptyState(), evs, l.target);
      }
    }
  }

  /** Null and undefined throw. Any other value that is not an array is
      stored after everything below it (post-order), and linked to the
      parent first when the parent's `_id` is truthy. */
  lemma RootStoredLast(data: Value, p: Value, r: string)
    requires !data.Arr?
    ensures Throws(data) ==> Walk(data, p, r).None?
    ensures var w := Walk(data, p, r);
            !Throws(data) && w.Some? ==>
              && |w.value| > 0
              && w.value[|w.value| - 1] == AddNodeEvent(Get(data, "_id"), Spread(data))
              && (Truthy(p) ==> w.value[0] == AddLinkEvent(Link(Get(data, "_id"), p, r)))
  {
    assert Read(data, {}, 0) == data;
    if !Throws(data) {
      var e := Element(data, {}, p, r);
      if e.Some? {
        assert WalkList(data, 1, e.value.1, p, r) == Some([]);
        assert e.value.0 + [] == e.value.0;
      }
    }
  }

  lemma {:induction false} WalkListOwner(o1: Value, o2: Value, i: nat, holes: set<nat>, p: Value, r: string)
    requires List(o1) == List(o2) && i <= |List(o1)|
    ensures WalkList(o1, i, holes, p, r) == WalkList(o2, i, holes, p, r)
    decreases |List(o1)| - i
  {
    if i < |List(o1)| {
      assert Read(o1, holes, i) == Read(o2, holes, i);
      var node := Read(o1, holes, i);
      if !Throws(node) {
        var e := Element(node, holes, p, r);
        if e.Some? {
          WalkListOwner(o1, o2, i + 1, e.value.1, p, r);
        }
      }
    }
  }

  /** A value that is not an array is parsed exactly as the one-element
      list holding it. */
  lemma NonArrayIsSingleton(data: Value, p: Value, r: string)
    requires !data.Arr?
    ensures Walk(data, p, r) == Walk(Arr([data]), p, r)
  {
    WalkListOwner(data, Arr([data]), 0, {}, p, r);
  }

  // ---------------------------------------------------------------------
  // Examples

  function Leaf(id: int): Value
  {
    Obj([Field("_id", Num(id))])
  }

  /** `{_id: id, c: [{_id: k}]}`. */
  function Parent(id: int, k: int): Value
  {
    Obj([Field("_id", Num(id)), Field("c", Arr([Leaf(k)]))])
  }

  /** When no collected value is truthy, the inner loop recurses into
      nothing. */
  lemma {:induction false} FalsyChildrenSkipped(node: Value, objects: seq<Field>, id: Value)
    requires forall f :: f in objects ==> (node.Arr? && f.val in node.elems) || (node.Obj? && f in node.fields)
    requires forall f :: f in objects ==> !Truthy(f.val)
    ensures WalkChildren(node, objects, id) == Some([])
    decreases |objects|
  {
    if objects != [] {
      assert objects[0] in objects;
      FalsyChildrenSkipped(node, objects[1..], id);
      var none: seq<Event> := [];
      assert none + none == none;
    }
  }

  /** An element none of whose collected values is truthy (every object
      field is null, or there is none) recurses into nothing: it adds its
      link to the parent and then itself, and only the `reduce`'s
      deletions change the list. */
  lemma FalsyObjectsSkipped(node: Value, holes: set<nat>, p: Value, r: string)
    requires !Throws(node)
    requires forall f :: f in ObjectEntries(node) ==> !Truthy(f.val) && f.key != "length"
    ensures var objects := ObjectEntries(node);
            && DeleteAll(holes, objects).Some?
            && Element(node, holes, p, r)
               == Some((LinkEvents(node, p, r) + [AddNodeEvent(Get(node, "_id"), Spread(node))], DeleteAll(holes, objects).value))
  {
    var objects := ObjectEntries(node);
    assert DeleteAll(holes, objects).Some? by {
      assert forall i :: 0 <= i < |objects| ==> objects[i] in objects;
      DeleteAllFacts(holes, objects);
    }
    assert WalkChildren(node, objects, Get(node, "_id")) == Some([]) by {
      FalsyChildrenSkipped(node, objects, Get(node, "_id"));
    }
    assert LinkEvents(node, p, r) + [] == LinkEvents(node, p, r);
  }

  lemma LeafElement(k: int, holes: set<nat>, p: Value, r: string)
    ensures Element(Leaf(k), holes, p, r) == Some((LinkEvents(Leaf(k), p, r) + [AddNodeEvent(Num(k), Leaf(k))], holes))
  {
    var fs := [Field("_id", Num(k))];
    assert fs[1..] == [];
    assert ObjectEntries(Leaf(k)) == ObjectFields(fs) == [];
    assert LinkEvents(Leaf(k), p, r) + [] + [AddNodeEvent(Num(k), Leaf(k))]
        == LinkEvents(Leaf(k), p, r) + [AddNodeEvent(Num(k), Leaf(k))];
  }

  lemma LeafList(k: int, p: Value)
    ensures Walk(Arr([Leaf(k)]), p, "c") == Some(LinkEvents(Leaf(k), p, "c") + [AddNodeEvent(Num(k), Leaf(k))])
  {
    var l := Arr([Leaf(k)]);
    assert Read(l, {}, 0) == Leaf(k);
    LeafElement(k, {}, p, "c");
    var evs := LinkEvents(Leaf(k), p, "c") + [AddNodeEvent(Num(k), Leaf(k))];
    assert WalkList(l, 1, {}, p, "c") == Some([]);
    assert evs + [] == evs;
  }

  lemma ParentChildren(id: int, k: int)
    ensures var objects := [Field("c", Arr([Leaf(k)]))];
            && ObjectEntries(Parent(id, k)) == objects
            && DeleteAll({}, objects) == Some({})
            && WalkChildren(Parent(id, k), objects, Num(id))
               == Some(LinkEvents(Leaf(k), Num(id), "c") + [AddNodeEvent(Num(k), Leaf(k))])
  {
    var post := Parent(id, k);
    var objects := [Field("c", Arr([Leaf(k)]))];
    var fs := post.fields;
    assert fs[1..] == objects && objects[1..] == [];
    assert ObjectFields(fs) == [] + ObjectFields(objects);
    assert ArrayIndex("c").None?;
    LeafList(k, Num(id));
    var kids := LinkEvents(Leaf(k), Num(id), "c") + [AddNodeEvent(Num(k), Leaf(k))];
    assert WalkChildren(post, objects[1..], Num(id)) == Some([]);
    assert kids + [] == kids;
  }

  /** A child is linked to its parent exactly when the parent's `_id` is
      truthy: under `_id` 0 it gets no link. The child is stored before
      the parent, and the stored copy of the parent keeps its nested list:
      the `reduce` deletes the key from the list being iterated, not from
      the node. */
  lemma ChildLinkedOnlyUnderTruthyId(id: int, k: int)
    ensures Walk(Parent(id, k), Undefined, "")
            == Some((if id != 0 then [AddLinkEvent(Link(Num(k), Num(id), "c"))] else [])
                    + [AddNodeEvent(Num(k), Leaf(k)), AddNodeEvent(Num(id), Parent(id, k))])
  {
    var post := Parent(id, k);
    ParentChildren(id, k);
    var kids := LinkEvents(Leaf(k), Num(id), "c") + [AddNodeEvent(Num(k), Leaf(k))];
    var mine := [] + kids + [AddNodeEvent(Num(id), post)];
    assert Element(post, {}, Undefined, "") == Some((mine, {}));
    assert Read(post, {}, 0) == post;
    assert WalkList(post, 1, {}, Undefined, "") == Some([]);
    assert LinkEvents(Leaf(k), Num(id), "c") == if id != 0 then [AddLinkEvent(Link(Num(k), Num(id), "c"))] else [];
    assert mine + [] == LinkEvents(Leaf(k), Num(id), "c") + [AddNodeEvent(Num(k), Leaf(k)), AddNodeEvent(Num(id), post)];
  }

  /** A null field has typeof 'object' but is falsy: it is not descended
      into. */
  lemma NullFieldSkipped()
    ensures var post := Obj([Field("_id", Num(1)), Field("u", Null)]);
            Walk(post, Undefined, "") == Some([AddNodeEvent(Num(1), post)])
  {
    var post := Obj([Field("_id", Num(1)), Field("u", Null)]);
    var objects := [Field("u", Null)];
    assert ObjectEntries(post) == objects by {
      var fs := post.fields;
      assert fs[1..] == objects && objects[1..] == [];
      assert ObjectFields(fs) == [] + ObjectFields(objects);
    }
    assert ArrayIndex("u").None?;
    assert DeleteAll({}, objects) == Some({}) by {
      assert objects[1..] == [];
    }
    var kids := WalkChildren(post, objects, Num(1));
    assert kids.Some? && |kids.value| == 0 by {
      assert objects[1..] == [];
      assert WalkChildren(post, [], Num(1)) == Some([]);
    }
    var e := Element(post, {}, Undefined, "");
    assert e.Some? && e.value.0 == [AddNodeEvent(Num(1), post)] by {
      assert LinkEvents(post, Undefined, "") == [];
      assert kids.value == [];
    }
    assert Read(post, {}, 0) == post;
    assert WalkList(post, 1, e.value.1, Undefined, "") == Some([]);
    assert e.value.0 + [] == e.value.0;
  }

  /** An object field named "1" deletes element 1 of the list being
      iterated, which then reads as undefined and makes Object.entries
      throw; a field named "length" throws at once. */
  lemma DeletionHitsTheList()
    ensures Walk(Arr([Obj([Field("1", Arr([]))]), Obj([])]), Undefined, "").None?
    ensures Walk(Obj([Field("length", Arr([]))]), Undefined, "").None?
  {
    var first := Obj([Field("1", Arr([]))]);
    var list := Arr([first, Obj([])]);
    var objects := [Field("1", Arr([]))];
    assert objects[1..] == [];
    assert ObjectEntries(first) == objects;
    assert ArrayIndex("1") == Some(1) by {
      assert DigitsValue("1") == 10 * DigitsValue("") + DigitValue('1');
    }
    assert "1" != "length";
    assert {} + {1} == {1};
    assert Delete({}, "1") == Some({1});
    assert DeleteAll({}, objects) == Some({1}) by {
      assert DeleteAll({1}, []) == Some({1});
    }
    assert Walk(Arr([]), Undefined, "1") == Some([]) by {
      assert List(Arr([])) == [];
    }
    assert Get(first, "_id") == Undefined;
    var kids := WalkChildren(first, objects, Undefined);
    assert kids.Some? by {
      assert WalkChildren(first, [], Undefined) == Some([]);
    }
    assert Read(list, {}, 0) == first;
    var e := Element(first, {}, Undefined, "");
    assert e.Some? && e.value.1 == {1};
    assert Read(list, {1}, 1) == Undefined;
    var bad := Obj([Field("length", Arr([]))]);
    assert bad.fields[1..] == [];
    assert ObjectEntries(bad) == [Field("length", Arr([]))];
    assert Read(bad, {}, 0) == bad;
  }

  // ---------------------------------------------------------------------
  // The builder

  class NodeLinkBuilder {
    var order: seq<Value>
    var nodes: map<Value, Value>
    var links: seq<Link>

    function Snapshot(): State
      reads this
    {
      State(order, nodes, links)
    }

    ghost predicate Valid()
      reads this
    {
      ValidState(Snapshot())
    }

    /** The field initialisers: an empty Map and an empty Set. */
    constructor ()
      ensures Snapshot() == EmptyState() && Valid()
    {
      order, nodes, links := [], map[], [];
    }

    /** `addNode`: `nodes.set(node._id, node)`. */
    method AddNode(node: Value)
      modifies this
      ensures Snapshot() == SetNode(old(Snapshot()), Get(node, "_id"), node)
    {
      var key := Get(node, "_id");
      if key !in nodes {
        order := order + [key];
      }
      nodes := nodes[key := node];
    }

    /** `addLink`: every link is a new object, so the Set always grows. */
    method AddLink(link: Link)
      modifies this
      ensures Snapshot() == old(Snapshot()).(links := old(links) + [link])
    {
      links := links + [link];
    }

    /** `build`: the Map's values in insertion order, and the links. */
    method Build() returns (ns: seq<Value>, ls: seq<Link>)
      requires Valid()
      ensures |ns| == |order|
      ensures forall i :: 0 <= i < |order| ==> ns[i] == nodes[order[i]]
      ensures ls == links
    {
      ns := [];
      var i := 0;
      while i < |order|
        invariant i <= |order| && |ns| == i
        invariant forall j :: 0 <= j < i ==> ns[j] == nodes[order[j]]
      {
        ns := ns + [nodes[order[i]]];
        i := i + 1;
      }
      ls := links;
    }

    /** `parse(data, parentId, relationship)`; false where it throws. */
    method Parse(data: Value, parentId: Value, relationship: string) returns (ok: bool)
      modifies this
      ensures var w := Walk(data, parentId, relationship);
              ok == w.Some? && (ok ==> Snapshot() == Apply(old(Snapshot()), w.value))
      decreases data, 3
    {
      ghost var g0 := Snapshot();
      ghost var whole := WalkList(data, 0, {}, parentId, relationship);
      ghost var done: seq<Event> := [];
      var list := if data.Arr? then data.elems else [data];
      var holes: set<nat> := {};
      var i := 0;
      assert Pending(whole, done, whole) by {
        if whole.Some? {
          assert done + whole.value == whole.value;
        }
      }
      while i < |list|
        invariant list == List(data) && i <= |list|
        invariant Snapshot() == Apply(g0, done)
        invariant Pending(whole, done, WalkList(data, i, holes, parentId, relationship))
      {
        var deleted := ParseItem(list, data, i, holes, parentId, relationship);
        if deleted.None? {
          return false;
        }
        ghost var mine := Element(Read(data, holes, i), holes, parentId, relationship).value.0;
        ParseStep(data, i, holes, parentId, relationship, whole, done, g0, deleted.value);
        done := done + mine;
        holes := deleted.value;
        i := i + 1;
      }
      WalkListEnd(data, holes, parentId, relationship, whole, done);
      return true;
    }

    /** Element i of the list, read as the loop reads it, and the body of
        the loop on it; None where the body throws. */
    method ParseItem(list: seq<Value>, data: Value, i: nat, holes: set<nat>, parentId: Value, relationship: string)
      returns (deleted: Option<set<nat>>)
      requires list == List(data) && i < |list|
      modifies this
      ensures deleted.None? ==> WalkList(data, i, holes, parentId, relationship).None?
      ensures deleted.Some? ==>
                var node := Read(data, holes, i);
                && !Throws(node) && Element(node, holes, parentId, relationship).Some?
                && deleted.value == Element(node, holes, parentId, relationship).value.1
                && Snapshot() == Apply(old(Snapshot()), Element(node, holes, parentId, relationship).value.0)
      decreases data, 2
    {
      var node := if i in holes then Undefined else list[i];
      assert node == Read(data, holes, i);
      if node.Null? || node.Undefined? {
        WalkListFails(data, i, holes, parentId, relationship);
        return None;
      }
      deleted := ParseElement(node, holes, parentId, relationship);
      if deleted.None? {
        WalkListFails(data, i, holes, parentId, relationship);
      }
    }

    /** The body of the `for` loop of `parse` for one element; returns the
        list's holes after the `reduce`, None where the body throws. */
    method ParseElement(node: Value, holes: set<nat>, parentId: Value, relationship: string)
      returns (deleted: Option<set<nat>>)
      requires !Throws(node)
      modifies this
      ensures var e := Element(node, holes, parentId, relationship);
              (deleted.Some? <==> e.Some?)
              && (deleted.Some? ==> deleted.value == e.value.1 && Snapshot() == Apply(old(Snapshot()), e.value.0))
      decreases node, 1
    {
      ghost var g0 := Snapshot();
      var id := Get(node, "_id");
      if Truthy(parentId) {
        AddLink(Link(id, parentId, relationship));
      }
      ghost var links := LinkEvents(node, parentId, relationship);
      assert Snapshot() == Apply(g0, links);
      var objects := ObjectEntries(node);
      deleted := DeleteKeys(holes, objects);
      if deleted.None? {
        return;
      }
      var childrenOk := ParseChildren(node, objects, id);
      if !childrenOk {
        return None;
      }
      ghost var kids := WalkChildren(node, objects, id).value;
      AddNode(Spread(node));
      ApplyAppend(g0, links, kids);
      ApplySnoc(g0, links + kids, AddNodeEvent(id, Spread(node)));
    }

    /** The inner `for` loop of `parse` over `objects`. */
    method ParseChildren(node: Value, objects: seq<Field>, id: Value) returns (ok: bool)
      requires forall f :: f in objects ==> (node.Arr? && f.val in node.elems) || (node.Obj? && f in node.fields)
      modifies this
      ensures var w := WalkChildren(node, objects, id);
              ok == w.Some? && (ok ==> Snapshot() == Apply(old(Snapshot()), w.value))
      decreases node, 0
    {
      ghost var g0 := Snapshot();
      ghost var whole := WalkChildren(node, objects, id);
      ghost var done: seq<Event> := [];
      ChildrenEnds(node, objects, id);
      for i := 0 to |objects|
        invariant Snapshot() == Apply(g0, done)
        invariant Pending(whole, done, WalkChildren(node, objects[i..], id))
      {
        var key, value := objects[i].key, objects[i].val;
        assert objects[i..][1..] == objects[i + 1..];
        assert objects[i] in objects;
        ghost var first: seq<Event> := [];
        if Truthy(value) {
          assert (node.Arr? && value in node.elems) || (node.Obj? && objects[i] in node.fields);
          var childOk := Parse(value, id, key);
          if !childOk {
            return false;
          }
          first := Walk(value, id, key).value;
        }
        ApplyAppend(g0, done, first);
        ghost var rest := WalkChildren(node, objects[i + 1..], id);
        if rest.Some? {
          Associative(done, first, rest.value);
        }
        done := done + first;
      }
      ChildrenEnds(node, objects, id);
      assert done + [] == done;
      return true;
    }
  }

  /** The `reduce` of `parse`: the keys of `objects` deleted from the list
      one by one; None where a deletion throws. */
  method DeleteKeys(holes: set<nat>, objects: seq<Field>) returns (r: Option<set<nat>>)
    ensures r == DeleteAll(holes, objects)
  {
    var h := holes;
    var i := 0;
    while i < |objects|
      invariant i <= |objects|
      invariant DeleteAll(holes, objects) == DeleteAll(h, objects[i..])
    {
      assert objects[i..][1..] == objects[i + 1..];
      var d := Delete(h, objects[i].key);
      if d.None? {
        return None;
      }
      h := d.value;
      i := i + 1;
    }
    return Some(h);
  }

  /** `new NodeLinkBuilder(data)`: None where the constructor throws. */
  method NewNodeLinkBuilder(data: Value) returns (r: Option<NodeLinkBuilder>)
    ensures var w := Walk(data, Undefined, "");
            (r.Some? <==> w.Some?) && (r.Some? ==> fresh(r.value) && r.value.Snapshot() == Apply(EmptyState(), w.value))
  {
    var b := new NodeLinkBuilder();
    var ok := b.Parse(data, Undefined, "");
    if ok {
      return Some(b);
    }
    return None;
  }
}
