/**
 `redact_sensitive_data` on a graph of containers that may share and refer to each other. The set of visited
 containers is one mutable object, passed down by reference and added to as the recursion goes; it is what makes
 the recursion end on cycles. Strings in the graph hold no JSON containers.
 */
module RedactionGraph {
  import opened Collections
  import opened Json
  import opened Redaction

  type Id = nat

  /** A field holds a scalar or refers to a container. */
  datatype Ref = Scalar(value: Value) | Ptr(id: Id)

  datatype Field = Field(key: string, ref: Ref)

  /** `kind` is the name of the container's type: dict, list, tuple or set. */
  datatype Node = MapNode(kind: string, fields: seq<Field>) | ListNode(kind: string, refs: seq<Ref>)

  type Graph = map<Id, Node>

  predicate RefOk(g: Graph, r: Ref) {
    match r
    case Scalar(v) => !v.Map? && !v.List? && (v.Str? ==> Reparsed(v.s).None?)
    case Ptr(id) => id in g
  }

  predicate Closed(g: Graph) {
    forall id :: id in g ==>
      match g[id]
      case MapNode(_, fields) => forall i :: 0 <= i < |fields| ==> RefOk(g, fields[i].ref)
      case ListNode(_, refs) => forall i :: 0 <= i < |refs| ==> RefOk(g, refs[i])
  }

  predicate AllOk(g: Graph, refs: seq<Ref>) {
    forall i :: 0 <= i < |refs| ==> RefOk(g, refs[i])
  }

  predicate FieldsOk(g: Graph, fields: seq<Field>) {
    forall i :: 0 <= i < |fields| ==> RefOk(g, fields[i].ref)
  }

  function Marker(kind: string): Value {
    Str("<recursive " + kind + ">")
  }

  // ---------------------------------------------------------------- specification

  /** The result, and the containers expanded on the way, in order; `visited` grows by exactly those. */
  datatype Walked<T> = Walked(out: T, expanded: seq<Id>)

  function Elements(ids: seq<Id>): set<Id> {
    set id | id in ids
  }

  /** The visited set after a walk. */
  function Seen(visited: set<Id>, expanded: seq<Id>): set<Id> {
    visited + Elements(expanded)
  }

  function Walk(g: Graph, r: Ref, visited: set<Id>): (w: Walked<Value>)
    requires Closed(g) && RefOk(g, r) && visited <= g.Keys
    ensures Once(g, visited, w.expanded)
    decreases |g.Keys - visited|, 0, 0
  {
    match r
    case Scalar(v) => Walked(v, [])
    case Ptr(id) =>
      if id in visited then Walked(Marker(g[id].kind), [])
      else
        assert g.Keys - visited == (g.Keys - (visited + {id})) + {id};
        match g[id]
        case MapNode(_, fields) =>
          var w := WalkFields(g, fields, visited + {id});
          OnceWithFirst(g, visited, id, w.expanded);
          Walked(Map(w.out), [id] + w.expanded)
        case ListNode(_, refs) =>
          var w := WalkAll(g, First100(refs), visited + {id});
          OnceWithFirst(g, visited, id, w.expanded);
          Walked(List(w.out), [id] + w.expanded)
  }

  function WalkAll(g: Graph, refs: seq<Ref>, visited: set<Id>): (w: Walked<seq<Value>>)
    requires Closed(g) && AllOk(g, refs) && visited <= g.Keys
    ensures Once(g, visited, w.expanded) && |w.out| == |refs|
    decreases |g.Keys - visited|, 1, |refs|
  {
    if refs == [] then Walked([], [])
    else
      var first := Walk(g, refs[0], visited);
      Shrinks(g, visited, first.expanded);
      var rest := WalkAll(g, refs[1..], Seen(visited, first.expanded));
      OnceConcat(g, visited, first.expanded, rest.expanded);
      Walked([first.out] + rest.out, first.expanded + rest.expanded)
  }

  function FieldWalk(g: Graph, field: Field, visited: set<Id>): (w: Walked<Value>)
    requires Closed(g) && RefOk(g, field.ref) && visited <= g.Keys
    ensures Once(g, visited, w.expanded)
    decreases |g.Keys - visited|, 0, 1
  {
    if IsSensitiveKey(field.key) then Walked(Str(REDACTED), []) else Walk(g, field.ref, visited)
  }

  function WalkFields(g: Graph, fields: seq<Field>, visited: set<Id>): (w: Walked<seq<Entry>>)
    requires Closed(g) && FieldsOk(g, fields) && visited <= g.Keys
    ensures Once(g, visited, w.expanded) && |w.out| == |fields|
    decreases |g.Keys - visited|, 1, |fields|
  {
    if fields == [] then Walked([], [])
    else
      var first := FieldWalk(g, fields[0], visited);
      Shrinks(g, visited, first.expanded);
      var rest := WalkFields(g, fields[1..], Seen(visited, first.expanded));
      OnceConcat(g, visited, first.expanded, rest.expanded);
      Walked([Entry(fields[0].key, first.out)] + rest.out, first.expanded + rest.expanded)
  }

  /** The expanded containers are containers of the graph, not visited before, and pairwise different. */
  ghost predicate Once(g: Graph, visited: set<Id>, expanded: seq<Id>) {
    && (forall i :: 0 <= i < |expanded| ==> expanded[i] in g && expanded[i] !in visited)
    && (forall i, j :: 0 <= i < j < |expanded| ==> expanded[i] != expanded[j])
  }

  lemma OnceWithFirst(g: Graph, visited: set<Id>, id: Id, expanded: seq<Id>)
    requires id in g && id !in visited && Once(g, visited + {id}, expanded)
    ensures Once(g, visited, [id] + expanded)
  {
  }

  lemma OnceConcat(g: Graph, visited: set<Id>, a: seq<Id>, b: seq<Id>)
    requires Once(g, visited, a) && Once(g, Seen(visited, a), b)
    ensures Once(g, visited, a + b)
  {
  }

  lemma Shrinks(g: Graph, visited: set<Id>, expanded: seq<Id>)
    requires Once(g, visited, expanded) && visited <= g.Keys
    ensures Seen(visited, expanded) <= g.Keys
    ensures |g.Keys - Seen(visited, expanded)| <= |g.Keys - visited|
  {
  }

  // ---------------------------------------------------------------- the recursion over the shared set

  class VisitedSet {
    var ids: set<Id>

    constructor ()
      ensures ids == {}
    {
      ids := {};
    }
  }

  lemma SeenConcat(visited: set<Id>, a: seq<Id>, b: seq<Id>)
    ensures Seen(visited, a + b) == Seen(Seen(visited, a), b)
  {
  }

  /** The first `i` items are done: what is out so far and what is left make up the whole walk. */
  ghost predicate ListSoFar(g: Graph, refs: seq<Ref>, start: set<Id>, i: nat, items: seq<Value>, seen: set<Id>)
    requires Closed(g) && AllOk(g, refs) && start <= g.Keys && i <= |refs|
  {
    && start <= seen <= g.Keys
    && WalkAll(g, refs, start).out == items + WalkAll(g, refs[i..], seen).out
    && Seen(start, WalkAll(g, refs, start).expanded) == Seen(seen, WalkAll(g, refs[i..], seen).expanded)
  }

  lemma ListTurn(g: Graph, refs: seq<Ref>, start: set<Id>, i: nat, items: seq<Value>, seen: set<Id>)
    requires Closed(g) && AllOk(g, refs) && start <= g.Keys && i < |refs|
    requires ListSoFar(g, refs, start, i, items, seen)
    ensures var w := Walk(g, refs[i], seen);
            ListSoFar(g, refs, start, i + 1, items + [w.out], Seen(seen, w.expanded))
  {
  }

  lemma ListDone(g: Graph, refs: seq<Ref>, start: set<Id>, items: seq<Value>, seen: set<Id>)
    requires Closed(g) && AllOk(g, refs) && start <= g.Keys && ListSoFar(g, refs, start, |refs|, items, seen)
    ensures items == WalkAll(g, refs, start).out && seen == Seen(start, WalkAll(g, refs, start).expanded)
  {
  }

  lemma FieldStep(g: Graph, fields: seq<Field>, visited: set<Id>)
    requires Closed(g) && FieldsOk(g, fields) && visited <= g.Keys && fields != []
    ensures var w := FieldWalk(g, fields[0], visited);
            var next := Seen(visited, w.expanded);
            && next <= g.Keys
            && WalkFields(g, fields, visited).out
               == [Entry(fields[0].key, w.out)] + WalkFields(g, fields[1..], next).out
            && Seen(visited, WalkFields(g, fields, visited).expanded)
               == Seen(next, WalkFields(g, fields[1..], next).expanded)
  {
  }

  ghost predicate FieldsSoFar(
    g: Graph, fields: seq<Field>, start: set<Id>, i: nat, entries: seq<Entry>, seen: set<Id>)
    requires Closed(g) && FieldsOk(g, fields) && start <= g.Keys && i <= |fields|
  {
    && start <= seen <= g.Keys
    && WalkFields(g, fields, start).out == entries + WalkFields(g, fields[i..], seen).out
    && Seen(start, WalkFields(g, fields, start).expanded) == Seen(seen, WalkFields(g, fields[i..], seen).expanded)
  }

  lemma FieldTurn(g: Graph, fields: seq<Field>, start: set<Id>, i: nat, entries: seq<Entry>, seen: set<Id>)
    requires Closed(g) && FieldsOk(g, fields) && start <= g.Keys && i < |fields|
    requires FieldsSoFar(g, fields, start, i, entries, seen)
    ensures var w := FieldWalk(g, fields[i], seen);
            FieldsSoFar(g, fields, start, i + 1, entries + [Entry(fields[i].key, w.out)], Seen(seen, w.expanded))
  {
    var w := FieldWalk(g, fields[i], seen);
    FieldStep(g, fields[i..], seen);
    assert fields[i..][1..] == fields[i + 1..];
    Regroup(entries, Entry(fields[i].key, w.out), WalkFields(g, fields[i + 1..], Seen(seen, w.expanded)).out);
  }

  lemma FieldsDone(g: Graph, fields: seq<Field>, start: set<Id>, entries: seq<Entry>, seen: set<Id>)
    requires Closed(g) && FieldsOk(g, fields) && start <= g.Keys
    requires FieldsSoFar(g, fields, start, |fields|, entries, seen)
    ensures entries == WalkFields(g, fields, start).out && seen == Seen(start, WalkFields(g, fields, start).expanded)
  {
  }

  method RedactFrom(g: Graph, r: Ref, visited: VisitedSet) returns (out: Value)
    requires Closed(g) && RefOk(g, r) && visited.ids <= g.Keys
    modifies visited
    ensures var w := Walk(g, r, old(visited.ids)); out == w.out && visited.ids == Seen(old(visited.ids), w.expanded)
    decreases g.Keys - visited.ids, 0
  {
    if r.Scalar? {
      return r.value;
    }
    var id := r.id;
    if id in visited.ids {
      return Marker(g[id].kind);
    }
    visited.ids := visited.ids + {id};
    match g[id] {
      case MapNode(_, fields) =>
        SeenConcat(old(visited.ids), [id], WalkFields(g, fields, visited.ids).expanded);
        var entries := RedactFields(g, fields, visited);
        return Map(entries);
      case ListNode(_, refs) =>
        SeenConcat(old(visited.ids), [id], WalkAll(g, First100(refs), visited.ids).expanded);
        var items := RedactList(g, First100(refs), visited);
        return List(items);
    }
  }

  method RedactList(g: Graph, refs: seq<Ref>, visited: VisitedSet) returns (items: seq<Value>)
    requires Closed(g) && AllOk(g, refs) && visited.ids <= g.Keys
    modifies visited
    ensures var w := WalkAll(g, refs, old(visited.ids));
            items == w.out && visited.ids == Seen(old(visited.ids), w.expanded)
    decreases g.Keys - visited.ids, 1
  {
    ghost var start := visited.ids;
    items := [];
    assert refs[0..] == refs;
    for i := 0 to |refs|
      invariant ListSoFar(g, refs, start, i, items, visited.ids)
    {
      ListTurn(g, refs, start, i, items, visited.ids);
      var item := RedactFrom(g, refs[i], visited);
      items := items + [item];
    }
    ListDone(g, refs, start, items, visited.ids);
  }

  method RedactField(g: Graph, field: Field, visited: VisitedSet) returns (out: Value)
    requires Closed(g) && RefOk(g, field.ref) && visited.ids <= g.Keys
    modifies visited
    ensures var w := FieldWalk(g, field, old(visited.ids));
            out == w.out && visited.ids == Seen(old(visited.ids), w.expanded)
    decreases g.Keys - visited.ids, 1
  {
    if IsSensitiveKey(field.key) {
      return Str(REDACTED);
    }
    out := RedactFrom(g, field.ref, visited);
  }

  method RedactFields(g: Graph, fields: seq<Field>, visited: VisitedSet) returns (entries: seq<Entry>)
    requires Closed(g) && FieldsOk(g, fields) && visited.ids <= g.Keys
    modifies visited
    ensures var w := WalkFields(g, fields, old(visited.ids));
            entries == w.out && visited.ids == Seen(old(visited.ids), w.expanded)
    decreases g.Keys - visited.ids, 2
  {
    ghost var start := visited.ids;
    entries := [];
    assert fields[0..] == fields;
    for i := 0 to |fields|
      invariant FieldsSoFar(g, fields, start, i, entries, visited.ids)
    {
      FieldTurn(g, fields, start, i, entries, visited.ids);
      var value := RedactField(g, fields[i], visited);
      entries := entries + [Entry(fields[i].key, value)];
    }
    FieldsDone(g, fields, start, entries, visited.ids);
  }

  /** On any finite graph, cyclic or shared, redaction ends and expands each container at most once. */
  lemma EachContainerOnce(g: Graph, r: Ref)
    requires Closed(g) && RefOk(g, r)
    ensures var expanded := Walk(g, r, {}).expanded;
            && (forall i, j :: 0 <= i < j < |expanded| ==> expanded[i] != expanded[j])
            && Elements(expanded) <= g.Keys && |expanded| <= |g|
  {
    DistinctSize(Walk(g, r, {}).expanded, g.Keys);
  }

  // ---------------------------------------------------------------- trees

  /**
   The tree `v` shows what redaction can see of the graph behind `r`: it may differ from the graph, and the graph
   may even be cyclic, under sensitive keys and behind the hundredth item.
   */
  predicate Unfolds(g: Graph, r: Ref, v: Value)
    decreases Weight(v), 0
  {
    match r
    case Scalar(x) => v == x
    case Ptr(id) =>
      id in g &&
      match g[id]
      case MapNode(_, fields) => v.Map? && UnfoldsFields(g, fields, v.entries)
      case ListNode(_, refs) =>
        v.List? &&
        (WeightOfPrefix(v.items, |First100(v.items)|);
         UnfoldsAll(g, First100(refs), First100(v.items)))
  }

  predicate UnfoldsAll(g: Graph, refs: seq<Ref>, values: seq<Value>)
    decreases WeightOfItems(values), 1
  {
    if refs == [] || values == [] then refs == [] && values == []
    else Unfolds(g, refs[0], values[0]) && UnfoldsAll(g, refs[1..], values[1..])
  }

  predicate UnfoldsField(g: Graph, field: Field, e: Entry)
    decreases Weight(e.value), 1
  {
    field.key == e.key && (IsSensitiveKey(field.key) || Unfolds(g, field.ref, e.value))
  }

  predicate UnfoldsFields(g: Graph, fields: seq<Field>, entries: seq<Entry>)
    decreases WeightOfEntries(entries), 2
  {
    if fields == [] || entries == [] then fields == [] && entries == []
    else UnfoldsField(g, fields[0], entries[0]) && UnfoldsFields(g, fields[1..], entries[1..])
  }

  /** The containers that redaction can see behind `r`. */
  function VisibleCells(g: Graph, r: Ref, v: Value): set<Id>
    requires Unfolds(g, r, v)
    decreases Weight(v), 1
  {
    match r
    case Scalar(_) => {}
    case Ptr(id) => {id} + CellsBelow(g, id, v)
  }

  function CellsBelow(g: Graph, id: Id, v: Value): set<Id>
    requires Unfolds(g, Ptr(id), v)
    decreases Weight(v), 0
  {
    match g[id]
    case MapNode(_, fields) => CellsOfFields(g, fields, v.entries)
    case ListNode(_, refs) =>
      WeightOfPrefix(v.items, |First100(v.items)|);
      CellsOfAll(g, First100(refs), First100(v.items))
  }

  function CellsOfAll(g: Graph, refs: seq<Ref>, values: seq<Value>): set<Id>
    requires UnfoldsAll(g, refs, values)
    decreases WeightOfItems(values), 2
  {
    if refs == [] then {} else VisibleCells(g, refs[0], values[0]) + CellsOfAll(g, refs[1..], values[1..])
  }

  function CellsOfField(g: Graph, field: Field, e: Entry): set<Id>
    requires UnfoldsField(g, field, e)
    decreases Weight(e.value), 2
  {
    if IsSensitiveKey(field.key) then {} else VisibleCells(g, field.ref, e.value)
  }

  function CellsOfFields(g: Graph, fields: seq<Field>, entries: seq<Entry>): set<Id>
    requires UnfoldsFields(g, fields, entries)
    decreases WeightOfEntries(entries), 3
  {
    if fields == [] then {} else CellsOfField(g, fields[0], entries[0]) + CellsOfFields(g, fields[1..], entries[1..])
  }

  /** Redaction cannot see any container on two ways. */
  predicate UnsharedVisibly(g: Graph, r: Ref, v: Value)
    requires Unfolds(g, r, v)
    decreases Weight(v), 0
  {
    match r
    case Scalar(_) => true
    case Ptr(id) =>
      id !in CellsBelow(g, id, v) &&
      match g[id]
      case MapNode(_, fields) => UnsharedFields(g, fields, v.entries)
      case ListNode(_, refs) =>
        WeightOfPrefix(v.items, |First100(v.items)|);
        UnsharedAll(g, First100(refs), First100(v.items))
  }

  predicate UnsharedAll(g: Graph, refs: seq<Ref>, values: seq<Value>)
    requires UnfoldsAll(g, refs, values)
    decreases WeightOfItems(values), 1
  {
    refs == []
    || (&& UnsharedVisibly(g, refs[0], values[0]) && UnsharedAll(g, refs[1..], values[1..])
        && VisibleCells(g, refs[0], values[0]) !! CellsOfAll(g, refs[1..], values[1..]))
  }

  predicate UnsharedField(g: Graph, field: Field, e: Entry)
    requires UnfoldsField(g, field, e)
    decreases Weight(e.value), 1
  {
    IsSensitiveKey(field.key) || UnsharedVisibly(g, field.ref, e.value)
  }

  predicate UnsharedFields(g: Graph, fields: seq<Field>, entries: seq<Entry>)
    requires UnfoldsFields(g, fields, entries)
    decreases WeightOfEntries(entries), 2
  {
    fields == []
    || (&& UnsharedField(g, fields[0], entries[0]) && UnsharedFields(g, fields[1..], entries[1..])
        && CellsOfField(g, fields[0], entries[0]) !! CellsOfFields(g, fields[1..], entries[1..]))
  }

  /**
   One reference and then others: `first` and `rest` say that their results are those of the trees, which depends
   on `alone` and `apart` and on the cells not being visited yet.
   */
  lemma OneThenOthers(
    visited: set<Id>, expanded: seq<Id>, cells: set<Id>, others: set<Id>,
    first: bool, alone: bool, rest: bool, apart: bool)
    requires first <==> alone && cells !! visited
    requires first ==> Elements(expanded) == cells
    requires rest <==> apart && others !! Seen(visited, expanded)
    ensures first && rest <==> alone && apart && cells !! others && (cells + others) !! visited
  {
  }

  lemma ElementsConcat(a: seq<Id>, b: seq<Id>)
    ensures Elements(a + b) == Elements(a) + Elements(b)
  {
    assert forall id :: id in a + b <==> id in a || id in b;
  }

  /**
   The result is that of the tree if and only if redaction sees no container on two ways and none that was visited
   before; then it expands just the containers it sees.
   */
  lemma {:induction false} TreeIffUnshared(g: Graph, r: Ref, v: Value, visited: set<Id>)
    requires Closed(g) && RefOk(g, r) && visited <= g.Keys && Unfolds(g, r, v)
    ensures Walk(g, r, visited).out == Redact(v)
            <==> UnsharedVisibly(g, r, v) && VisibleCells(g, r, v) !! visited
    ensures Walk(g, r, visited).out == Redact(v) ==>
              Elements(Walk(g, r, visited).expanded) == VisibleCells(g, r, v)
    decreases Weight(v), 0
  {
    if r.Ptr? && r.id !in visited {
      var id := r.id;
      match g[id] {
        case MapNode(_, fields) =>
          FieldsIffUnshared(g, fields, v.entries, visited + {id});
        case ListNode(_, refs) =>
          WeightOfPrefix(v.items, |First100(v.items)|);
          ListIffUnshared(g, First100(refs), First100(v.items), visited + {id});
      }
    }
  }

  lemma {:induction false} ListIffUnshared(g: Graph, refs: seq<Ref>, values: seq<Value>, visited: set<Id>)
    requires Closed(g) && AllOk(g, refs) && visited <= g.Keys && UnfoldsAll(g, refs, values)
    ensures WalkAll(g, refs, visited).out == RedactItems(values)
            <==> UnsharedAll(g, refs, values) && CellsOfAll(g, refs, values) !! visited
    ensures WalkAll(g, refs, visited).out == RedactItems(values) ==>
              Elements(WalkAll(g, refs, visited).expanded) == CellsOfAll(g, refs, values)
    decreases WeightOfItems(values), 1
  {
    if refs != [] {
      var first := Walk(g, refs[0], visited);
      TreeIffUnshared(g, refs[0], values[0], visited);
      Shrinks(g, visited, first.expanded);
      var seen := Seen(visited, first.expanded);
      ListIffUnshared(g, refs[1..], values[1..], seen);
      var rest := WalkAll(g, refs[1..], seen);
      SameHeadAndTail(first.out, rest.out, Redact(values[0]), RedactItems(values[1..]));
      OneThenOthers(visited, first.expanded,
                    VisibleCells(g, refs[0], values[0]), CellsOfAll(g, refs[1..], values[1..]),
                    first.out == Redact(values[0]), UnsharedVisibly(g, refs[0], values[0]),
                    rest.out == RedactItems(values[1..]), UnsharedAll(g, refs[1..], values[1..]));
      ElementsConcat(first.expanded, rest.expanded);
    }
  }

  lemma {:induction false} FieldIffUnshared(g: Graph, field: Field, e: Entry, visited: set<Id>)
    requires Closed(g) && RefOk(g, field.ref) && visited <= g.Keys && UnfoldsField(g, field, e)
    ensures FieldWalk(g, field, visited).out == RedactValue(e)
            <==> UnsharedField(g, field, e) && CellsOfField(g, field, e) !! visited
    ensures FieldWalk(g, field, visited).out == RedactValue(e) ==>
              Elements(FieldWalk(g, field, visited).expanded) == CellsOfField(g, field, e)
    decreases Weight(e.value), 1
  {
    if !IsSensitiveKey(field.key) {
      TreeIffUnshared(g, field.ref, e.value, visited);
    }
  }

  lemma {:induction false} FieldsIffUnshared(g: Graph, fields: seq<Field>, entries: seq<Entry>, visited: set<Id>)
    requires Closed(g) && FieldsOk(g, fields) && visited <= g.Keys && UnfoldsFields(g, fields, entries)
    ensures WalkFields(g, fields, visited).out == RedactEntries(entries)
            <==> UnsharedFields(g, fields, entries) && CellsOfFields(g, fields, entries) !! visited
    ensures WalkFields(g, fields, visited).out == RedactEntries(entries) ==>
              Elements(WalkFields(g, fields, visited).expanded) == CellsOfFields(g, fields, entries)
    decreases WeightOfEntries(entries), 2
  {
    if fields != [] {
      var first := FieldWalk(g, fields[0], visited);
      FieldIffUnshared(g, fields[0], entries[0], visited);
      Shrinks(g, visited, first.expanded);
      var seen := Seen(visited, first.expanded);
      FieldsIffUnshared(g, fields[1..], entries[1..], seen);
      var rest := WalkFields(g, fields[1..], seen);
      SameHeadAndTail(Entry(fields[0].key, first.out), rest.out,
                      Entry(entries[0].key, RedactValue(entries[0])), RedactEntries(entries[1..]));
      OneThenOthers(visited, first.expanded,
                    CellsOfField(g, fields[0], entries[0]), CellsOfFields(g, fields[1..], entries[1..]),
                    first.out == RedactValue(entries[0]), UnsharedField(g, fields[0], entries[0]),
                    rest.out == RedactEntries(entries[1..]), UnsharedFields(g, fields[1..], entries[1..]));
      ElementsConcat(first.expanded, rest.expanded);
    }
  }

  /** One list twice in another, and no cycle. */
  const SHARED: Graph := map[0 := ListNode("list", [Ptr(1), Ptr(1)]), 1 := ListNode("list", [])]

  lemma SharedWalk()
    ensures Closed(SHARED) && Walk(SHARED, Ptr(0), {}).out == List([List([]), Str("<recursive list>")])
  {
    var one, two := [Ptr(1)], [Ptr(1), Ptr(1)];
    assert one[1..] == [] && two[1..] == one;
    assert Walk(SHARED, Ptr(1), {0}) == Walked(List([]), [1]);
    assert Seen({0}, [1]) == {0, 1};
    assert "<recursive " + "list" + ">" == "<recursive list>";
    assert WalkAll(SHARED, one, {0, 1}).out == [Str("<recursive list>")];
    assert WalkAll(SHARED, two, {0}).out == [List([]), Str("<recursive list>")];
    var none: set<Id> := {};
    assert none + {0} == {0};
    assert SHARED[0] == ListNode("list", two) && First100(two) == two;
  }

  /** The second time the inner list is rendered as recursive, so the result is not that of the tree. */
  lemma SharedIsNotRecursive()
    ensures var tree := List([List([]), List([])]);
            && Unfolds(SHARED, Ptr(0), tree) && !UnsharedVisibly(SHARED, Ptr(0), tree)
            && Redact(tree) == tree && Walk(SHARED, Ptr(0), {}).out == List([List([]), Str("<recursive list>")])
  {
    SharedWalk();
    var items: seq<Value> := [List([]), List([])];
    assert items[1..] == [List([])];
    assert RedactItems(items) == items;
    var refs: seq<Ref> := [Ptr(1), Ptr(1)];
    assert refs[1..] == [Ptr(1)] && SHARED[0] == ListNode("list", refs);
    assert Unfolds(SHARED, Ptr(1), List([]));
    assert UnfoldsAll(SHARED, refs, items);
    TreeIffUnshared(SHARED, Ptr(0), List(items), {});
  }
}
