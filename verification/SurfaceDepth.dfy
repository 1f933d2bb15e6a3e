/**
 * The depth rule for Actor surfaces: a surface is a graph of components named by id, and no path from
 * the root may have more than six. The search visits a component again only at a greater depth.
 */
module SurfaceDepth {

  const MAX_DEPTH := 6

  datatype Children = Listed(ids: seq<string>) | Template(componentId: string)

  /** A component, as far as its children are concerned. */
  datatype Kind =
    | Layout(children: Children)
    | Wrapper(child: string)
    | Tabs(tabs: seq<string>)
    | Modal(trigger: string, content: string)
    | Plain

  datatype Component = Component(id: string, kind: Kind)

  /** `actorSurfaceChildIds` */
  function ChildIds(c: Component): seq<string> {
    match c.kind
    case Layout(Listed(ids)) => ids
    case Layout(Template(componentId)) => [componentId]
    case Wrapper(child) => [child]
    case Tabs(tabs) => tabs
    case Modal(trigger, content) => [trigger, content]
    case Plain => []
  }

  /** Is this the id of a child, wherever it stands in the component? */
  predicate Mentions(c: Component, id: string) {
    || (c.kind.Layout? && c.kind.children.Listed? && exists i :: 0 <= i < |c.kind.children.ids| && c.kind.children.ids[i] == id)
    || (c.kind.Layout? && c.kind.children.Template? && c.kind.children.componentId == id)
    || (c.kind.Wrapper? && c.kind.child == id)
    || (c.kind.Tabs? && exists i :: 0 <= i < |c.kind.tabs| && c.kind.tabs[i] == id)
    || (c.kind.Modal? && (c.kind.trigger == id || c.kind.content == id))
  }

  /** No mention of a component is forgotten, and nothing else is a child. */
  lemma ChildrenAreMentions(c: Component, id: string)
    ensures id in ChildIds(c) <==> Mentions(c, id)
  {
  }

  /** `new Map(components.map(c => [c.id, c]))`: the last component with an id is the one it names. */
  function ById(components: seq<Component>): (m: map<string, nat>)
    ensures forall id :: id in m <==> exists i :: 0 <= i < |components| && components[i].id == id
    ensures forall id :: id in m ==> m[id] < |components| && components[m[id]].id == id
  {
    if components == [] then map[]
    else
      var n := |components| - 1;
      ById(components[..n])[components[n].id := n]
  }

  function Named(components: seq<Component>, id: string): Component
    requires id in ById(components)
  {
    components[ById(components)[id]]
  }

  /** A path of components from the root, each a child of the one before. */
  ghost predicate RootPath(components: seq<Component>, path: seq<string>) {
    && |path| > 0 && path[0] == "root"
    && (forall i :: 0 <= i < |path| ==> path[i] in ById(components))
    && (forall i :: 0 <= i < |path| - 1 ==> path[i + 1] in ChildIds(Named(components, path[i])))
  }

  predicate Distinct(path: seq<string>) {
    forall i, j :: 0 <= i < j < |path| ==> path[i] != path[j]
  }

  /** No path from the root comes back to a component. */
  ghost predicate Acyclic(components: seq<Component>) {
    forall path :: RootPath(components, path) ==> Distinct(path)
  }

  ghost predicate PathTo(components: seq<Component>, id: string, length: nat) {
    exists path :: RootPath(components, path) && Distinct(path) && |path| == length && path[length - 1] == id
  }

  // ---------------------------------------------------------------- what the search computes

  /** The recorded depths, and the indices of the components reported as too deep. */
  datatype Search = Search(seen: map<string, nat>, errors: seq<nat>)

  function VisitFrom(components: seq<Component>, id: string, depth: nat, ancestors: set<string>, s: Search): Search
    decreases ById(components).Keys - ancestors, 0
  {
    if id !in ById(components) || id in ancestors || (id in s.seen && s.seen[id] >= depth) then s
    else if depth > MAX_DEPTH then Search(s.seen[id := depth], s.errors + [ById(components)[id]])
    else
      assert ById(components).Keys - (ancestors + {id}) < ById(components).Keys - ancestors;
      VisitAll(components, ChildIds(Named(components, id)), depth + 1, ancestors + {id}, s.(seen := s.seen[id := depth]))
  }

  function VisitAll(components: seq<Component>, ids: seq<string>, depth: nat, ancestors: set<string>, s: Search): Search
    decreases ById(components).Keys - ancestors, |ids|
  {
    if ids == [] then s
    else
      var n := |ids| - 1;
      VisitFrom(components, ids[n], depth, ancestors, VisitAll(components, ids[..n], depth, ancestors, s))
  }

  /** What is reported of a surface. */
  function Reports(components: seq<Component>): seq<nat> {
    VisitFrom(components, "root", 1, {}, Search(map[], [])).errors
  }

  // ---------------------------------------------------------------- what the search leaves behind

  /** Every recorded depth is the length of a real path without repetition. */
  ghost predicate Real(components: seq<Component>, seen: map<string, nat>) {
    forall id :: id in seen ==> PathTo(components, id, seen[id])
  }

  /** A component within the limit has all its children recorded one deeper. */
  ghost predicate Expanded(components: seq<Component>, seen: map<string, nat>, id: string)
    requires id in seen
  {
    id in ById(components) && seen[id] <= MAX_DEPTH ==>
      forall c :: c in ChildIds(Named(components, id)) && c in ById(components) ==> c in seen && seen[c] > seen[id]
  }

  ghost predicate ExpandedBut(components: seq<Component>, seen: map<string, nat>, open: set<string>) {
    forall id :: id in seen && id !in open ==> Expanded(components, seen, id)
  }

  ghost predicate Grows(before: map<string, nat>, after: map<string, nat>, fixed: set<string>) {
    && (forall id :: id in before ==> id in after && before[id] <= after[id])
    && (forall id :: id in fixed && id in after ==> id in before && after[id] == before[id])
  }

  /** An error is reported exactly for the components recorded beyond the limit. */
  ghost predicate Reported(components: seq<Component>, seen: map<string, nat>, errors: seq<nat>) {
    && seen.Keys <= ById(components).Keys
    && (forall e :: e in errors ==> exists id :: id in seen && seen[id] > MAX_DEPTH && ById(components)[id] == e)
    && (forall id :: id in seen && seen[id] > MAX_DEPTH ==> ById(components)[id] in errors)
  }

  /** The first `count` children are recorded deeper than their parent. */
  ghost predicate ChildrenDeeper(components: seq<Component>, seen: map<string, nat>, children: seq<string>,
                                 count: nat, depth: nat)
    requires count <= |children|
  {
    forall j :: 0 <= j < count && children[j] in ById(components) ==>
      children[j] in seen && seen[children[j]] > depth
  }

  lemma ExtendPath(components: seq<Component>, path: seq<string>, child: string)
    requires RootPath(components, path) && child in ChildIds(Named(components, path[|path| - 1]))
    requires child in ById(components)
    ensures RootPath(components, path + [child])
  {
    var longer := path + [child];
    hide ById, ChildIds, Named;
    assert forall i :: 0 <= i < |path| ==> longer[i] == path[i];
  }

  lemma RecordReal(components: seq<Component>, seen: map<string, nat>, path: seq<string>, id: string)
    requires Real(components, seen)
    requires RootPath(components, path + [id]) && Distinct(path) && id !in path
    ensures Real(components, seen[id := |path| + 1])
  {
    var here := path + [id];
    hide RootPath;
    assert Distinct(here) && |here| == |path| + 1 && here[|path|] == id;
    assert PathTo(components, id, |path| + 1);
  }

  lemma RecordWithin(components: seq<Component>, seen: map<string, nat>, errors: seq<nat>, id: string, depth: nat)
    requires Reported(components, seen, errors) && id in ById(components) && depth <= MAX_DEPTH
    requires id in seen ==> seen[id] < depth
    ensures Reported(components, seen[id := depth], errors)
  {
    hide ById;
  }

  lemma RecordTooDeep(components: seq<Component>, seen: map<string, nat>, errors: seq<nat>, id: string, depth: nat)
    requires Reported(components, seen, errors) && id in ById(components) && depth > MAX_DEPTH
    ensures Reported(components, seen[id := depth], errors + [ById(components)[id]])
  {
    hide ById;
    var after, reported := seen[id := depth], errors + [ById(components)[id]];
    forall e | e in reported
      ensures exists x :: x in after && after[x] > MAX_DEPTH && ById(components)[x] == e
    {
      if e in errors {
        var x :| x in seen && seen[x] > MAX_DEPTH && ById(components)[x] == e;
        assert x in after && after[x] > MAX_DEPTH;
      } else {
        assert id in after;
      }
    }
  }

  lemma RecordExpanded(components: seq<Component>, seen: map<string, nat>, open: set<string>, id: string, depth: nat)
    requires ExpandedBut(components, seen, open) && (id in seen ==> seen[id] <= depth)
    ensures ExpandedBut(components, seen[id := depth], open + {id})
    ensures depth > MAX_DEPTH ==> ExpandedBut(components, seen[id := depth], open)
  {
    hide ById, ChildIds, Named;
    var after := seen[id := depth];
    forall x | x in after && x !in open && (x != id || depth > MAX_DEPTH)
      ensures Expanded(components, after, x)
    {
      if x != id { assert Expanded(components, seen, x); }
    }
  }

  lemma CloseExpanded(components: seq<Component>, seen: map<string, nat>, open: set<string>, id: string)
    requires id in seen && id in ById(components) && ExpandedBut(components, seen, open + {id})
    requires var children := ChildIds(Named(components, id));
      ChildrenDeeper(components, seen, children, |children|, seen[id])
    ensures ExpandedBut(components, seen, open)
  {
    hide ById, ChildIds, Named;
    assert Expanded(components, seen, id);
  }

  lemma GrowsOnce(seen: map<string, nat>, fixed: set<string>, id: string, depth: nat)
    requires id !in fixed && (id in seen ==> seen[id] <= depth)
    ensures Grows(seen, seen[id := depth], fixed)
  {
  }

  lemma GrowsOn(a: map<string, nat>, b: map<string, nat>, c: map<string, nat>, fixed: set<string>, more: set<string>)
    requires Grows(a, b, fixed) && Grows(b, c, more) && fixed <= more
    ensures Grows(a, c, fixed)
  {
  }

  /** One more child is deeper, and those before it stay so. */
  lemma NextChild(components: seq<Component>, before: map<string, nat>, after: map<string, nat>, fixed: set<string>,
                  children: seq<string>, count: nat, depth: nat)
    requires count < |children| && ChildrenDeeper(components, before, children, count, depth)
    requires Grows(before, after, fixed)
    requires children[count] in ById(components) ==> children[count] in after && after[children[count]] > depth
    ensures ChildrenDeeper(components, after, children, count + 1, depth)
  {
    hide ById;
  }

  lemma ChildIsNew(components: seq<Component>, path: seq<string>, child: string)
    requires Acyclic(components) && RootPath(components, path + [child])
    ensures child !in path
  {
    hide RootPath;
    var longer := path + [child];
    assert Distinct(longer);
    forall i | 0 <= i < |path|
      ensures path[i] != child
    {
      assert longer[i] != longer[|path|];
    }
  }

  predicate Fresh(id: string, depth: nat, ancestors: set<string>, s: Search) {
    id !in ancestors && (id in s.seen ==> s.seen[id] < depth)
  }

  lemma Pruned(components: seq<Component>, id: string, depth: nat, ancestors: set<string>, s: Search)
    requires id !in ById(components) || !Fresh(id, depth, ancestors, s)
    ensures VisitFrom(components, id, depth, ancestors, s) == s
  {
  }

  lemma TooDeep(components: seq<Component>, id: string, depth: nat, ancestors: set<string>, s: Search)
    requires id in ById(components) && Fresh(id, depth, ancestors, s) && depth > MAX_DEPTH
    ensures VisitFrom(components, id, depth, ancestors, s)
      == Search(s.seen[id := depth], s.errors + [ById(components)[id]])
  {
  }

  lemma Enter(components: seq<Component>, id: string, depth: nat, ancestors: set<string>, s: Search)
    requires id in ById(components) && Fresh(id, depth, ancestors, s) && depth <= MAX_DEPTH
    ensures var t := Search(s.seen[id := depth], s.errors);
      VisitFrom(components, id, depth, ancestors, s)
      == VisitAll(components, ChildIds(Named(components, id)), depth + 1, ancestors + {id}, t)
  {
    hide VisitAll;
  }

  lemma NoneVisited(components: seq<Component>, ids: seq<string>, depth: nat, ancestors: set<string>, s: Search)
    ensures VisitAll(components, ids[..0], depth, ancestors, s) == s
  {
  }

  lemma OneMoreVisited(components: seq<Component>, ids: seq<string>, i: nat, depth: nat, ancestors: set<string>, s: Search)
    requires i < |ids|
    ensures VisitAll(components, ids[..i + 1], depth, ancestors, s)
      == VisitFrom(components, ids[i], depth, ancestors, VisitAll(components, ids[..i], depth, ancestors, s))
  {
    hide VisitFrom, ById;
    assert ids[..i + 1][..i] == ids[..i];
  }

  class DepthSearch {
    const components: seq<Component>
    var seenDepth: map<string, nat>
    /** The indices of the components reported as too deep. */
    var errors: seq<nat>

    constructor (components: seq<Component>)
      ensures this.components == components && seenDepth == map[] && errors == []
    {
      this.components := components;
      seenDepth, errors := map[], [];
    }

    /** `visit`; `path` is the path of ancestors. */
    method Visit(id: string, depth: nat, ancestors: set<string>, ghost path: seq<string>)
      requires depth == |path| + 1 && ancestors == (set a | a in path) && Distinct(path)
      requires id in ById(components) ==> RootPath(components, path + [id])
      requires Real(components, seenDepth) && Reported(components, seenDepth, errors)
      requires Acyclic(components) ==> ExpandedBut(components, seenDepth, ancestors)
      modifies this
      ensures Real(components, seenDepth) && Reported(components, seenDepth, errors)
      ensures Grows(old(seenDepth), seenDepth, ancestors)
      ensures id in ById(components) && id !in ancestors ==> id in seenDepth && seenDepth[id] >= depth
      ensures Acyclic(components) ==> ExpandedBut(components, seenDepth, ancestors)
      ensures Search(seenDepth, errors)
           == VisitFrom(components, id, depth, ancestors, Search(old(seenDepth), old(errors)))
      decreases ById(components).Keys - ancestors
    {
      hide ById, ChildIds, Named, RootPath, Real, Reported, ExpandedBut, ChildrenDeeper, Acyclic, VisitFrom, VisitAll;
      ghost var start := Search(seenDepth, errors);
      if id !in ById(components) || id in ancestors || (id in seenDepth && seenDepth[id] >= depth) {
        Pruned(components, id, depth, ancestors, start);
        return;
      }
      ghost var was, here := seenDepth, path + [id];
      RecordReal(components, was, path, id);
      GrowsOnce(was, ancestors, id, depth);
      if Acyclic(components) {
        RecordExpanded(components, was, ancestors, id, depth);
      }
      seenDepth := seenDepth[id := depth];
      if depth > MAX_DEPTH {
        TooDeep(components, id, depth, ancestors, start);
        RecordTooDeep(components, was, errors, id, depth);
        errors := errors + [ById(components)[id]];
        return;
      }
      RecordWithin(components, was, errors, id, depth);
      var next := ancestors + {id};
      assert next == set a | a in here;
      assert ById(components).Keys - next < ById(components).Keys - ancestors;
      var children := ChildIds(Named(components, id));
      ghost var begun := Search(seenDepth, errors);
      Enter(components, id, depth, ancestors, start);
      NoneVisited(components, children, depth + 1, next, begun);
      hide Grows, Distinct;
      NoChildYet(components, seenDepth, children, depth);
      for i := 0 to |children|
        invariant Real(components, seenDepth) && Reported(components, seenDepth, errors)
        invariant Grows(was, seenDepth, ancestors)
        invariant id in seenDepth && seenDepth[id] == depth
        invariant Search(seenDepth, errors) == VisitAll(components, children[..i], depth + 1, next, begun)
        invariant Acyclic(components) ==> ExpandedBut(components, seenDepth, next)
        invariant Acyclic(components) ==> ChildrenDeeper(components, seenDepth, children, i, depth)
      {
        ghost var before := seenDepth;
        OneMoreVisited(components, children, i, depth + 1, next, begun);
        if children[i] in ById(components) {
          ExtendPath(components, here, children[i]);
          if Acyclic(components) {
            ChildIsNew(components, here, children[i]);
          }
        }
        Visit(children[i], depth + 1, next, here);
        GrowsOn(was, before, seenDepth, ancestors, next);
        StaysFixed(before, seenDepth, next, id);
        if Acyclic(components) {
          NextChild(components, before, seenDepth, next, children, i, depth);
        }
      }
      assert children[..|children|] == children;
      if Acyclic(components) {
        CloseExpanded(components, seenDepth, ancestors, id);
      }
    }
  }

  lemma StaysFixed(before: map<string, nat>, after: map<string, nat>, fixed: set<string>, id: string)
    requires Grows(before, after, fixed) && id in fixed && id in before
    ensures id in after && after[id] == before[id]
  {
  }

  lemma NoChildYet(components: seq<Component>, seen: map<string, nat>, children: seq<string>, depth: nat)
    ensures ChildrenDeeper(components, seen, children, 0, depth)
  {
  }

  /** When everything is expanded and nothing is too deep, each component of a path is recorded at least as deep. */
  lemma {:induction false} PathRecorded(components: seq<Component>, seen: map<string, nat>, path: seq<string>, i: nat)
    requires RootPath(components, path) && i < |path|
    requires "root" in seen && seen["root"] >= 1 && ExpandedBut(components, seen, {})
    requires forall id :: id in seen ==> seen[id] <= MAX_DEPTH
    ensures path[i] in seen && seen[path[i]] >= i + 1
  {
    hide ById, ChildIds, Named;
    if i > 0 {
      PathRecorded(components, seen, path, i - 1);
      assert Expanded(components, seen, path[i - 1]);
    }
  }

  /**
   * The depth rule of `actorSurfaceSemanticErrors`. On every graph the search ends and each reported
   * component lies at the end of a path, without repetition, of more than six components; on an acyclic
   * graph something is reported exactly when such a path exists, although revisits at no greater depth
   * are skipped.
   */
  method DepthErrors(components: seq<Component>) returns (errors: seq<nat>)
    ensures forall e :: e in errors ==>
              exists id, length :: length > MAX_DEPTH && PathTo(components, id, length)
                && id in ById(components) && ById(components)[id] == e
    ensures Acyclic(components) ==>
              (errors != [] <==> exists path :: RootPath(components, path) && |path| > MAX_DEPTH)
    ensures errors == Reports(components)
  {
    var search := new DepthSearch(components);
    RootAlone(components);
    search.Visit("root", 1, {}, []);
    errors := search.errors;
    DepthErrorsAre(components, search.seenDepth, errors);
  }

  lemma RootAlone(components: seq<Component>)
    ensures "root" in ById(components) ==> RootPath(components, [] + ["root"])
  {
    assert [] + ["root"] == ["root"];
  }

  lemma DepthErrorsAre(components: seq<Component>, seen: map<string, nat>, errors: seq<nat>)
    requires Real(components, seen) && Reported(components, seen, errors)
    requires Acyclic(components) ==> ExpandedBut(components, seen, {})
    requires "root" in ById(components) ==> "root" in seen && seen["root"] >= 1
    ensures forall e :: e in errors ==>
              exists id, length :: length > MAX_DEPTH && PathTo(components, id, length)
                && id in ById(components) && ById(components)[id] == e
    ensures Acyclic(components) ==>
              (errors != [] <==> exists path :: RootPath(components, path) && |path| > MAX_DEPTH)
  {
    hide ById, ChildIds, Named, Acyclic, ExpandedBut;
    forall e | e in errors
      ensures exists id, length :: length > MAX_DEPTH && PathTo(components, id, length)
                && id in ById(components) && ById(components)[id] == e
      ensures exists path :: RootPath(components, path) && |path| > MAX_DEPTH
    {
      var id :| id in seen && seen[id] > MAX_DEPTH && ById(components)[id] == e;
      assert PathTo(components, id, seen[id]);
    }
    if Acyclic(components) && errors == [] {
      forall path | RootPath(components, path)
        ensures |path| <= MAX_DEPTH
      {
        assert path[0] in ById(components);
        PathRecorded(components, seen, path, |path| - 1);
      }
    } else if errors != [] {
      assert errors[0] in errors;
    }
  }

  // ---------------------------------------------------------------- a surface with a cycle

  predicate HasChildren(components: seq<Component>, id: string, children: seq<string>) {
    id in ById(components) && ChildIds(Named(components, id)) == children
  }

  lemma EnterNone(components: seq<Component>, id: string, depth: nat, ancestors: set<string>, s: Search)
    requires HasChildren(components, id, []) && Fresh(id, depth, ancestors, s) && depth <= MAX_DEPTH
    ensures VisitFrom(components, id, depth, ancestors, s) == Search(s.seen[id := depth], s.errors)
  {
  }

  lemma EnterOne(components: seq<Component>, id: string, x: string, depth: nat, ancestors: set<string>, s: Search)
    requires HasChildren(components, id, [x]) && Fresh(id, depth, ancestors, s) && depth <= MAX_DEPTH
    ensures VisitFrom(components, id, depth, ancestors, s)
      == VisitFrom(components, x, depth + 1, ancestors + {id}, Search(s.seen[id := depth], s.errors))
  {
    AllOne(components, x, depth + 1, ancestors + {id}, Search(s.seen[id := depth], s.errors));
    hide VisitAll, ById, ChildIds;
  }

  lemma AllOne(components: seq<Component>, x: string, depth: nat, ancestors: set<string>, s: Search)
    ensures VisitAll(components, [x], depth, ancestors, s) == VisitFrom(components, x, depth, ancestors, s)
  {
    hide VisitFrom, ById;
    assert [x][..0] == [] && VisitAll(components, [], depth, ancestors, s) == s;
  }

  lemma EnterTwo(components: seq<Component>, id: string, x: string, y: string, depth: nat, ancestors: set<string>,
                 s: Search)
    requires HasChildren(components, id, [x, y]) && Fresh(id, depth, ancestors, s) && depth <= MAX_DEPTH
    ensures var t := Search(s.seen[id := depth], s.errors);
      VisitFrom(components, id, depth, ancestors, s)
      == VisitFrom(components, y, depth + 1, ancestors + {id},
                   VisitFrom(components, x, depth + 1, ancestors + {id}, t))
  {
    AllTwo(components, x, y, depth + 1, ancestors + {id}, Search(s.seen[id := depth], s.errors));
    hide VisitAll, ById, ChildIds;
  }

  lemma AllTwo(components: seq<Component>, x: string, y: string, depth: nat, ancestors: set<string>, s: Search)
    ensures VisitAll(components, [x, y], depth, ancestors, s)
      == VisitFrom(components, y, depth, ancestors, VisitFrom(components, x, depth, ancestors, s))
  {
    AllOne(components, x, depth, ancestors, s);
    hide VisitFrom, ById;
    assert [x, y][..1] == [x];
  }

  /** x and y are each other's children, and a chain of four hangs from y. */
  function Twisted(children: seq<string>): seq<Component> {
    [Component("root", Layout(Listed(children))), Component("y", Layout(Listed(["x", "a"]))),
     Component("x", Wrapper("y")), Component("a", Wrapper("b")), Component("b", Wrapper("c")),
     Component("c", Wrapper("d")), Component("d", Plain)]
  }

  predicate IsTwisted(components: seq<Component>, children: seq<string>) {
    && HasChildren(components, "root", children) && HasChildren(components, "y", ["x", "a"])
    && HasChildren(components, "x", ["y"]) && HasChildren(components, "a", ["b"])
    && HasChildren(components, "b", ["c"]) && HasChildren(components, "c", ["d"])
    && HasChildren(components, "d", []) && ById(components)["d"] == 6
  }

  lemma TwistedIs(children: seq<string>)
    ensures IsTwisted(Twisted(children), children)
  {
    hide ById;
    var t, m := Twisted(children), ById(Twisted(children));
    forall i | 0 <= i < 7
      ensures t[i].id in m && m[t[i].id] == i
    {
      assert t[i].id in m;
    }
    assert t[0].id in m && t[1].id in m && t[2].id in m && t[3].id in m && t[4].id in m && t[5].id in m && t[6].id in m;
  }

  /** The chain, visited for the first time. */
  lemma VisitChain(components: seq<Component>, children: seq<string>, depth: nat, ancestors: set<string>, s: Search)
    requires IsTwisted(components, children) && 3 <= depth <= 4
    requires ancestors !! {"a", "b", "c", "d"} && s.seen.Keys !! {"a", "b", "c", "d"}
    ensures var t := VisitFrom(components, "a", depth, ancestors, s);
      && t.seen == s.seen["a" := depth]["b" := depth + 1]["c" := depth + 2]["d" := depth + 3]
      && t.errors == if depth == 4 then s.errors + [6] else s.errors
  {
    var s1 := Search(s.seen["a" := depth], s.errors);
    var s2 := Search(s1.seen["b" := depth + 1], s.errors);
    var s3 := Search(s2.seen["c" := depth + 2], s.errors);
    var a1 := ancestors + {"a"};
    var a2 := a1 + {"b"};
    var a3 := a2 + {"c"};
    assert Fresh("a", depth, ancestors, s) && Fresh("b", depth + 1, a1, s1);
    assert Fresh("c", depth + 2, a2, s2) && Fresh("d", depth + 3, a3, s3);
    hide VisitFrom, Fresh, HasChildren, ById;
    EnterOne(components, "a", "b", depth, ancestors, s);
    EnterOne(components, "b", "c", depth + 1, a1, s1);
    EnterOne(components, "c", "d", depth + 2, a2, s2);
    LastOfChain(components, depth + 3, a3, s3);
  }

  lemma LastOfChain(components: seq<Component>, depth: nat, ancestors: set<string>, s: Search)
    requires HasChildren(components, "d", []) && ById(components)["d"] == 6 && Fresh("d", depth, ancestors, s)
    ensures VisitFrom(components, "d", depth, ancestors, s)
      == Search(s.seen["d" := depth], if depth > 6 then s.errors + [6] else s.errors)
  {
    if depth > MAX_DEPTH {
      TooDeep(components, "d", depth, ancestors, s);
    } else {
      EnterNone(components, "d", depth, ancestors, s);
    }
    hide VisitFrom, Fresh, ById, ChildIds;
  }

  lemma SeenDeeper(components: seq<Component>, id: string, depth: nat, ancestors: set<string>, s: Search)
    requires id in s.seen && s.seen[id] >= depth
    ensures VisitFrom(components, id, depth, ancestors, s) == s
  {
    Pruned(components, id, depth, ancestors, s);
    hide VisitFrom;
  }

  /** x visited below y, which it does not visit again. */
  lemma VisitX(components: seq<Component>, children: seq<string>, s: Search)
    requires IsTwisted(components, children) && "x" !in s.seen
    ensures VisitFrom(components, "x", 3, {"root", "y"}, s) == Search(s.seen["x" := 3], s.errors)
  {
    var t, a := Search(s.seen["x" := 3], s.errors), {"root", "y"} + {"x"};
    assert Fresh("x", 3, {"root", "y"}, s) && !Fresh("y", 4, a, t);
    hide VisitFrom, HasChildren, Fresh, ById;
    EnterOne(components, "x", "y", 3, {"root", "y"}, s);
    Pruned(components, "y", 4, a, t);
  }

  /** With y listed first, x is recorded below y, and then passed over as a child of the root. */
  lemma VisitTwist(components: seq<Component>, children: seq<string>)
    requires IsTwisted(components, children) && children == ["y", "x"]
    ensures Reports(components) == []
  {
    var s0, s1 := Search(map[], []), Search(map["root" := 1], []);
    var s2 := Search(s1.seen["y" := 2], []);
    var s3 := Search(s2.seen["x" := 3], []);
    var a1, a2 := {"root"}, {"root", "y"};
    assert s0.seen["root" := 1] == s1.seen && {} + {"root"} == a1 && a1 + {"y"} == a2;
    assert Fresh("root", 1, {}, s0) && Fresh("y", 2, a1, s1);
    VisitX(components, children, s2);
    VisitChain(components, children, 3, a2, s3);
    hide VisitFrom, HasChildren, Fresh, ById;
    EnterTwo(components, "root", "y", "x", 1, {}, s0);
    EnterTwo(components, "y", "x", "a", 2, a1, s1);
    SeenDeeper(components, "x", 2, a1, VisitFrom(components, "a", 3, a2, s3));
  }

  /** y visited below x, which it does not visit again. */
  lemma VisitY(components: seq<Component>, children: seq<string>, s: Search)
    requires IsTwisted(components, children) && "y" !in s.seen && s.seen.Keys !! {"a", "b", "c", "d"}
    ensures var t := VisitFrom(components, "y", 3, {"root", "x"}, s);
      t.errors == s.errors + [6] && "y" in t.seen && t.seen["y"] == 3
  {
    var t, a := Search(s.seen["y" := 3], s.errors), {"root", "x"} + {"y"};
    assert Fresh("y", 3, {"root", "x"}, s) && !Fresh("x", 4, a, t);
    VisitChain(components, children, 4, a, t);
    hide VisitFrom, HasChildren, Fresh, ById;
    EnterTwo(components, "y", "x", "a", 3, {"root", "x"}, s);
    Pruned(components, "x", 4, a, t);
  }

  /** With x listed first, y is recorded below x, and the chain ends at seven. */
  lemma VisitTwistBack(components: seq<Component>, children: seq<string>)
    requires IsTwisted(components, children) && children == ["x", "y"]
    ensures Reports(components) == [6]
  {
    var s0, s1 := Search(map[], []), Search(map["root" := 1], []);
    var s2 := Search(s1.seen["x" := 2], []);
    var a1, a2 := {"root"}, {"root", "x"};
    assert s0.seen["root" := 1] == s1.seen && {} + {"root"} == a1 && a1 + {"x"} == a2;
    assert Fresh("root", 1, {}, s0) && Fresh("x", 2, a1, s1);
    VisitY(components, children, s2);
    hide VisitFrom, HasChildren, Fresh, ById;
    EnterTwo(components, "root", "x", "y", 1, {}, s0);
    EnterOne(components, "x", "y", 2, a1, s1);
    SeenDeeper(components, "y", 2, a1, VisitFrom(components, "y", 3, a2, s2));
  }

  lemma TwistedPath(components: seq<Component>, children: seq<string>)
    requires IsTwisted(components, children) && "x" in children
    ensures var path := ["root", "x", "y", "a", "b", "c", "d"];
      RootPath(components, path) && Distinct(path) && |path| > MAX_DEPTH
  {
    hide ById, ChildIds;
    assert "a" in ["x", "a"];
  }

  /**
   * On a graph with a cycle this rule alone depends on the order in which children are listed: the same
   * path of seven different components is passed over in one order and reported in the other.
   */
  lemma CycleHidesPath()
    ensures var path := ["root", "x", "y", "a", "b", "c", "d"];
      && Distinct(path) && |path| > MAX_DEPTH
      && RootPath(Twisted(["y", "x"]), path) && Reports(Twisted(["y", "x"])) == []
      && RootPath(Twisted(["x", "y"]), path) && Reports(Twisted(["x", "y"])) != []
  {
    TwistedIs(["y", "x"]);
    TwistedIs(["x", "y"]);
    hide IsTwisted, Twisted, Reports, RootPath;
    TwistedPath(Twisted(["y", "x"]), ["y", "x"]);
    TwistedPath(Twisted(["x", "y"]), ["x", "y"]);
    VisitTwist(Twisted(["y", "x"]), ["y", "x"]);
    VisitTwistBack(Twisted(["x", "y"]), ["x", "y"]);
  }
}
