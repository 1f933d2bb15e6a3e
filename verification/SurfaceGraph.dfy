/**
 * The rules on the shape of an Actor surface: the general surface validator wants distinct ids, one root,
 * no missing child, no cycle and nothing out of reach; together with the depth rule of `SurfaceDepth`
 * they decide exactly whether a surface is a shallow graph below its root.
 */
module SurfaceGraph {

  import opened SurfaceDepth

  /** The child ids of each component, by its id. */
  type Graph = map<string, seq<string>>

  // ---------------------------------------------------------------- ids and references

  /** `adjacency`, over a `components` map in which the first component with an id stays. */
  function Adjacency(components: seq<Component>): Graph {
    if components == [] then map[]
    else
      var n := |components| - 1;
      var graph, last := Adjacency(components[..n]), components[n];
      if last.id in graph then graph else graph[last.id := ChildIds(last)]
  }

  predicate UniqueIds(components: seq<Component>) {
    forall i, j :: 0 <= i < j < |components| ==> components[i].id != components[j].id
  }

  lemma {:induction false} AdjacencyKeys(components: seq<Component>)
    ensures forall id :: id in Adjacency(components) <==> id in ById(components)
  {
    if components != [] {
      AdjacencyKeys(components[..|components| - 1]);
    }
  }

  /** With distinct ids it does not matter that one map keeps the first and the other the last of an id. */
  lemma {:induction false} AdjacencyIs(components: seq<Component>)
    requires UniqueIds(components)
    ensures forall id :: id in ById(components) ==>
              id in Adjacency(components) && Adjacency(components)[id] == ChildIds(Named(components, id))
  {
    AdjacencyKeys(components);
    forall i | 0 <= i < |components|
      ensures components[i].id in Adjacency(components)
      ensures Adjacency(components)[components[i].id] == ChildIds(components[i])
    {
      AdjacencyOf(components, i);
    }
    hide ById, Adjacency, ChildIds;
  }

  lemma {:induction false} AdjacencyOf(components: seq<Component>, i: nat)
    requires UniqueIds(components) && i < |components|
    ensures components[i].id in Adjacency(components)
    ensures Adjacency(components)[components[i].id] == ChildIds(components[i])
  {
    var n := |components| - 1;
    var before := components[..n];
    if i < n {
      assert UniqueIds(before) && before[i] == components[i];
      assert components[i].id != components[n].id;
      hide UniqueIds, ById, ChildIds;
      AdjacencyOf(before, i);
    } else {
      NewId(components, n);
      hide UniqueIds, ById, ChildIds;
    }
  }

  lemma NewId(components: seq<Component>, n: nat)
    requires UniqueIds(components) && n < |components|
    ensures components[n].id !in Adjacency(components[..n])
  {
    var before := components[..n];
    AdjacencyKeys(before);
    hide Adjacency, ById;
    assert forall j :: 0 <= j < n ==> before[j].id == components[j].id != components[n].id;
  }

  /** The first loops: the graph, the indices of repeated ids, and the number of roots. */
  method Declare(components: seq<Component>) returns (graph: Graph, duplicates: seq<nat>, rootCount: nat)
    ensures graph == Adjacency(components)
    ensures duplicates == [] <==> UniqueIds(components)
    ensures UniqueIds(components) ==> (rootCount == 1 <==> "root" in ById(components))
  {
    graph, duplicates, rootCount := map[], [], 0;
    for i := 0 to |components|
      invariant graph == Adjacency(components[..i])
      invariant duplicates == [] <==> UniqueIds(components[..i])
      invariant UniqueIds(components[..i]) ==> rootCount == if "root" in graph then 1 else 0
    {
      var c := components[i];
      assert components[..i + 1][..i] == components[..i];
      DeclareNext(components, i);
      if c.id == "root" { rootCount := rootCount + 1; }
      if c.id in graph {
        duplicates := duplicates + [i];
      } else {
        graph := graph[c.id := ChildIds(c)];
      }
    }
    assert components[..|components|] == components;
    AdjacencyKeys(components);
  }

  lemma DeclareNext(components: seq<Component>, i: nat)
    requires i < |components|
    ensures UniqueIds(components[..i + 1])
      <==> UniqueIds(components[..i]) && components[i].id !in Adjacency(components[..i])
  {
    var before := components[..i];
    AdjacencyKeys(before);
    hide Adjacency, ById, UniqueIds;
    assert components[..i + 1] == before + [components[i]];
    OneMoreId(before, components[i]);
    assert components[i].id in ById(before) <==> exists j :: 0 <= j < i && before[j].id == components[i].id;
  }

  lemma OneMoreId(before: seq<Component>, c: Component)
    ensures UniqueIds(before + [c]) <==> UniqueIds(before) && forall j :: 0 <= j < |before| ==> before[j].id != c.id
  {
    var after := before + [c];
    assert forall j :: 0 <= j < |before| ==> after[j] == before[j];
    assert after[|before|] == c;
  }

  ghost predicate Complete(graph: Graph) {
    forall id, c :: id in graph && c in graph[id] ==> c in graph
  }

  /** The edges to components that do not exist, as the component and the place of the child. */
  method MissingReferences(graph: Graph) returns (missing: seq<(string, nat)>)
    ensures missing == [] <==> Complete(graph)
  {
    missing := [];
    var todo := graph.Keys;
    while todo != {}
      invariant todo <= graph.Keys
      invariant missing == [] <==> forall id, c :: id in graph && id !in todo && c in graph[id] ==> c in graph
      decreases todo
    {
      var id :| id in todo;
      todo := todo - {id};
      var children := graph[id];
      ghost var before := missing;
      for i := 0 to |children|
        invariant missing == [] <==> before == [] && forall k :: 0 <= k < i ==> children[k] in graph
      {
        if children[i] !in graph {
          missing := missing + [(id, i)];
        }
      }
    }
  }

  // ---------------------------------------------------------------- paths

  ghost predicate IsPath(graph: Graph, path: seq<string>) {
    && (forall i :: 0 <= i < |path| ==> path[i] in graph)
    && (forall i :: 0 <= i < |path| - 1 ==> path[i + 1] in graph[path[i]])
  }

  ghost predicate IsCycle(graph: Graph, path: seq<string>) {
    IsPath(graph, path) && |path| >= 2 && path[0] == path[|path| - 1]
  }

  ghost predicate HasCycle(graph: Graph) {
    exists path :: IsCycle(graph, path)
  }

  lemma Extended(graph: Graph, path: seq<string>, child: string)
    requires IsPath(graph, path) && path != [] && child in graph[path[|path| - 1]] && child in graph
    ensures IsPath(graph, path + [child])
  {
    var longer := path + [child];
    assert forall i :: 0 <= i < |path| ==> longer[i] == path[i];
  }

  lemma Part(graph: Graph, path: seq<string>, from: nat, to: nat)
    requires IsPath(graph, path) && from <= to <= |path|
    ensures IsPath(graph, path[from..to])
  {
    var part := path[from..to];
    assert forall i :: 0 <= i < |part| ==> part[i] == path[from + i];
  }

  // ---------------------------------------------------------------- cycles

  /** Each component's children come before it. */
  ghost predicate Ordered(graph: Graph, done: seq<string>) {
    && (forall i :: 0 <= i < |done| ==> done[i] in graph)
    && (forall i, c :: 0 <= i < |done| && c in graph[done[i]] && c in graph ==> c in done[..i])
  }

  /** Along a path one moves towards the front. */
  lemma {:induction false} PathDescends(graph: Graph, done: seq<string>, path: seq<string>, i: nat)
    requires Ordered(graph, done) && IsPath(graph, path) && path != [] && i <= |done| && path[0] in done[..i]
    ensures |path| <= i && path[|path| - 1] in done[..i - (|path| - 1)]
  {
    var j :| 0 <= j < i && done[..i][j] == path[0];
    assert done[j] == path[0];
    if |path| > 1 {
      Part(graph, path, 1, |path|);
      assert path[1] in done[..j];
      PathDescends(graph, done, path[1..], j);
      assert done[..j - (|path| - 2)] <= done[..i - (|path| - 1)];
    }
  }

  lemma {:induction false} NotOnCycle(graph: Graph, done: seq<string>, path: seq<string>, i: nat)
    requires Ordered(graph, done) && IsCycle(graph, path) && i <= |done|
    ensures path[0] !in done[..i]
  {
    if path[0] in done[..i] {
      PathDescends(graph, done, path, i);
      NotOnCycle(graph, done, path, i - (|path| - 1));
    }
  }

  lemma OrderedHasNoCycle(graph: Graph, done: seq<string>)
    requires Ordered(graph, done) && forall id :: id in graph ==> id in done
    ensures !HasCycle(graph)
  {
    assert done[..|done|] == done;
    if path :| IsCycle(graph, path) {
      assert path[0] in done;
      NotOnCycle(graph, done, path, |done|);
    }
  }

  datatype Color = Gray | Black

  /**
   * What the search knows: the gray components are those on the way from its start, the black ones are
   * done, and a cycle has been found exactly if there is an issue, as far as the black ones go.
   */
  ghost predicate Coloring(graph: Graph, colors: map<string, Color>, issues: seq<(string, string)>, done: seq<string>,
                           stack: seq<string>)
  {
    && (forall id :: id in stack <==> id in colors && colors[id] == Gray)
    && (forall id :: id in done <==> id in colors && colors[id] == Black)
    && (issues == [] ==> Ordered(graph, done))
    && (issues != [] ==> HasCycle(graph))
    && IsPath(graph, stack)
  }

  lemma Uncolored(graph: Graph)
    ensures Coloring(graph, map[], [], [], [])
  {
  }

  lemma TurnsGray(graph: Graph, colors: map<string, Color>, issues: seq<(string, string)>, done: seq<string>,
                  stack: seq<string>, id: string)
    requires Coloring(graph, colors, issues, done, stack) && id !in colors && IsPath(graph, stack + [id])
    ensures Coloring(graph, colors[id := Gray], issues, done, stack + [id]) && id !in stack
  {
    hide Ordered, HasCycle, IsPath;
  }

  lemma IsColored(graph: Graph, colors: map<string, Color>, issues: seq<(string, string)>, done: seq<string>,
                  stack: seq<string>, id: string)
    requires Coloring(graph, colors, issues, done, stack)
    ensures id in stack <==> id in colors && colors[id] == Gray
    ensures id in done <==> id in colors && colors[id] == Black
    ensures IsPath(graph, stack)
  {
    hide Ordered, HasCycle, IsPath;
  }

  lemma OneIssue(graph: Graph, colors: map<string, Color>, issues: seq<(string, string)>, done: seq<string>,
                 stack: seq<string>, child: string)
    requires Coloring(graph, colors, issues, done, stack) && stack != []
    requires child in stack && child in graph && child in graph[stack[|stack| - 1]]
    ensures Coloring(graph, colors, issues + [(stack[|stack| - 1], child)], done, stack)
  {
    ClosesCycle(graph, stack, child);
    hide Ordered, HasCycle, IsPath;
  }

  lemma TurnsBlack(graph: Graph, colors: map<string, Color>, issues: seq<(string, string)>, done: seq<string>,
                   stack: seq<string>, id: string)
    requires Coloring(graph, colors, issues, done, stack + [id]) && id !in stack && id in graph
    requires issues == [] ==>
               forall k :: 0 <= k < |graph[id]| && graph[id][k] in graph ==> graph[id][k] in done
    ensures Coloring(graph, colors[id := Black], issues, done + [id], stack)
  {
    if issues == [] {
      Finished(graph, done, id);
    }
    LeavesStack(graph, stack, id);
    hide Ordered, HasCycle, IsPath;
    assert forall x :: x in stack + [id] <==> x in stack || x == id;
    assert id in stack + [id];
  }

  class CycleSearch {
    const graph: Graph
    var colors: map<string, Color>
    /** The edges that close a cycle. */
    var issues: seq<(string, string)>
    /** The black components, in the order in which they became so. */
    ghost var done: seq<string>

    constructor (graph: Graph)
      ensures this.graph == graph && colors == map[] && issues == [] && done == []
    {
      this.graph := graph;
      colors, issues, done := map[], [], [];
    }

    ghost predicate Valid(stack: seq<string>)
      reads this
    {
      Coloring(graph, colors, issues, done, stack)
    }

    /** `detectCycle` */
    method Detect(id: string, ghost stack: seq<string>)
      requires Valid(stack) && id in graph && id !in colors && IsPath(graph, stack + [id])
      modifies this
      ensures Valid(stack) && id in done
      ensures old(colors).Keys <= colors.Keys && old(issues) <= issues && old(done) <= done
      decreases graph.Keys - colors.Keys
    {
      hide Coloring, IsPath;
      ghost var here := stack + [id];
      TurnsGray(graph, colors, issues, done, stack, id);
      colors := colors[id := Gray];
      var children := graph[id];
      for i := 0 to |children|
        invariant Valid(here)
        invariant old(colors).Keys + {id} <= colors.Keys && old(issues) <= issues && old(done) <= done
        invariant issues == [] ==> forall k :: 0 <= k < i && children[k] in graph ==> children[k] in done
      {
        var child := children[i];
        IsColored(graph, colors, issues, done, here, child);
        if child in graph {
          if child in colors && colors[child] == Gray {
            OneIssue(graph, colors, issues, done, here, child);
            issues := issues + [(id, child)];
          } else if child !in colors {
            Extended(graph, here, child);
            Detect(child, here);
          }
        }
      }
      TurnsBlack(graph, colors, issues, done, stack, id);
      colors, done := colors[id := Black], done + [id];
    }

    /** The loop over all components. */
    method Search(components: seq<Component>)
      requires Valid([]) && graph == Adjacency(components)
      modifies this
      ensures issues == [] <==> !HasCycle(graph)
    {
      AdjacencyKeys(components);
      hide Coloring, IsPath, HasCycle, Adjacency, ById;
      for i := 0 to |components|
        invariant Valid([])
        invariant forall k :: 0 <= k < i ==> components[k].id in done
      {
        var id := components[i].id;
        assert id in ById(components);
        IsColored(graph, colors, issues, done, [], id);
        if id !in colors {
          Alone(graph, id);
          Detect(id, []);
        }
      }
      Searched(components, graph, colors, issues, done);
    }
  }

  lemma Searched(components: seq<Component>, graph: Graph, colors: map<string, Color>, issues: seq<(string, string)>,
                 done: seq<string>)
    requires graph == Adjacency(components) && Coloring(graph, colors, issues, done, [])
    requires forall k :: 0 <= k < |components| ==> components[k].id in done
    ensures issues == [] <==> !HasCycle(graph)
  {
    AdjacencyKeys(components);
    hide Adjacency, ById, Ordered, HasCycle, IsPath;
    if issues == [] {
      OrderedHasNoCycle(graph, done);
    }
  }

  lemma Alone(graph: Graph, id: string)
    requires id in graph
    ensures IsPath(graph, [] + [id])
  {
  }

  lemma ClosesCycle(graph: Graph, stack: seq<string>, child: string)
    requires IsPath(graph, stack) && stack != [] && child in stack && child in graph[stack[|stack| - 1]]
    ensures HasCycle(graph)
  {
    var i :| 0 <= i < |stack| && stack[i] == child;
    Part(graph, stack, i, |stack|);
    Extended(graph, stack[i..], child);
    assert IsCycle(graph, stack[i..] + [child]);
  }

  lemma Finished(graph: Graph, done: seq<string>, id: string)
    requires Ordered(graph, done) && id in graph
    requires forall k :: 0 <= k < |graph[id]| && graph[id][k] in graph ==> graph[id][k] in done
    ensures Ordered(graph, done + [id])
  {
    var longer := done + [id];
    forall i, c | 0 <= i < |longer| && c in graph[longer[i]] && c in graph
      ensures c in longer[..i]
    {
      if i < |done| {
        assert longer[i] == done[i] && longer[..i] == done[..i];
      } else {
        assert longer[..i] == done;
      }
    }
  }

  lemma LeavesStack(graph: Graph, stack: seq<string>, id: string)
    requires IsPath(graph, stack + [id])
    ensures IsPath(graph, stack)
  {
    Part(graph, stack + [id], 0, |stack|);
    assert (stack + [id])[..|stack|] == stack;
  }

  // ---------------------------------------------------------------- what can be reached

  ghost predicate PathFromRoot(graph: Graph, id: string) {
    exists path :: IsPath(graph, path) && path != [] && path[0] == "root" && path[|path| - 1] == id
  }

  ghost predicate Closed(graph: Graph, reached: set<string>, open: set<string>) {
    forall id, c :: id in reached && id !in open && id in graph && c in graph[id] && c in graph ==> c in reached
  }

  class ReachSearch {
    const graph: Graph
    var reachable: set<string>

    constructor (graph: Graph)
      ensures this.graph == graph && reachable == {}
    {
      this.graph := graph;
      reachable := {};
    }

    ghost predicate Valid(open: set<string>)
      reads this
    {
      && reachable <= graph.Keys
      && (forall id :: id in reachable ==> PathFromRoot(graph, id))
      && Closed(graph, reachable, open)
    }

    /** `markReachable`; `open` are the components whose children are being marked. */
    method Mark(id: string, ghost open: set<string>)
      requires Valid(open) && (id in graph ==> PathFromRoot(graph, id))
      modifies this
      ensures Valid(open) && old(reachable) <= reachable
      ensures id in graph ==> id in reachable
      decreases graph.Keys - reachable
    {
      hide PathFromRoot, Closed;
      if id in reachable || id !in graph {
        return;
      }
      ghost var before := reachable;
      reachable := reachable + {id};
      Opened(graph, before, open, id);
      var children := graph[id];
      for i := 0 to |children|
        invariant Valid(open + {id}) && before + {id} <= reachable
        invariant forall k :: 0 <= k < i && children[k] in graph ==> children[k] in reachable
      {
        if children[i] in graph {
          OneFurther(graph, id, children[i]);
        }
        Mark(children[i], open + {id});
      }
      AllMarked(graph, reachable, open, id);
    }
  }

  lemma Opened(graph: Graph, reached: set<string>, open: set<string>, id: string)
    requires Closed(graph, reached, open)
    ensures Closed(graph, reached + {id}, open + {id})
  {
  }

  lemma AllMarked(graph: Graph, reached: set<string>, open: set<string>, id: string)
    requires Closed(graph, reached, open + {id}) && id in graph
    requires forall k :: 0 <= k < |graph[id]| && graph[id][k] in graph ==> graph[id][k] in reached
    ensures Closed(graph, reached, open)
  {
  }

  lemma OneFurther(graph: Graph, id: string, child: string)
    requires PathFromRoot(graph, id) && id in graph && child in graph[id] && child in graph
    ensures PathFromRoot(graph, child)
  {
    var path :| IsPath(graph, path) && path != [] && path[0] == "root" && path[|path| - 1] == id;
    Extended(graph, path, child);
    assert (path + [child])[0] == "root";
  }

  lemma {:induction false} PathStaysIn(graph: Graph, reached: set<string>, path: seq<string>, i: nat)
    requires Closed(graph, reached, {}) && IsPath(graph, path) && i < |path| && path[0] in reached
    ensures path[i] in reached
  {
    if i > 0 {
      PathStaysIn(graph, reached, path, i - 1);
      assert path[i] in graph[path[i - 1]];
    }
  }

  /** The components out of reach, as their ids. */
  method Unreachable(graph: Graph) returns (unreachable: set<string>)
    ensures unreachable == set id | id in graph && !PathFromRoot(graph, id)
  {
    var search := new ReachSearch(graph);
    if "root" in graph {
      Alone(graph, "root");
      assert ([] + ["root"])[0] == "root";
      search.Mark("root", {});
    }
    var reached := search.reachable;
    hide IsPath;
    forall id | id in graph && PathFromRoot(graph, id)
      ensures id in reached
    {
      var path :| IsPath(graph, path) && path != [] && path[0] == "root" && path[|path| - 1] == id;
      RootIsThere(graph, path);
      PathStaysIn(graph, reached, path, |path| - 1);
    }
    unreachable := set id | id in graph && id !in reached;
  }

  lemma RootIsThere(graph: Graph, path: seq<string>)
    requires IsPath(graph, path) && path != []
    ensures path[0] in graph
  {
  }

  // ---------------------------------------------------------------- the rules together

  /**
   * What an accepted surface is: distinct ids, a root, every child there, every component on a path from
   * the root, and no path from the root, with or without repetition, of more than six components.
   */
  ghost predicate WellShaped(components: seq<Component>) {
    && UniqueIds(components) && "root" in ById(components)
    && ChildrenThere(components) && AllReached(components) && Shallow(components)
  }

  ghost predicate ChildrenThere(components: seq<Component>) {
    forall id, c :: id in ById(components) && c in ChildIds(Named(components, id)) ==> c in ById(components)
  }

  ghost predicate AllReached(components: seq<Component>) {
    forall id :: id in ById(components) ==> Reached(components, id)
  }

  ghost predicate Reached(components: seq<Component>, id: string) {
    exists path :: RootPath(components, path) && path[|path| - 1] == id
  }

  ghost predicate Shallow(components: seq<Component>) {
    forall path :: RootPath(components, path) ==> |path| <= MAX_DEPTH
  }

  lemma SamePaths(components: seq<Component>, path: seq<string>)
    requires UniqueIds(components)
    ensures RootPath(components, path) <==> IsPath(Adjacency(components), path) && path != [] && path[0] == "root"
  {
    AdjacencyKeys(components);
    AdjacencyIs(components);
    hide Adjacency, ById, ChildIds, Named;
  }

  /** A cycle within reach gives paths of every length. */
  lemma {:induction false} Pumped(graph: Graph, cycle: seq<string>, path: seq<string>, n: nat) returns (long: seq<string>)
    requires IsCycle(graph, cycle) && IsPath(graph, path) && path != [] && path[|path| - 1] == cycle[0]
    ensures IsPath(graph, long) && |long| > n && long[0] == path[0] && long[|long| - 1] == cycle[0]
  {
    if n == 0 {
      long := path;
    } else {
      var shorter := Pumped(graph, cycle, path, n - 1);
      long := shorter + cycle[1..];
      Joined(graph, shorter, cycle);
    }
  }

  lemma Joined(graph: Graph, path: seq<string>, cycle: seq<string>)
    requires IsPath(graph, path) && path != [] && IsPath(graph, cycle) && cycle != []
    requires path[|path| - 1] == cycle[0]
    ensures IsPath(graph, path + cycle[1..])
  {
    var long := path + cycle[1..];
    forall i | 0 <= i < |long|
      ensures long[i] in graph
      ensures i < |long| - 1 ==> long[i + 1] in graph[long[i]]
    {
      if i >= |path| - 1 {
        var k := i - (|path| - 1);
        assert long[i] == cycle[k];
        assert i < |long| - 1 ==> long[i + 1] == cycle[k + 1];
      } else {
        assert long[i] == path[i] && long[i + 1] == path[i + 1];
      }
    }
  }

  lemma ShallowHasNoCycle(components: seq<Component>)
    requires WellShaped(components)
    ensures !HasCycle(Adjacency(components))
  {
    var graph := Adjacency(components);
    AdjacencyKeys(components);
    hide Adjacency, ById, ChildIds, Named, UniqueIds;
    if cycle :| IsCycle(graph, cycle) {
      assert Reached(components, cycle[0]);
      var path :| RootPath(components, path) && path[|path| - 1] == cycle[0];
      SamePaths(components, path);
      var long := Pumped(graph, cycle, path, MAX_DEPTH);
      SamePaths(components, long);
    }
  }

  lemma RepeatIsCycle(graph: Graph, path: seq<string>)
    requires IsPath(graph, path) && !Distinct(path)
    ensures HasCycle(graph)
  {
    var i, j :| 0 <= i < j < |path| && path[i] == path[j];
    Part(graph, path, i, j + 1);
    assert IsCycle(graph, path[i..j + 1]);
  }

  lemma NoCycleIsAcyclic(components: seq<Component>)
    requires UniqueIds(components) && !HasCycle(Adjacency(components))
    ensures Acyclic(components)
  {
    hide Adjacency, UniqueIds, RootPath, Distinct, HasCycle, IsPath;
    forall path | RootPath(components, path)
      ensures Distinct(path)
    {
      SamePaths(components, path);
      if !Distinct(path) {
        RepeatIsCycle(Adjacency(components), path);
      }
    }
  }

  /**
   * The rules on shape that `validateDagActorSurfacePatchV1` applies: those of the general validator and
   * the depth rule of the Actor surface. Together they are exact, although the depth rule alone is not
   * on graphs with a cycle.
   */
  method ShapeAccepted(components: seq<Component>) returns (ok: bool)
    ensures ok <==> WellShaped(components)
  {
    var graph, duplicates, rootCount := Declare(components);
    var missing := MissingReferences(graph);
    var search := new CycleSearch(graph);
    Uncolored(graph);
    search.Search(components);
    var unreachable := Unreachable(graph);
    var tooDeep := DepthErrors(components);
    ok := duplicates == [] && rootCount == 1 && missing == [] && search.issues == [] && unreachable == {} && tooDeep == [];
    hide Acyclic, HasCycle, Reports;
    ShapeIs(components, unreachable, tooDeep);
  }

  lemma ShapeIs(components: seq<Component>, unreachable: set<string>, tooDeep: seq<nat>)
    requires unreachable == set id | id in Adjacency(components) && !PathFromRoot(Adjacency(components), id)
    requires Acyclic(components) ==> (tooDeep == [] <==> Shallow(components))
    ensures WellShaped(components)
      <==> UniqueIds(components) && "root" in ById(components) && Complete(Adjacency(components))
           && !HasCycle(Adjacency(components)) && unreachable == {} && tooDeep == []
  {
    if UniqueIds(components) {
      CompleteIs(components);
      AllReachedIs(components, unreachable);
      if WellShaped(components) {
        ShallowHasNoCycle(components);
      }
      if !HasCycle(Adjacency(components)) {
        NoCycleIsAcyclic(components);
      }
    }
    hide Adjacency, ById, UniqueIds, ChildrenThere, AllReached, Shallow, Acyclic, HasCycle, Complete, PathFromRoot;
  }

  lemma CompleteIs(components: seq<Component>)
    requires UniqueIds(components)
    ensures Complete(Adjacency(components)) <==> ChildrenThere(components)
  {
    AdjacencyKeys(components);
    AdjacencyIs(components);
    hide Adjacency, ById, ChildIds, Named, UniqueIds;
  }

  lemma AllReachedIs(components: seq<Component>, unreachable: set<string>)
    requires UniqueIds(components)
    requires unreachable == set id | id in Adjacency(components) && !PathFromRoot(Adjacency(components), id)
    ensures unreachable == {} <==> AllReached(components)
  {
    AdjacencyKeys(components);
    hide Adjacency, ById, UniqueIds, PathFromRoot, Reached;
    forall id: string
      ensures PathFromRoot(Adjacency(components), id) <==> Reached(components, id)
    {
      ReachedIs(components, id);
    }
    if AllReached(components) {
      assert forall id :: id in Adjacency(components) ==> PathFromRoot(Adjacency(components), id);
    }
    if unreachable == {} {
      forall id | id in ById(components)
        ensures Reached(components, id)
      {
        assert id !in unreachable;
      }
    }
  }

  lemma ReachedIs(components: seq<Component>, id: string)
    requires UniqueIds(components)
    ensures PathFromRoot(Adjacency(components), id) <==> Reached(components, id)
  {
    hide Adjacency, UniqueIds, RootPath, IsPath;
    forall path: seq<string>
      ensures RootPath(components, path) <==> IsPath(Adjacency(components), path) && path != [] && path[0] == "root"
    {
      SamePaths(components, path);
    }
  }
}
