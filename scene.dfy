/** The mutable registry of components/Scene.tsx: the `projectNodes` array that
  * `createNodes` empties and refills, which each frame's orbit update and hover pass change
  * node by node, and the page cursor the hover pass sets. */
module SceneGraph {
  import opened Wrappers
  import opened Projects
  import opened Geometry
  import opened Nodes

  class Scene {
    var nodes: seq<SceneNode>
    var cursor: Cursor

    /** Every node is well formed; in particular its ring sits exactly on it. */
    ghost predicate Valid()
      reads this
    {
      forall i :: 0 <= i < |nodes| ==> WellFormed(nodes[i])
    }

    constructor ()
      ensures Valid() && nodes == [] && cursor == Unset
    {
      nodes := [];
      cursor := Unset;
    }

    /** `createNodes`: drop every previous node, then push one node per display item. */
    method CreateNodes(projList: seq<MarsProject>, draws: seq<Draw>, trig: Trig)
      requires DrawsValid(draws, |DisplayItems(projList)|)
      modifies this
      ensures Valid()
      ensures nodes == Layout(projList, draws, trig)
      ensures |nodes| == if |projList| == 0 then PlaceholderCount else |projList|
      ensures cursor == old(cursor)
    {
      nodes := [];
      var items := DisplayItems(projList);
      var i := 0;
      while i < |items|
        invariant 0 <= i <= |items|
        invariant |nodes| == i
        invariant forall k :: 0 <= k < i ==> nodes[k] == PlaceNode(items[k], draws[k], trig)
        invariant cursor == old(cursor)
      {
        nodes := nodes + [PlaceNode(items[i], draws[i], trig)];
        i := i + 1;
      }
    }

    /** The node loop of `animate`: move every node along its orbit and its ring with it. */
    method AnimateNodes(elapsed: real, trig: Trig)
      requires Valid()
      modifies this
      ensures Valid()
      ensures |nodes| == |old(nodes)|
      ensures forall i :: 0 <= i < |nodes| ==> nodes[i] == OrbitNode(old(nodes)[i], i, elapsed, trig)
      ensures cursor == old(cursor)
    {
      var i := 0;
      while i < |nodes|
        invariant 0 <= i <= |nodes| == |old(nodes)|
        invariant forall k :: 0 <= k < i ==> nodes[k] == OrbitNode(old(nodes)[k], k, elapsed, trig)
        invariant forall k :: i <= k < |nodes| ==> nodes[k] == old(nodes)[k]
        invariant Valid()
        invariant cursor == old(cursor)
      {
        OrbitKeepsNode(nodes[i], i, elapsed, trig);
        nodes := nodes[i := OrbitNode(nodes[i], i, elapsed, trig)];
        i := i + 1;
      }
    }

    /** The hover pass of `animate` for the raycaster's `hits`: reset every node, then
      * highlight the nearest hit unless it is a placeholder, and set the cursor. */
    method HoverPass(hits: seq<Hit>)
      requires Valid()
      requires HitsValid(hits, |nodes|)
      modifies this
      ensures Valid()
      ensures nodes == HoverFrame(old(nodes), hits)
      ensures cursor == HoverCursor(old(cursor), old(nodes), hits)
    {
      ghost var before := nodes;
      var i := 0;
      while i < |nodes|
        invariant 0 <= i <= |nodes| == |before|
        invariant forall k :: 0 <= k < i ==> nodes[k] == RestNode(before[k])
        invariant forall k :: i <= k < |nodes| ==> nodes[k] == before[k]
        invariant Valid()
        invariant cursor == old(cursor)
      {
        RestKeepsNode(nodes[i]);
        nodes := nodes[i := RestNode(nodes[i])];
        i := i + 1;
      }
      if |hits| > 0 {
        var target := hits[0].node;
        if !nodes[target].isPlaceholder {
          cursor := Pointer;
          HighlightKeepsNode(nodes[target]);
          nodes := nodes[target := HighlightNode(nodes[target])];
        }
      } else {
        cursor := Default;
      }
    }

    /** The part of `animate` that concerns the nodes: the orbit update, then the hover pass
      * for this frame's raycaster hits. Those are an input: three.js tests the sprites
      * against world matrices last refreshed by the previous render, so the hits may
      * describe where the nodes stood one frame earlier. */
    method Frame(elapsed: real, trig: Trig, hits: seq<Hit>)
      requires Valid()
      requires HitsValid(hits, |nodes|)
      modifies this
      ensures Valid()
      ensures |nodes| == |old(nodes)|
      ensures forall i :: 0 <= i < |nodes| ==>
                nodes[i] == HoverFrame(seq(|old(nodes)|, k requires 0 <= k < |old(nodes)| =>
                                         OrbitNode(old(nodes)[k], k, elapsed, trig)), hits)[i]
      ensures cursor == HoverCursor(old(cursor), old(nodes), hits)
    {
      AnimateNodes(elapsed, trig);
      HoverPass(hits);
    }

    /** `onClick` for the raycaster's `hits`: the project passed to `onProjectSelect`,
      * or `None` when no call is made. */
    method OnClick(hits: seq<Hit>) returns (selected: Option<MarsProject>)
      requires Valid()
      requires HitsValid(hits, |nodes|)
      ensures selected == ClickTarget(nodes, hits)
      ensures selected.Some? <==> hits != [] && !nodes[hits[0].node].isPlaceholder
    {
      selected := None;
      if |hits| > 0 {
        var project := nodes[hits[0].node].project;
        if project.Some? {
          selected := project;
        }
      }
    }
  }

  /** One project: after the scene is built there is exactly one node, a project node bound
    * to that record, and a click whose ray meets only that node selects exactly that record. */
  method SingleProjectScenario(trig: Trig)
  {
    var p := MarsProject("1", "A", "u1");
    var scene := new Scene();
    scene.CreateNodes([p], [Draw(0.5, 0.25, 0.0)], trig);
    assert |scene.nodes| == 1;
    assert scene.nodes[0].project == Some(p) && !scene.nodes[0].isPlaceholder;
    var selected := scene.OnClick([Hit(0, 50.0)]);
    assert selected == Some(p);
    var none := scene.OnClick([]);
    assert none == None;
  }
}
