/** The node registry's values (components/Scene.tsx, `createNodes`, the node part of
  * `animate`, the hover pass and `onClick`): which items get a node, where a node is placed,
  * how a frame moves it, how hovering restyles it and what a click selects. */
module Nodes {
  import opened Wrappers
  import opened Projects
  import opened Geometry
  import Decimal

  /** How many placeholders stand in for an empty project list. */
  const PlaceholderCount: nat := 6
  const TreeHeight: real := 45.0
  /** The vertical band nodes are scattered over. */
  const HeightRange: real := 40.0
  /** The sprite scale every node is created with, kept as its `originalScale`. */
  const BaseScale: Vec3 := Vec3(10.0, 7.0, 1.0)
  /** The enlarged scale a hovered node eases towards. */
  const HoverScale: Vec3 := Vec3(12.0, 8.5, 1.0)
  const RestEase: real := 0.1
  const HoverEase: real := 0.15
  /** Sprite tints: grey for a project at rest, emerald for a placeholder, white when hovered. */
  const Grey: int := 0x888888
  const Emerald: int := 0x10b981
  const White: int := 0xffffff
  const PlaceholderOpacity: real := 0.15

  /** What a node is built from: a project, or a placeholder with a synthetic id. */
  datatype DisplayItem = Item(project: MarsProject) | Placeholder(id: string)

  /** `p-${i}` */
  function PlaceholderId(i: nat): string {
    "p-" + Decimal.Show(i)
  }

  /** The display items: the projects themselves, or six placeholders if there are none. */
  function DisplayItems(projList: seq<MarsProject>): (items: seq<DisplayItem>)
    ensures |items| == if |projList| == 0 then PlaceholderCount else |projList|
  {
    if |projList| == 0 then seq(PlaceholderCount, i requires 0 <= i => Placeholder(PlaceholderId(i)))
    else seq(|projList|, i requires 0 <= i < |projList| => Item(projList[i]))
  }

  /** An empty list is replaced by exactly the placeholders `p-0` to `p-5`. */
  lemma EmptyListPlaceholders()
    ensures DisplayItems([]) == [Placeholder("p-0"), Placeholder("p-1"), Placeholder("p-2"),
                                 Placeholder("p-3"), Placeholder("p-4"), Placeholder("p-5")]
  {
    var items := DisplayItems([]);
    assert Decimal.Show(0) == "0" && Decimal.Show(1) == "1" && Decimal.Show(2) == "2";
    assert Decimal.Show(3) == "3" && Decimal.Show(4) == "4" && Decimal.Show(5) == "5";
    assert items[0] == Placeholder("p-0") && items[1] == Placeholder("p-1");
    assert items[2] == Placeholder("p-2") && items[3] == Placeholder("p-3");
    assert items[4] == Placeholder("p-4") && items[5] == Placeholder("p-5");
  }

  /** A non-empty list is used as it is, in order, and contains no placeholder. */
  lemma ProjectsUsedInOrder(projList: seq<MarsProject>, i: nat)
    requires i < |projList|
    ensures |DisplayItems(projList)| == |projList|
    ensures DisplayItems(projList)[i] == Item(projList[i])
  {
  }

  /** Three `Math.random()` values, in the order `createNodes` draws them for one node:
    * height, angle, radial offset. */
  datatype Draw = Draw(height: real, turn: real, offset: real)

  predicate InUnit(u: real) {
    0.0 <= u < 1.0
  }

  predicate DrawValid(d: Draw) {
    InUnit(d.height) && InUnit(d.turn) && InUnit(d.offset)
  }

  /** `yPos = (Math.random() - 0.5) * hRange` */
  function NodeY(u: real): (y: real)
    requires InUnit(u)
    ensures -20.0 <= y < 20.0
  {
    (u - 0.5) * HeightRange
  }

  function Clamp01(t: real): (c: real)
    ensures 0.0 <= c <= 1.0
    ensures 0.0 <= t <= 1.0 ==> c == t
    ensures t < 0.0 ==> c == 0.0
    ensures t > 1.0 ==> c == 1.0
  {
    if t < 0.0 then 0.0 else if t > 1.0 then 1.0 else t
  }

  /** The tree's radius at a node's height, with the normalised height clamped to [0, 1]. */
  function TreeRadiusAt(yPos: real): (r: real)
    ensures 0.0 <= r <= 17.0
  {
    var t := (yPos + 22.5) / TreeHeight;
    (1.0 - Clamp01(t)) * 17.0
  }

  /** Inside the band nodes are placed in, the clamp never engages: the radius is the
    * unclamped line and stays strictly inside (0, 17). */
  lemma ClampInactiveInBand(yPos: real)
    requires -20.0 <= yPos < 20.0
    ensures TreeRadiusAt(yPos) == (1.0 - (yPos + 22.5) / TreeHeight) * 17.0
    ensures 0.0 < TreeRadiusAt(yPos) < 17.0
  {
    var t := (yPos + 22.5) / TreeHeight;
    assert 0.0 < t < 1.0;
  }

  /** `radius = treeRadiusAtH + (8 + Math.random() * 10)` */
  function OrbitRadius(yPos: real, u: real): (r: real)
    requires InUnit(u)
    ensures 8.0 <= r < 35.0
  {
    TreeRadiusAt(yPos) + (8.0 + u * 10.0)
  }

  /** `angle = Math.random() * Math.PI * 2` */
  function NodeAngle(u: real): (a: real)
    requires InUnit(u)
    ensures 0.0 <= a < 2.0 * Pi
  {
    u * Pi * 2.0
  }

  /** A sprite material, reduced to what the gallery changes: tint, opacity and the image
    * texture (an opaque URL, `None` for a placeholder). */
  datatype Material = Material(color: int, opacity: real, texture: Option<string>)

  /** A sprite together with its `userData` and its companion ring's position and scale. */
  datatype SceneNode = SceneNode(
    project: Option<MarsProject>,
    isPlaceholder: bool,
    originalScale: Vec3,
    angle: real,
    radius: real,
    yPos: real,
    position: Vec3,
    scale: Vec3,
    material: Material,
    ringPosition: Vec3,
    ringScale: Vec3)

  /** What holds of every node from creation on: the ring sits on the node, a node is a
    * placeholder exactly when it is bound to no project, a project node shows that project's
    * image, and the placement values are within their bounds. */
  ghost predicate WellFormed(n: SceneNode) {
    && n.ringPosition == n.position
    && (n.isPlaceholder <==> n.project == None)
    && (n.project.Some? ==> n.material.texture == Some(n.project.value.imageUrl))
    && (n.isPlaceholder ==> n.material.texture == None)
    && n.originalScale == BaseScale
    && 8.0 <= n.radius < 35.0
    && -20.0 <= n.yPos < 20.0
    && TreeRadiusAt(n.yPos) + 8.0 <= n.radius < TreeRadiusAt(n.yPos) + 18.0
    && 0.0 <= n.angle < 2.0 * Pi
    && ScaleInBand(n.scale)
  }

  /** A node's scale lies between the base scale and the hover scale, coordinate by coordinate. */
  ghost predicate ScaleInBand(s: Vec3) {
    && BaseScale.x <= s.x <= HoverScale.x
    && BaseScale.y <= s.y <= HoverScale.y
    && s.z == 1.0
  }

  /** The body of the `displayItems.forEach` in `createNodes`, for one item and its draws. */
  function PlaceNode(item: DisplayItem, d: Draw, trig: Trig): (n: SceneNode)
    requires DrawValid(d)
    ensures WellFormed(n)
    ensures n.project == if item.Item? then Some(item.project) else None
    ensures n.isPlaceholder == item.Placeholder?
    ensures n.position == Vec3(trig.cos(n.angle) * n.radius, n.yPos, trig.sin(n.angle) * n.radius)
    ensures n.scale == BaseScale && n.ringScale == Vec3(1.0, 1.0, 1.0)
    ensures item.Placeholder? ==> n.material == Material(Emerald, PlaceholderOpacity, None)
    ensures item.Item? ==> n.material == Material(Grey, 1.0, Some(item.project.imageUrl))
  {
    var yPos := NodeY(d.height);
    var angle := NodeAngle(d.turn);
    var radius := OrbitRadius(yPos, d.offset);
    var position := Vec3(trig.cos(angle) * radius, yPos, trig.sin(angle) * radius);
    var material :=
      if item.Placeholder? then Material(Emerald, PlaceholderOpacity, None)
      else Material(Grey, 1.0, Some(item.project.imageUrl));
    SceneNode(
      project := if item.Placeholder? then None else Some(item.project),
      isPlaceholder := item.Placeholder?,
      originalScale := BaseScale,
      angle := angle,
      radius := radius,
      yPos := yPos,
      position := position,
      scale := BaseScale,
      material := material,
      ringPosition := position,
      ringScale := Vec3(1.0, 1.0, 1.0))
  }

  ghost predicate DrawsValid(draws: seq<Draw>, count: nat) {
    count <= |draws| && forall i :: 0 <= i < count ==> DrawValid(draws[i])
  }

  /** The whole node array `createNodes` builds for a project list. */
  function Layout(projList: seq<MarsProject>, draws: seq<Draw>, trig: Trig): (nodes: seq<SceneNode>)
    requires DrawsValid(draws, |DisplayItems(projList)|)
  {
    var items := DisplayItems(projList);
    seq(|items|, i requires 0 <= i < |items| => PlaceNode(items[i], draws[i], trig))
  }

  /** An empty list gives six nodes, all placeholders bound to no project. */
  lemma EmptyLayout(draws: seq<Draw>, trig: Trig)
    requires DrawsValid(draws, PlaceholderCount)
    ensures |Layout([], draws, trig)| == PlaceholderCount
    ensures forall i :: 0 <= i < PlaceholderCount ==>
              Layout([], draws, trig)[i].isPlaceholder && Layout([], draws, trig)[i].project == None
  {
  }

  /** A non-empty list gives one node per project, node `i` bound to project `i`. */
  lemma ProjectLayout(projList: seq<MarsProject>, draws: seq<Draw>, trig: Trig)
    requires |projList| > 0
    requires DrawsValid(draws, |projList|)
    ensures |Layout(projList, draws, trig)| == |projList|
    ensures forall i :: 0 <= i < |projList| ==>
              Layout(projList, draws, trig)[i].project == Some(projList[i])
              && !Layout(projList, draws, trig)[i].isPlaceholder
  {
  }

  /** The orbit update of one node for the frame at `elapsed` seconds (`i` is its index). */
  function OrbitNode(n: SceneNode, i: nat, elapsed: real, trig: Trig): (r: SceneNode)
  {
    var floatY := trig.sin(elapsed * 0.8 + i as real) * 1.5;
    var orbitAngle := n.angle + elapsed * 0.04;
    var p := Vec3(trig.cos(orbitAngle) * n.radius, n.yPos + floatY, trig.sin(orbitAngle) * n.radius);
    var pulse := 1.0 + trig.sin(elapsed * 2.5 + i as real) * 0.08;
    n.(position := p, ringPosition := p, ringScale := Vec3(pulse, pulse, 1.0))
  }

  /** A frame's orbit update keeps the node well formed (its ring follows it) and changes
    * only where the node and its ring are and how big the ring is. */
  lemma OrbitKeepsNode(n: SceneNode, i: nat, elapsed: real, trig: Trig)
    requires WellFormed(n)
    ensures WellFormed(OrbitNode(n, i, elapsed, trig))
    ensures OrbitNode(n, i, elapsed, trig).ringPosition == OrbitNode(n, i, elapsed, trig).position
    ensures OrbitNode(n, i, elapsed, trig).(position := n.position, ringPosition := n.ringPosition,
                                            ringScale := n.ringScale) == n
  {
  }

  /** With a true cosine and sine, a frame puts the node on the horizontal circle of its
    * stored radius, within 1.5 of its base height, and pulses its ring by at most 8%. */
  lemma OrbitOnCircle(n: SceneNode, i: nat, elapsed: real, trig: Trig)
    requires UnitCircle(trig)
    ensures var p := OrbitNode(n, i, elapsed, trig).position;
            p.x * p.x + p.z * p.z == n.radius * n.radius
    ensures var p := OrbitNode(n, i, elapsed, trig).position;
            n.yPos - 1.5 <= p.y <= n.yPos + 1.5
    ensures var s := OrbitNode(n, i, elapsed, trig).ringScale;
            0.92 <= s.x <= 1.08 && s.x == s.y && s.z == 1.0
  {
    var orbitAngle := n.angle + elapsed * 0.04;
    var c, s := trig.cos(orbitAngle), trig.sin(orbitAngle);
    var r := n.radius;
    assert c * c + s * s == 1.0;
    calc {
      (c * r) * (c * r) + (s * r) * (s * r);
      (c * c + s * s) * (r * r);
      r * r;
    }
    TrigBounded(trig, elapsed * 0.8 + i as real);
    TrigBounded(trig, elapsed * 2.5 + i as real);
  }

  /** One raycaster hit: the index of the node struck and its distance along the ray. */
  datatype Hit = Hit(node: nat, distance: real)

  /** What the raycaster guarantees of its result: every hit is one of the nodes, and the
    * hits come nearest first. */
  ghost predicate HitsValid(hits: seq<Hit>, count: nat) {
    && (forall i :: 0 <= i < |hits| ==> hits[i].node < count)
    && (forall i, j :: 0 <= i < j < |hits| ==> hits[i].distance <= hits[j].distance)
  }

  /** The project a click selects: the nearest hit's, if it has one. */
  function ClickTarget(nodes: seq<SceneNode>, hits: seq<Hit>): (r: Option<MarsProject>)
    requires HitsValid(hits, |nodes|)
    ensures hits == [] ==> r == None
    ensures r.Some? ==> hits != [] && r == nodes[hits[0].node].project
    ensures r.Some? ==> forall h :: h in hits ==> hits[0].distance <= h.distance
  {
    if hits == [] then None else nodes[hits[0].node].project
  }

  /** Placeholders are inert and project nodes are not: a click selects something exactly
    * when its nearest hit is a project node. */
  lemma ClickSelectsOnlyProjects(nodes: seq<SceneNode>, hits: seq<Hit>)
    requires HitsValid(hits, |nodes|)
    requires forall i :: 0 <= i < |nodes| ==> WellFormed(nodes[i])
    ensures ClickTarget(nodes, hits).Some? <==> hits != [] && !nodes[hits[0].node].isPlaceholder
  {
  }

  /** Two nodes on one ray at depths 50 and 80: the click resolves to the nearer one. */
  lemma NearestNodeWins(nodes: seq<SceneNode>, near: nat, far: nat)
    requires near < |nodes| && far < |nodes|
    requires nodes[near].project.Some?
    ensures ClickTarget(nodes, [Hit(near, 50.0), Hit(far, 80.0)]) == nodes[near].project
  {
  }

  /** The node the hover pass highlights is the node a click on the same hits selects:
    * one is highlighted exactly when a click would select, and then it is that node's project. */
  lemma HoverMatchesClick(nodes: seq<SceneNode>, hits: seq<Hit>)
    requires HitsValid(hits, |nodes|)
    requires forall i :: 0 <= i < |nodes| ==> WellFormed(nodes[i])
    ensures HoverTarget(nodes, hits).Some? <==> ClickTarget(nodes, hits).Some?
    ensures HoverTarget(nodes, hits).Some? ==>
              ClickTarget(nodes, hits) == nodes[HoverTarget(nodes, hits).value].project
  {
  }

  /** The rest styling the hover pass first applies to every node. */
  function RestNode(n: SceneNode): SceneNode {
    var m := if n.isPlaceholder then n.material.(color := Emerald, opacity := PlaceholderOpacity)
             else n.material.(color := Grey);
    n.(material := m, scale := LerpVec(n.scale, n.originalScale, RestEase))
  }

  /** The highlight the hovered node then receives on top. */
  function HighlightNode(n: SceneNode): SceneNode {
    n.(material := n.material.(color := White), scale := LerpVec(n.scale, HoverScale, HoverEase))
  }

  /** The reset keeps a node well formed: its scale eases towards the base scale and so
    * stays in the band. */
  lemma RestKeepsNode(n: SceneNode)
    requires WellFormed(n)
    ensures WellFormed(RestNode(n))
  {
    EaseStep(n.scale.x, BaseScale.x, RestEase);
    EaseStep(n.scale.y, BaseScale.y, RestEase);
  }

  /** The highlight keeps a node well formed: its scale eases towards the hover scale and so
    * stays in the band. */
  lemma HighlightKeepsNode(n: SceneNode)
    requires WellFormed(n)
    ensures WellFormed(HighlightNode(n))
  {
    EaseStep(n.scale.x, HoverScale.x, HoverEase);
    EaseStep(n.scale.y, HoverScale.y, HoverEase);
  }

  /** The node the pointer highlights: the nearest hit, unless it is a placeholder. */
  function HoverTarget(nodes: seq<SceneNode>, hits: seq<Hit>): (t: Option<nat>)
    requires HitsValid(hits, |nodes|)
    ensures t.Some? <==> hits != [] && !nodes[hits[0].node].isPlaceholder
    ensures t.Some? ==> t.value == hits[0].node
    ensures t.Some? ==> t.value < |nodes| && !nodes[t.value].isPlaceholder
    ensures t.Some? ==> forall h :: h in hits ==> t.value == hits[0].node
                                                  && hits[0].distance <= h.distance
  {
    if hits != [] && !nodes[hits[0].node].isPlaceholder then Some(hits[0].node) else None
  }

  /** The node array after the hover pass. */
  function HoverFrame(nodes: seq<SceneNode>, hits: seq<Hit>): (r: seq<SceneNode>)
    requires HitsValid(hits, |nodes|)
  {
    seq(|nodes|, i requires 0 <= i < |nodes| =>
      if HoverTarget(nodes, hits) == Some(i) then HighlightNode(RestNode(nodes[i])) else RestNode(nodes[i]))
  }

  /** `document.body.style.cursor`: unset until the first frame, then `'default'`/`'pointer'`. */
  datatype Cursor = Unset | Default | Pointer

  function HoverCursor(c: Cursor, nodes: seq<SceneNode>, hits: seq<Hit>): (r: Cursor)
    requires HitsValid(hits, |nodes|)
    ensures r == Default <==> hits == [] || (c == Default && HoverTarget(nodes, hits).None?)
    ensures r == Pointer <==> HoverTarget(nodes, hits).Some? || (c == Pointer && hits != [])
  {
    if hits == [] then Default else if !nodes[hits[0].node].isPlaceholder then Pointer else c
  }

  /** At most one node is white after a hover pass, and it is the hover target. */
  lemma {:induction false} HoverHighlightsAtMostOne(nodes: seq<SceneNode>, hits: seq<Hit>, i: nat)
    requires HitsValid(hits, |nodes|)
    requires i < |nodes|
    ensures |HoverFrame(nodes, hits)| == |nodes|
    ensures HoverFrame(nodes, hits)[i].material.color == White <==> HoverTarget(nodes, hits) == Some(i)
  {
    var r := HoverFrame(nodes, hits);
    var rest := RestNode(nodes[i]);
    assert rest.material.color == Grey || rest.material.color == Emerald;
    if HoverTarget(nodes, hits) == Some(i) {
      assert r[i] == HighlightNode(rest);
    } else {
      assert r[i] == rest;
    }
  }

  /** Every node is reset to its rest tint and eased by 0.1 towards its original scale; the
    * target then turns white and is eased by 0.15 towards the hover scale; a placeholder's
    * opacity is back at 0.15; and nothing else about any node changes. */
  lemma HoverStyling(nodes: seq<SceneNode>, hits: seq<Hit>, i: nat)
    requires HitsValid(hits, |nodes|)
    requires i < |nodes|
    ensures var n, r := nodes[i], HoverFrame(nodes, hits)[i];
            && r.material.color == (if HoverTarget(nodes, hits) == Some(i) then White
                                    else if n.isPlaceholder then Emerald else Grey)
            && (n.isPlaceholder ==> r.material.opacity == PlaceholderOpacity)
            && (!n.isPlaceholder ==> r.material.opacity == n.material.opacity)
            && r.scale == (if HoverTarget(nodes, hits) == Some(i)
                           then LerpVec(LerpVec(n.scale, n.originalScale, RestEase), HoverScale, HoverEase)
                           else LerpVec(n.scale, n.originalScale, RestEase))
            && r.material.texture == n.material.texture
            && r.(material := n.material, scale := n.scale) == n
  {
  }

  /** The nodes after a run of `animate` hover passes, one per list of hits (the orbit
    * update leaves scales and materials alone, so it is not repeated here). */
  function HoverFrames(nodes: seq<SceneNode>, frames: seq<seq<Hit>>): (r: seq<SceneNode>)
    requires forall j :: 0 <= j < |frames| ==> HitsValid(frames[j], |nodes|)
    ensures |r| == |nodes|
    decreases |frames|
  {
    if frames == [] then nodes else HoverFrames(HoverFrame(nodes, frames[0]), frames[1..])
  }

  /** A node that is never the hover target (a placeholder, or one never hit first) eases
    * back to its original scale: after `k` frames each scale coordinate is the `k`-fold
    * blend `Eased` towards the original, so its gap shrinks by a factor 0.9 per frame. */
  lemma {:induction false} NeverTargetEases(nodes: seq<SceneNode>, frames: seq<seq<Hit>>, i: nat)
    requires forall j :: 0 <= j < |frames| ==> HitsValid(frames[j], |nodes|)
    requires i < |nodes|
    requires nodes[i].isPlaceholder ||
             forall j :: 0 <= j < |frames| ==> frames[j] == [] || frames[j][0].node != i
    ensures var n, r := nodes[i], HoverFrames(nodes, frames)[i];
            && r.scale == Vec3(Eased(n.scale.x, n.originalScale.x, RestEase, |frames|),
                               Eased(n.scale.y, n.originalScale.y, RestEase, |frames|),
                               Eased(n.scale.z, n.originalScale.z, RestEase, |frames|))
            && r.scale.x - n.originalScale.x
               == Power(1.0 - RestEase, |frames|) * (n.scale.x - n.originalScale.x)
            && r.originalScale == n.originalScale
            && r.isPlaceholder == n.isPlaceholder
    decreases |frames|
  {
    var n := nodes[i];
    EasedGap(n.scale.x, n.originalScale.x, RestEase, |frames|);
    if frames != [] {
      var next := HoverFrame(nodes, frames[0]);
      HoverStyling(nodes, frames[0], i);
      assert HoverTarget(nodes, frames[0]) != Some(i);
      assert next[i].scale == LerpVec(n.scale, n.originalScale, RestEase);
      assert next[i].originalScale == n.originalScale;
      NeverTargetEases(next, frames[1..], i);
    }
  }

  /** While one node stays the hover target, each frame blends its scale first towards the
    * original (0.1) and then towards the hover scale (0.15). The two blends make a single
    * blend by `HeldEase` (0.235) towards the fixed point `HeldLimit`. */
  const HeldEase: real := 1.0 - (1.0 - RestEase) * (1.0 - HoverEase)

  function HeldLimit(o: real, h: real): (l: real)
    ensures o <= h ==> o <= l <= h
  {
    ((1.0 - HoverEase) * RestEase * o + HoverEase * h) / HeldEase
  }

  /** The hovered node's two blends of one frame are the one blend towards `HeldLimit`. */
  lemma HoverBlendsCompose(s: real, o: real, h: real)
    ensures Lerp(Lerp(s, o, RestEase), h, HoverEase) == Lerp(s, HeldLimit(o, h), HeldEase)
  {
  }

  /** A project node that is hit first in every one of `k` frames eases `k` times by
    * `HeldEase` towards the held limit (about 11.28 on x, 8.0 on y, 1 on z): the gap
    * shrinks to 0.765^k of the first, and the scale never passes the limit. */
  lemma {:induction false} HeldTargetEases(nodes: seq<SceneNode>, frames: seq<seq<Hit>>, i: nat)
    requires forall j :: 0 <= j < |frames| ==> HitsValid(frames[j], |nodes|)
    requires i < |nodes| && !nodes[i].isPlaceholder
    requires forall j :: 0 <= j < |frames| ==> frames[j] != [] && frames[j][0].node == i
    ensures var n, r := nodes[i], HoverFrames(nodes, frames)[i];
            var o := n.originalScale;
            && r.scale == Vec3(Eased(n.scale.x, HeldLimit(o.x, HoverScale.x), HeldEase, |frames|),
                               Eased(n.scale.y, HeldLimit(o.y, HoverScale.y), HeldEase, |frames|),
                               Eased(n.scale.z, HeldLimit(o.z, HoverScale.z), HeldEase, |frames|))
            && r.scale.x - HeldLimit(o.x, HoverScale.x)
               == Power(1.0 - HeldEase, |frames|) * (n.scale.x - HeldLimit(o.x, HoverScale.x))
            && (n.scale.x <= HeldLimit(o.x, HoverScale.x) ==>
                  n.scale.x <= r.scale.x <= HeldLimit(o.x, HoverScale.x))
            && (HeldLimit(o.x, HoverScale.x) <= n.scale.x ==>
                  HeldLimit(o.x, HoverScale.x) <= r.scale.x <= n.scale.x)
            && r.originalScale == n.originalScale
            && !r.isPlaceholder
    decreases |frames|
  {
    var n := nodes[i];
    var o := n.originalScale;
    EasedGap(n.scale.x, HeldLimit(o.x, HoverScale.x), HeldEase, |frames|);
    EasedStaysOnSide(n.scale.x, HeldLimit(o.x, HoverScale.x), HeldEase, |frames|);
    if frames != [] {
      var next := HoverFrame(nodes, frames[0]);
      HoverStyling(nodes, frames[0], i);
      assert HoverTarget(nodes, frames[0]) == Some(i);
      HoverBlendsCompose(n.scale.x, o.x, HoverScale.x);
      HoverBlendsCompose(n.scale.y, o.y, HoverScale.y);
      HoverBlendsCompose(n.scale.z, o.z, HoverScale.z);
      assert next[i].scale == Vec3(Lerp(n.scale.x, HeldLimit(o.x, HoverScale.x), HeldEase),
                                   Lerp(n.scale.y, HeldLimit(o.y, HoverScale.y), HeldEase),
                                   Lerp(n.scale.z, HeldLimit(o.z, HoverScale.z), HeldEase));
      assert next[i].originalScale == o && !next[i].isPlaceholder;
      HeldTargetEases(next, frames[1..], i);
    }
  }

  /** A hovered node whose scale starts between its original and the hover scale stays
    * between them frame after frame, despite the two competing blends. */
  lemma HoveredScaleBounded(s: real, o: real, h: real)
    requires o <= s <= h
    ensures o <= Lerp(Lerp(s, o, RestEase), h, HoverEase) <= h
  {
    EaseStep(s, o, RestEase);
    EaseStep(Lerp(s, o, RestEase), h, HoverEase);
  }
}
