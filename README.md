# Mars memory gallery: a Dafny model of its bookkeeping

The gallery shows a particle Christmas tree with clickable image nodes, one per stored
"memory" (a `MarsProject`: id, description, image URL). This project models the discrete
logic around that 3D view and proves properties of it:

- **Node registry** (`components/Scene.tsx`, `createNodes`). The `projectNodes` array is
  emptied and rebuilt from the project list. If there are no projects, six placeholders
  `p-0`..`p-5` are used instead. Each node is bound to its project or to nothing, and gets
  height, radius and angle from clamped formulas. Each node also has a ring at its position.
- **Per-frame node update and hover pass** (`animate`). Every node orbits and bobs, and its
  ring follows it. Every node is reset to its rest tint and eased back to its original scale.
  Then the nearest hit, unless it is a placeholder, turns white and eases towards the hover
  scale. The page cursor is set.
- **Click resolution** (`onClick`). Only the nearest hit counts, and placeholders are inert.
- **Light-trail ribbon** (`createLightTrail`). This covers the vertex, colour and index
  buffers: two vertices per sample and two triangles per segment.
- **Motes and star topper.** The mote drift with its bounce rule, and the outer/inner
  vertex path of the star.
- **Page state** (`App.tsx`). This covers the append-only project list, saving under
  `mars_memories_2025` (only when the list is non-empty), loading with a fallback,
  selection and overlay close, the upload modal's open flag, the mute toggle and when the
  add button is visible.
- **Upload form** (`components/UploadModal.tsx`). This covers the image-change handler,
  the submit guard (which is also the button's `disabled` condition), and the record that
  a valid submission uploads before closing.

Modules follow the source files: `Projects` (types.ts, constants.ts), `Decimal` (the decimal
ids), `Geometry` (vectors, `lerp`, trigonometry as a parameter), `Nodes` and `SceneGraph`
(the registry, orbit, hover and click), `LightTrail`, `Motes`, `StarTopper`,
`Application` (App.tsx) and `Upload` (UploadModal.tsx).

What the model takes as inputs instead of computing:

- `Math.random()` values are an input sequence of draws in [0, 1).
- `Math.cos`/`Math.sin` are a `Trig` parameter. The lemmas about distances assume only
  cos² + sin² = 1.
- The raycaster's result is a sequence of hits. The precondition says they are nearest first.
- The curve samples of the ribbon are a function parameter.
- `Date.now()` is a parameter.
- `JSON.stringify`/`JSON.parse` are an abstract `Codec`. The round trip assumes only that
  decoding an encoding gives the list back and that an encoding is never empty.
- `localStorage` is a `map<string, string>`.
- A texture is the image URL it was loaded from.

Behaviour of the code that the model follows and that a reader might not expect:

- The load effect tests `if (saved)`, so a stored empty string counts as no entry.
- The submit guard `!previewUrl` rejects an empty preview string as well as `null`.
- When the nearest hit is a placeholder, the hover pass leaves the cursor as it was.
  It becomes `'default'` only when nothing is hit.
- The hovered node is first eased towards its original scale and then towards the
  hover scale. It therefore settles between the two and never reaches (12, 8.5, 1).
  `Nodes.HoveredScaleBounded` proves it stays in that interval, and
  `Nodes.HeldTargetEases` proves it moves monotonically towards about (11.28, 8.0, 1)
  without passing it.
- A bouncing mote has its position multiplied by -0.99. Its velocity is not reversed.
- The node count is 6 for an empty list and the list's length otherwise. It is not
  `max(6, length)`.

## Model

| member | source | states |
|---|---|---|
| Decimal.Show | components/UploadModal.tsx:30 | the decimal id of a timestamp is non-empty, all digits, with no leading zero |
| Decimal.ParseShow | components/UploadModal.tsx:30 | reading the rendered timestamp back gives the timestamp |
| Decimal.ShowInjective | components/UploadModal.tsx:30 | distinct timestamps give distinct ids |
| Geometry.EaseStep | components/Scene.tsx:510 | one `lerp` step with factor in (0,1) never overshoots and shrinks the gap to the target by exactly 1 - alpha |
| Geometry.EasedGap | components/Scene.tsx:510 | after n frames towards a fixed target the gap is (1 - alpha)^n of the initial gap |
| Geometry.EasedStaysOnSide | components/Scene.tsx:510 | repeated easing never crosses the target |
| Nodes.DisplayItems | components/Scene.tsx:323-325 | six display items for an empty list, otherwise one per project |
| Nodes.EmptyListPlaceholders | components/Scene.tsx:323-324 | an empty list becomes exactly the placeholders p-0 .. p-5 |
| Nodes.ProjectsUsedInOrder | components/Scene.tsx:323-325 | a non-empty list is used as is, item i being project i |
| Nodes.NodeY | components/Scene.tsx:328-329 | a node's base height lies in [-20, 20) |
| Nodes.Clamp01 | components/Scene.tsx:331 | the clamp lies in [0, 1], is the identity there and saturates outside |
| Nodes.TreeRadiusAt | components/Scene.tsx:330-331 | the clamped tree radius lies in [0, 17] for any height |
| Nodes.ClampInactiveInBand | components/Scene.tsx:328-331 | within the node band the clamp never engages and the tree radius is strictly inside (0, 17) |
| Nodes.OrbitRadius | components/Scene.tsx:334-335 | the stored orbit radius lies in [8, 35) |
| Nodes.NodeAngle | components/Scene.tsx:333 | the orbit angle lies in [0, 2π) |
| Nodes.PlaceNode | components/Scene.tsx:327-385 | a new node is bound to its project or to nothing (placeholder); it sits at (cos θ·r, y, sin θ·r) with θ in [0, 2π) and a radius 8 to 18 beyond the tree's radius at its height, so it floats around the tree and not on it; a project node is grey, opaque and shows its image, a placeholder is emerald at opacity 0.15 with no image; it has base scale (10, 7, 1) and its ring sits at its position with unit scale |
| Nodes.EmptyLayout | components/Scene.tsx:323-371 | an empty list yields six placeholder nodes bound to no project |
| Nodes.ProjectLayout | components/Scene.tsx:323-371 | a non-empty list yields one node per project in input order, none a placeholder |
| Nodes.OrbitKeepsNode | components/Scene.tsx:484-498 | the orbit update keeps the ring on the node and changes only the node's and ring's position and the ring's scale |
| Nodes.OrbitOnCircle | components/Scene.tsx:485-496 | after the orbit update the node is on the circle of its radius, within 1.5 of its base height, and the ring pulses within [0.92, 1.08] |
| Nodes.ClickTarget | components/Scene.tsx:443-451 | no hits select nothing; a selection is the nearest hit's project |
| Nodes.ClickSelectsOnlyProjects | components/Scene.tsx:446-449 | a click selects exactly when the nearest hit is not a placeholder |
| Nodes.NearestNodeWins | components/Scene.tsx:445-447 | with nodes at depths 50 and 80 on the ray the depth-50 node's project is selected |
| Nodes.HoverTarget | components/Scene.tsx:513-515 | there is a highlighted node exactly when some node is hit and the nearest hit is not a placeholder; it is then the nearest hit's node |
| Nodes.HoverMatchesClick | components/Scene.tsx:443-451 | the node the hover pass highlights is exactly the node whose project a click on the same hits selects |
| Nodes.HoverCursor | components/Scene.tsx:513-522 | the cursor becomes 'default' only with no hits, 'pointer' only for a non-placeholder nearest hit, and otherwise keeps its value |
| Nodes.HoverHighlightsAtMostOne | components/Scene.tsx:503-519 | after the hover pass a node is white exactly when it is the hover target, so at most one is |
| Nodes.HoverStyling | components/Scene.tsx:503-519 | every node gets its rest tint (placeholders also opacity 0.15) and eases 0.1 towards its original scale; the target then turns white and eases 0.15 towards (12, 8.5, 1); the texture and every other field are kept |
| Nodes.NeverTargetEases | components/Scene.tsx:500-518 | over any run of hover frames in which a node is never the target, each scale coordinate is the k-fold ease towards the original scale, its gap shrinking by 0.9 per frame |
| Nodes.RestKeepsNode | components/Scene.tsx:503-511 | the reset keeps a node well formed, its scale inside the band from (10, 7, 1) to (12, 8.5, 1) |
| Nodes.HighlightKeepsNode | components/Scene.tsx:513-518 | the highlight keeps a node well formed, its scale inside the same band |
| Nodes.HeldLimit | components/Scene.tsx:510-518 | the fixed point of the hovered node's two blends lies between the original and the hover scale |
| Nodes.HoverBlendsCompose | components/Scene.tsx:510-518 | the blend by 0.1 towards the original followed by the blend by 0.15 towards the hover scale is one blend by 0.235 towards the held limit |
| Nodes.HeldTargetEases | components/Scene.tsx:500-518 | over k frames in which a project node is hit first, each scale coordinate is the k-fold ease by 0.235 towards the held limit; its gap shrinks to 0.765^k of the first and it never passes the limit |
| Nodes.HoveredScaleBounded | components/Scene.tsx:510-518 | a hovered scale between the original and the hover scale stays between them under both blends |
| SceneGraph.Scene.constructor | components/Scene.tsx:314 | the registry starts empty with the cursor unset |
| SceneGraph.Scene.CreateNodes | components/Scene.tsx:316-387 | the node array is replaced, not extended, by the layout of the display items, and every node is well formed |
| SceneGraph.Scene.AnimateNodes | components/Scene.tsx:484-498 | each node i receives the orbit update for index i and its ring follows; the cursor is untouched |
| SceneGraph.Scene.HoverPass | components/Scene.tsx:500-522 | the nodes become the hover frame of the hits and the cursor is set as the hover rule says |
| SceneGraph.Scene.Frame | components/Scene.tsx:484-522 | one frame moves every node and then applies the hover pass to the moved nodes; the cursor becomes pointer over a project, default over nothing and stays as it was over a placeholder |
| SceneGraph.Scene.OnClick | components/Scene.tsx:443-452 | onProjectSelect is called once with the nearest hit's project when it is not a placeholder, and not at all otherwise |
| LightTrail.RibbonVertices | components/Scene.tsx:267-283 | six coordinates (two vertices) and six colour entries per sample, in sample order |
| LightTrail.EdgesStraddlePoint | components/Scene.tsx:274-278 | the two vertices of a sample are symmetric about the curve point |
| LightTrail.ColorsBetweenEnds | components/Scene.tsx:264-282 | each sample's colour lies between #fff000 and #ffffff and both of its vertices share it |
| LightTrail.RibbonIndices | components/Scene.tsx:288-296 | 6·(res−1) indices, segment i giving (2i, 2i+1, 2i+2) and (2i+1, 2i+3, 2i+2) |
| LightTrail.IndicesInRange | components/Scene.tsx:288-296 | every index is below 2·res, the number of vertices |
| LightTrail.TrianglesProper | components/Scene.tsx:294-295 | every triangle names three distinct vertices |
| LightTrail.EveryVertexUsed | components/Scene.tsx:267-296 | with two or more samples every vertex belongs to some triangle |
| Motes.SeedPosition | components/Scene.tsx:396-398 | a mote starts within [-90, 90) on each axis |
| Motes.SeedVelocity | components/Scene.tsx:399-401 | a mote's velocity lies in [-0.02, 0.02) on each axis |
| Motes.BounceReverses | components/Scene.tsx:477-479 | a coordinate beyond 120 changes sign and ends strictly nearer the centre |
| Motes.DriftStaysInBox | components/Scene.tsx:474-479 | a coordinate within 120 and a seeded speed stays within 120 after a frame |
| Motes.StaysInBox | components/Scene.tsx:474-479 | the same for any number of frames |
| Motes.SeededMoteStaysInBox | components/Scene.tsx:396-479 | a seeded mote never leaves the box |
| Motes.StepMotes | components/Scene.tsx:473-480 | in place, every coordinate of every mote drifts by its own velocity with the bounce rule |
| StarTopper.StarShape | components/Scene.tsx:117-134 | the path is the moveTo point (0, -radius) and ten vertices alternating outer and inner radius at -π/2 + k·π/5 |
| StarTopper.VerticesOnCircles | components/Scene.tsx:124-130 | tips lie on the outer circle and notches on the inner one |
| Upload.UploadModal.constructor | components/UploadModal.tsx:11-12 | the form starts with no text and no preview |
| Upload.UploadModal.ChangeDescription | components/UploadModal.tsx:79 | the text changes, the preview does not |
| Upload.UploadModal.ImageChange | components/UploadModal.tsx:14-23 | with a file chosen the preview becomes the reader's result at `onloadend`: the data URL, or nothing when the read failed; no file leaves the preview unchanged |
| Upload.UploadModal.Submit | components/UploadModal.tsx:25-37 | no calls exactly when the button is disabled; otherwise one onUpload with the current text, image and id the timestamp's decimal string (with no leading zeros, parsing back to the timestamp), then onClose |
| Application.Loaded | App.tsx:21-33 | the loaded list is MARS_PROJECTS unless the key holds non-empty text that decodes to it |
| Application.Saved | App.tsx:42-46 | an empty list leaves storage untouched; a non-empty one is written under the key only |
| Application.SaveThenLoad | App.tsx:21-46 | saving a non-empty list and loading gives the same list |
| Application.LoadCases | App.tsx:21-33 | a missing entry or a decode failure falls back to MARS_PROJECTS, a decoded list is used |
| Application.Appended | App.tsx:95-97 | the new list is one longer, keeps every earlier entry and ends with the new one |
| Application.App.constructor | App.tsx:12-15 | empty list, no selection, modal closed, not muted |
| Application.App.Load | App.tsx:21-33 | the list becomes the loaded list; nothing else changes |
| Application.App.Save | App.tsx:42-46 | storage becomes the saved storage; nothing else changes |
| Application.App.UploadProject | App.tsx:95-97 | the project is appended; nothing else changes |
| Application.App.SelectProject | App.tsx:91-93 | the project is selected and the add button hides |
| Application.App.CloseOverlay | App.tsx:164 | the selection is cleared; the add button shows exactly when the modal is closed |
| Application.App.OpenUpload | App.tsx:147-150 | the modal opens and the add button hides |
| Application.App.CloseUpload | App.tsx:168-170 | the modal closes; the add button shows exactly when nothing is selected |
| Application.App.HandleModal | App.tsx:168-173 | the modal's calls append its uploads in order and close it when it asks |
| Application.App.MountAudio | App.tsx:48-52 | the audio element exists after the audio effect |
| Application.App.ToggleMute | App.tsx:79-89 | without an audio element nothing changes; otherwise the muted flag flips |

## Left out

- Rendering: the renderer, camera, orbit controls, the bloom pipeline, lights and fog are
  foreign library calls. So are materials beyond tint, opacity and texture, and the
  disposal on unmount (components/Scene.tsx:28-63, 540-564).
- Procedural decoration: the tree particles, ornaments, gift boxes and star field
  (components/Scene.tsx:68-115, 149-243, 415-436). This is floating-point trigonometry
  over random numbers, with nothing discrete to state.
- The ribbon's curve: the CatmullRom control points, curve sampling, tangent, cross product,
  normalisation and the `sin` width (components/Scene.tsx:247-258, 269-272) are the `Sample`
  parameter of `LightTrail.RibbonVertices`.
- LightTrail.ColorsBetweenEnds: takes the two ribbon colours as plain fractions of #fff000
  and #ffffff. It does not model three.js colour-space conversion.
- LightTrail.RibbonVertices: its colour buffer uses the same plain `ColorStart`/`ColorEnd`
  fractions, with no colour-space conversion.
- Per-frame transforms with no logic: group and trail rotation, the star's pulse and
  `lookAt`, mote group rotation, and ring/sprite orientation towards the camera
  (components/Scene.tsx:464-470, 482, 494).
- Motes.StepMotes: states the drift over real numbers. It does not model `Float32Array`
  rounding.
- Nodes.PlaceNode: states positions in terms of the `Trig` parameter, not numeric cos/sin.
  `Math.PI` is the real 3.141592653589793, the shortest decimal that rounds to that double.
- Identity of three.js objects: sprites and rings are values inside the registry's node
  sequence. Object identity, aliasing and `scene.add`/`scene.remove` membership are not
  modelled.
- Raycasting geometry and the pointer-to-ray mapping (`onMouseMove`, `setFromCamera`): the
  hit list is an input.
- Event plumbing: `requestAnimationFrame`, window listeners, resize handling, asynchronous
  texture loading and `e.preventDefault()`.
- Scene rebuilds: the scene effect depends on `onProjectSelect` as well as `projects`
  (components/Scene.tsx:565). The page passes `handleProjectSelect`, a new closure on every
  render (App.tsx:91-93, 144). So every state change of the page tears the whole scene down
  and builds it again with a fresh random layout. That includes selecting, closing the
  overlay, opening or closing the modal, muting and the sync timer (App.tsx:36). The model
  has no link between the page's state and the scene, and `SceneGraph.Scene.CreateNodes` is
  one such rebuild.
- Upload.UploadModal.ImageChange: the read and its `onloadend` are one step, with the
  result given as a parameter. When two reads overlap and end in the other order, the
  earlier file's result can win; the model does not capture that order.
- Audio playback: `play`/`pause`, autoplay rejection, the first-click retry and logging
  (App.tsx:54-76, 83, 86). Only the muted flag and whether an audio element exists are
  modelled.
- The sync indicator timer and all JSX rendering other than the add button's condition
  (App.tsx:16, 35-38, 99-189).
- JSON syntax: the `Codec` returns either a list or a failure. Text that parses to
  something other than a list is not representable.
- components/Overlay.tsx and services/geminiService.ts are not part of this model. The
  first is rendering only; the second is a network call with a fallback string.
