# A verified model of drmkit

drmkit drives Linux display hardware: it puts layers, decorations and a cursor on the hardware's
planes, and keeps what is on screen right while everything moves. This project models the parts of it
that compute something hard, and proves what they promise:

- **Choosing planes.** Matching layers to planes (Hopcroft-Karp), laying a stack onto planes whose
  order is fixed, and numbering the planes' `zpos`.
- **Shadows.** Rendering a window's shadow with a running-sum blur, and the least-recently-used cache
  in front of it.
- **Incremental compositing.** One damage rectangle per frame, and a redraw confined to it.
- **The cursor.** Reading a cursor file, finding it among themes that inherit from one another,
  timing its animation, fitting a frame into a plane's buffer, and double-buffering it so that its
  hotspot stays under the pointer.
- **Ownership.** Which CRTC holds which overlay plane, and which kernel blob is still named by what is
  on screen; and the hash that tells one HDR metadata block from another.
- **Capture.** Composing again, in bytes, what a CRTC shows.
- **Coverage baselines.** The printer and parser of the file that records which tests ran where.

Code that updates state in the original is imperative here: classes with the same fields, loops over
arrays, methods proved against a specification function, and lemmas about that function. Code that is
made of expressions is functions. Widths that matter (32-bit coordinates, saturating sums, hashes
modulo 2^64, bytes) are written out.

Calls out of the modelled code are parameters. A kernel that may refuse a commit is a boolean; whether
a theme directory holds a cursor is a function; the float arithmetic that tints a shadow or mixes two
of them is a function of bytes; a blob factory either gives a blob or nothing.

## Where the code and its promises differ

These are proved as they are in the code, each with an input that shows it or the exact condition
under which the promise holds.

- A completed zpos numbering is a numbering exactly when 64 bits leave room for the stack: every
  plane's lowest value plus one for each plane above it (`ZposOrder.GreedyIsNumbering`). Without the
  room the increment saturates, two planes are told the top value, and success is reported
  (`ZposOrder.TopReusedExample`).
- The running-sum blur is the mean it computes for every line of a length exactly when the radius is
  below that length (`BoxBlur.LinesAgreeIff`), and for every image of a size exactly when the radius is
  below both sides (`BoxBlur.PassesAgreeIff`). A shadow's mask always meets that or is blank.
- A size of zero listed between others makes the choice of the nearest cursor size forget the ones
  before it (`NearestSize.ZeroForgetsExample`, `NearestSize.NearestIff`).
- A cursor turned by half in hardware is still placed by the hotspot of the upright buffer, so the pixel
  under the pointer is the one opposite the hotspot: the hotspot only when it is the middle of the
  buffer (`Stage.HalfTurnMovesHotspotIff`, `Stage.HalfTurnExample`). A quarter turn does the same, either
  way (`Stage.QuarterTurnMovesHotspotIff`).
- The two flags saying whether primaries and white point are present are not serialized, so changing
  one does not change the metadata hash (`HdrMetadata.OneFieldIff`, `HdrMetadata.FlagExample`).
- Telling the buffer pair that a refused commit landed lets the next draw write the buffer on screen
  (`PingPongs.FalseReportTearsIff`, `PingPongs.FalseReportExample`). The comment there expects it; the next
  commit that lands repairs it. A draw between staging a commit and its landing has the same effect when
  nothing was waiting (`PingPongs.DrawnWhileStagedIff`).
- An animation whose loop is longer than 2^64 nanoseconds does not keep time, unless one frame fills
  the loop (`Animation.KeepsTimeIff`, `Animation.LongLoopExample`). Cursors loaded from files are never
  that long.
- A coverage baseline writes names unescaped but unescapes them when read. A name comes back exactly when
  it is one line, nothing in it reads as an escape, and it does not hold or begin what stands between a
  name and its reason (`Coverage.RoundTripIff`, `Coverage.NameCutExample`).
- The canvas blend clips source and destination each on its own and scales what is left of one to what is
  left of the other, so a decoration hanging off the canvas is squeezed rather than cut
  (`FramebufferPresenter.AlignedIff`, `FramebufferPresenter.SqueezedExample`). Damage lies on the canvas, so
  the presenter never asks for it.
- Strides, row offsets and the products of the blend's index map are 32-bit and checked, so a canvas row
  of 65537 pixels stops the presenter (`FramebufferPresenter.WideRowExample`). A frame completes exactly
  when every overlap is at most 65536 pixels each way and its last row lies within 32 bits
  (`FramebufferPresenter.FrameCompletesIff`), as on every canvas of usual size
  (`FramebufferPresenter.SmallFramesComplete`).
- A cursor whose delays sum to more than the longest duration stops the code instead of failing to load
  (`Animation.Assemble`). Cursors loaded from files are never that long.
- A matcher that was never shaped has no slot for the sentinel, and solving it is out of bounds; the model
  starts there, and only shaping it makes it valid (`Matching.BipartiteMatching.constructor`).
- The comment on the box filter says an upper row or column can reach one pixel past the source. It
  cannot (`Sprite.BoxInside`).

## Model

| member | source | states |
|---|---|---|
| Matching.BipartiteMatching.Solve | crates/drmkit-planes/src/matching.rs:125-151 | The links it leaves are a matching of the graph, and no matching of the graph is larger; no placed layer prefers a plane left free, by score and then by the order edges were added; no layer is placed ahead of an earlier one that could use every plane it could; the square of the rounds is at most four times the layers |
| Matching.BipartiteMatching.Bfs | crates/drmkit-planes/src/matching.rs:154-194 | A layer is the least length of an alternating walk from a free layer, up to the nearest free plane; whether one is reached is the answer, and when none is, nothing reached leads anywhere unreached |
| Matching.LayersAreShortest | crates/drmkit-planes/src/matching.rs:154-194 | No walk is shorter than a layer says, for layers built in the order of a queue |
| Matching.BipartiteMatching.constructor | crates/drmkit-planes/src/matching.rs:56-68 | A new matcher has no shape and no layers, not even the sentinel's |
| Matching.BipartiteMatching.Dfs | crates/drmkit-planes/src/matching.rs:202-224 | On success the starting node has gained a partner with every link still answered; on failure nothing but layers changed, and what was given up leads to no free plane; either way no edge leads more than one of the round's layers down, taken planes stay taken, and no link passes over a free plane listed before its own |
| Matching.BipartiteMatching.AugmentAll | crates/drmkit-planes/src/matching.rs:125-151 | A round begun with a free plane in reach keeps the links a matching, places at least one layer more, and leaves every way to a free plane longer than the shortest was |
| Matching.BipartiteMatching.Reset | crates/drmkit-planes/src/matching.rs:82-101 | A reused matcher is left exactly as a new one of that shape |
| Matching.BipartiteMatching.AddScoredEdge | crates/drmkit-planes/src/matching.rs:116-121 | Appends the edge, or changes nothing when an endpoint is out of range |
| Matching.StuckIsMaximum | crates/drmkit-planes/src/matching.rs:125-151 | When the layering reaches no free plane, every matching of the graph is at most as large: there is a cover of all edges with one node for each pair |
| Matching.DeadLayers | crates/drmkit-planes/src/matching.rs:202-224 | A round that places nothing has given up nodes down to the free planes, which contradicts having reached one: every round makes progress |
| Matching.RelinkKeepsRound | crates/drmkit-planes/src/matching.rs:202-224 | Moving a plane to the node one layer up keeps edges leading at most one layer down, and given-up nodes leading down only to given-up ones |
| Matching.PassOver | crates/drmkit-planes/src/matching.rs:202-224 | An attempt never passes over an edge to a free plane: it lies one layer down |
| Matching.Settle | crates/drmkit-planes/src/matching.rs:202-224 | Taking the plane of an edge leaves every linked layer on the first plane of its list that was not taken by others |
| Matching.SettledIsPreferred | crates/drmkit-planes/src/matching.rs:134-141 | A layer linked so in its sorted list has, in the list as given, an edge to its plane before any edge to a free one |
| Matching.TurnKept | crates/drmkit-planes/src/matching.rs:125-151 | Where an earlier free layer was tried in vain, a later one that could use no more is not placed |
| Matching.WalkIsDeep | crates/drmkit-planes/src/matching.rs:202-224 | By a round's layers, once every free layer is tried, no walk is shorter than its end is deep, and one as short ends on a node given up |
| Matching.RoundLengthens | crates/drmkit-planes/src/matching.rs:125-151 | After a round every walk to a free plane is longer than the shortest was when it began |
| Matching.LayerBounds | crates/drmkit-planes/src/matching.rs:154-194 | No matching exceeds the links by more nodes than any one layer above the nearest free plane holds |
| Matching.FewLeft | crates/drmkit-planes/src/matching.rs:154-194 | What any matching has over the links, times the way to the nearest free plane, is at most the number of layers to place |
| Matching.FewRounds | crates/drmkit-planes/src/matching.rs:8-15 | Rounds that each place something, the way growing by one or more each time, number at most twice the square root of the layers to place |
| Matching.ScoresDoNotChangeCardinality | crates/drmkit-planes/src/matching.rs:17-23 | Graphs with the same edges, however scored, have equally large maximum matchings |
| Matching.SortIsStable | crates/drmkit-planes/src/matching.rs:125-151 | Edges of one score are tried in the order they were added |
| Matching.SortIsDescending | crates/drmkit-planes/src/matching.rs:125-151 | A better scored edge is tried first |
| Matching.SortKeepsEdges | crates/drmkit-planes/src/matching.rs:125-151 | Sorting neither adds nor loses an edge |
| PlaneOrders.New | crates/drmkit-planes/src/plane_order.rs:63-90 | Both tables hold the greedy fits: every layer from below takes the first plane it fits above the last one taken, from above the last plane it fits, and nothing follows a layer that fits none |
| PlaneOrders.Choose | crates/drmkit-planes/src/plane_order.rs:98-140 | The run chosen is an admissible arrangement that no other beats in layers placed or, among those, in cost composited, or equals and is tried before; its canvas is as high as in any arrangement of that run; none is returned only when there is no admissible arrangement at all |
| PlaneOrders.TopmostIsHighest | crates/drmkit-planes/src/plane_order.rs:122-131 | The topmost host between the greedy halves is as high as the canvas of any arrangement of the run |
| PlaneOrders.EarliestIsLeast | crates/drmkit-planes/src/plane_order.rs:63-90 | Whenever some fit of the lowest layers exists the greedy one does, and uses no higher plane |
| PlaneOrders.LatestIsGreatest | crates/drmkit-planes/src/plane_order.rs:63-90 | Whenever some fit of the highest layers exists the greedy one does, and uses no lower plane |
| PlaneOrders.RoomIsArrangement | crates/drmkit-planes/src/plane_order.rs:98-140 | Room between the two greedy fits is enough for an arrangement |
| PlaneOrders.ArrangementHasRoom | crates/drmkit-planes/src/plane_order.rs:98-140 | Any arrangement at all implies room between the two greedy fits |
| PlaneOrders.PlaneOfIsPlaced | crates/drmkit-planes/src/plane_order.rs:143-151 | The plane reported for a layer is the one the arrangement gives it |
| PlaneOrders.ArrangementKeepsOrder | crates/drmkit-planes/src/plane_order.rs:170-180 | Whatever is chosen, a lower zpos sits on a lower plane, unless both ride the canvas |
| PlaneOrders.HigherSitsHigher | crates/drmkit-planes/src/plane_order.rs:163-182 | In a consistent stack a higher layer is on a higher plane, or both ride the canvas on one |
| ZposOrder.StackZpos | crates/drmkit-planes/src/zpos_order.rs:107-155 | On success every numbered plane is told its greedy value, on failure every plane what it asked for; a numbering exists exactly on success with room for the stack, and none has a lower value |
| ZposOrder.Number | crates/drmkit-planes/src/zpos_order.rs:107-155 | Gives every rank the lowest value its plane takes above the one before, or stops where none fits; a numbering exists exactly when it completes and there is room |
| ZposOrder.GreedyIsLeast | crates/drmkit-planes/src/zpos_order.rs:107-155 | No numbering has a lower value anywhere |
| ZposOrder.NumberingUnsticks | crates/drmkit-planes/src/zpos_order.rs:107-155 | Where any numbering exists the greedy one is found |
| ZposOrder.GreedyIsNumbering | crates/drmkit-planes/src/zpos_order.rs:93-106 | A completed run is a numbering exactly when every range's lower end leaves room below the top for the ranks above it |
| ZposOrder.NumberingHasRoom | crates/drmkit-planes/src/zpos_order.rs:93-106 | Any numbering at all needs that room |
| ZposOrder.NoTopHasRoom | crates/drmkit-planes/src/zpos_order.rs:107-155 | When no range reaches the top of 64 bits success means a numbering |
| ZposOrder.TopReusedExample | crates/drmkit-planes/src/zpos_order.rs:107-155 | For two planes, whatever stacking them returns is success with one value for both, where no numbering exists |
| ZposOrder.StackedKeepsRequests | crates/drmkit-planes/src/zpos_order.rs:44-62 | After a numbering any two planes are written in the order requested, with different values, a fixed plane its own |
| ZposOrder.BelowTiesGoesUnder | crates/drmkit-planes/src/zpos_order.rs:93-106 | An entry marked to go under its ties does, whatever the plane ids |
| ZposOrder.TiesGoByPlane | crates/drmkit-planes/src/zpos_order.rs:93-106 | Of two entries with one request, both marked or neither, the lower plane id is written lower |
| ZposOrder.ConsistentIff | crates/drmkit-planes/src/zpos_order.rs:44-62 | Different requests are consistent exactly when the heights the planes get, a fixed one its own, differ the same way |
| BoxBlur.BoxBlurH | crates/drmkit-csd/src/shadow.rs:486-505 | Every row of the result is the running-sum line of the source's row |
| BoxBlur.BoxBlurV | crates/drmkit-csd/src/shadow.rs:507-523 | Every column of the result is the running-sum line of the source's column |
| BoxBlur.Blur3 | crates/drmkit-csd/src/shadow.rs:474-484 | The buffer ends up blurred three times with a third of the radius, at least one |
| BoxBlur.ThirdOfRadius | crates/drmkit-csd/src/shadow.rs:474-484 | The radius of each pass is a third of the whole, rounded down, and at least one |
| BoxBlur.DeficitFits | crates/drmkit-csd/src/shadow.rs:494-503 | The running sum never goes below zero, for any line and any radius |
| BoxBlur.LinesAgreeIff | crates/drmkit-csd/src/shadow.rs:486-523 | The running sum gives the mean of every line of a length exactly when the radius is below the length |
| BoxBlur.PassesAgreeIff | crates/drmkit-csd/src/shadow.rs:474-523 | Any number of passes agree on every image of a size exactly when the radius is below both sides |
| BoxBlur.RunningRefinesNaive | crates/drmkit-csd/src/shadow.rs:474-523 | On an image that is blank or wide and high enough for the radius, any number of passes gives the clamp-to-edge window means |
| BoxBlur.RunningCanDiffer | crates/drmkit-csd/src/shadow.rs:486-505 | One white pixel blurred with radius one comes out gray |
| BoxBlur.MeanReverse | crates/drmkit-csd/src/shadow.rs:486-505 | Taking means commutes with reversing a line |
| BoxBlur.PassesSymmetric | crates/drmkit-csd/src/shadow.rs:474-484 | Blurring keeps an image its own mirror image both ways |
| ShadowRender.MaskBlurrable | crates/drmkit-csd/src/shadow.rs:368-395 | Every mask is blank or meets the blur's bound, for every key and theme |
| ShadowRender.RenderUsesExactBlur | crates/drmkit-csd/src/shadow.rs:368-395 | So the three passes over any mask equal the clamp-to-edge means |
| ShadowRender.FillMask | crates/drmkit-csd/src/shadow.rs:373-393 | The mask is opaque exactly inside the rounded panel |
| ShadowRender.InsideIff | crates/drmkit-csd/src/shadow.rs:428-467 | A rounded rectangle is its rectangle less four corners, each what lies outside a circle of the radius tangent to both sides |
| ShadowRender.InMaskIff | crates/drmkit-csd/src/shadow.rs:368-395 | The panel lies the shadow's extent inside the patch on all sides |
| ShadowRender.RadiusIsLargest | crates/drmkit-csd/src/shadow.rs:368-395 | The corner radius is the theme's, or the largest that fits twice both ways |
| ShadowRender.RenderShadow | crates/drmkit-csd/src/shadow.rs:368-425 | The patch is the tinted coverage of its key under its theme, the coverage being the mask under three exact means |
| ShadowRender.TintIsSeen | crates/drmkit-csd/src/shadow.rs:408-424 | As a little-endian word a tinted pixel is alpha, red, green and blue, each color the whole part of the theme's under its alpha |
| ShadowRender.MaskSymmetric | crates/drmkit-csd/src/shadow.rs:428-467 | The rounded rectangle is its own mirror image both ways |
| ShadowRender.ShadowSymmetric | crates/drmkit-csd/src/shadow.rs:368-425 | Every pixel of a patch equals its left-right and top-bottom mirror images |
| ShadowRender.ShadowPremultiplied | crates/drmkit-csd/src/shadow.rs:408-424 | No color of a patch is brighter than its alpha |
| ShadowRender.RendersUnique | crates/drmkit-csd/src/shadow.rs:368-425 | A key and a theme determine the patch |
| Recency.HitStep | crates/drmkit-csd/src/shadow.rs:317-333 | Moving a held key to the end gives the most recent keys after using it |
| Recency.MissStep | crates/drmkit-csd/src/shadow.rs:317-333 | Dropping the oldest when full and appending gives the most recent keys after using a new one |
| Recency.KeptIffRecent | crates/drmkit-csd/src/shadow.rs:317-333 | A key is held exactly when it was used and fewer than `capacity` other keys were used since |
| Recency.LargerHoldsMore | crates/drmkit-csd/src/shadow.rs:317-333 | A larger cache holds everything a smaller one does, after any uses |
| ShadowCaches.ShadowCache.constructor | crates/drmkit-csd/src/shadow.rs:150-167 | A new cache is empty, and never has room for nothing |
| ShadowCaches.ShadowCache.Ensure | crates/drmkit-csd/src/shadow.rs:317-333 | Afterwards the keys held are exactly the `capacity` most recently used, oldest first, each with its patch; a held patch is not rendered again |
| ShadowCaches.ShadowCache.MakeRoom | crates/drmkit-csd/src/shadow.rs:317-333 | Drops the oldest entry, and only it, when the cache is full |
| ShadowCaches.ShadowCache.Occupancy | crates/drmkit-csd/src/shadow.rs:125-133 | There are as many entries as keys in order, none twice, and never more than the capacity |
| ShadowCaches.ShadowCache.BlitInto | crates/drmkit-csd/src/shadow.rs:218-244 | Draws unless a size is zero; the destination becomes the cached patch composited over it, clipped |
| ShadowCaches.BlitShows | crates/drmkit-csd/src/shadow.rs:218-244 | Each pixel of the shadow there is room for lands over the destination's pixel in its row and column |
| ShadowCaches.ShadowCache.BlitCrossFade | crates/drmkit-csd/src/shadow.rs:265-314 | Draws exactly for equal non-zero sizes with room for both patches or an end point; ends are a blit of one patch, between them the mix of both is composited |
| ShadowCaches.FadeShows | crates/drmkit-csd/src/shadow.rs:265-314 | A cross-fade lands the mix of both shadows' pixels there, alpha mixed alike |
| ShadowCaches.PairKept | crates/drmkit-csd/src/shadow.rs:265-314 | Of two keys used in turn the first is still held exactly when both are one or the capacity is at least two |
| ShadowCaches.CachedIsFresh | crates/drmkit-csd/src/shadow.rs:317-333 | While a key goes with one theme a cached patch is what rendering it now would give |
| ShadowCaches.SrcOverRow | crates/drmkit-csd/src/shadow.rs:339-347 | Composites a row in place, each byte once, and nothing outside it |
| ShadowCaches.CompositeRows | crates/drmkit-csd/src/shadow.rs:218-244 | Composites rows in turn until one does not fit |
| ShadowCaches.RowsOverAt | crates/drmkit-csd/src/shadow.rs:218-244 | Where rows do not overlap each byte is composited once, from its own row and column, and no other byte changes |
| ShadowCaches.OverByteExact | crates/drmkit-csd/src/shadow.rs:339-347 | A premultiplied source never saturates; an opaque one replaces, a clear one leaves |
| Damage.Bounds.Add | crates/drmkit-csd/src/damage.rs:63-85 | The box becomes the smallest around itself and the rectangle; an empty rectangle changes nothing |
| Damage.ComputeDamage | crates/drmkit-csd/src/damage.rs:98-156 | On a canvas of any size: everything when slots cannot be paired, else the canvas part of the box around every footprint that changed |
| Damage.UndamagedUnchanged | crates/drmkit-csd/src/damage.rs:98-156 | Outside the damage every slot covers a pixel in both frames or in neither, with the same rectangle and content |
| Damage.TouchedHolds | crates/drmkit-csd/src/damage.rs:117-136 | The box holds the old and new footprint of every slot that changed |
| Damage.TouchedIsLeast | crates/drmkit-csd/src/damage.rs:87-92 | No smaller box does |
| Damage.OnCanvasExact | crates/drmkit-csd/src/damage.rs:142-156 | The damage is exactly the part of that box on the canvas, or on what of it signed coordinates reach |
| Damage.IntersectExact | crates/drmkit-csd/src/damage.rs:180-203 | On the canvas the overlap is exactly what lies in both |
| FramebufferPresenter.ClearInto | crates/drmkit-scene/src/canvas.rs:230-258 | Clears what of a region lies on the shadow and nothing else, and completes exactly unless its clipping or the end of its last row overflows |
| FramebufferPresenter.BlendInto | crates/drmkit-scene/src/canvas.rs:270-352 | Blends what is left of a source rectangle after clipping, scaled nearest-neighbor, over what is left of the destination's, and changes nothing else; refuses a source too wide for its stride; completes exactly unless a 32-bit product or offset overflows |
| FramebufferPresenter.SourceScales | crates/drmkit-scene/src/canvas.rs:205-214 | The source position for a destination position is the one its start falls in when scaled, and never past the end |
| Compositing.BlendNearest | crates/drmkit-scene/src/canvas.rs:95-121 | Every channel of a blend is the nearest byte to the exact one, a full one when that is more; a clear source changes nothing |
| Compositing.PremultipliedNearest | crates/drmkit-scene/src/canvas.rs:95-121 | A premultiplied source never saturates: every channel is the nearest to the exact one |
| Compositing.SaturatesIff | crates/drmkit-scene/src/canvas.rs:95-121 | A channel saturates over some destination exactly when it exceeds its alpha |
| Compositing.BlendPremultiplied | crates/drmkit-scene/src/canvas.rs:95-121 | Blending keeps every color within its alpha |
| Compositing.BlendOpaque | crates/drmkit-scene/src/canvas.rs:95-121 | What is opaque stays opaque |
| Compositing.BlendExample | crates/drmkit-scene/src/canvas.rs:771-795 | Half-transparent red over opaque blue |
| FramebufferPresenter.LastRowFits | crates/drmkit-scene/src/canvas.rs:320-323 | The row offsets of a blend fit exactly when those of its last row do |
| FramebufferPresenter.SqueezedExample | crates/drmkit-scene/src/canvas.rs:161-214 | Two pixels hanging off by one: the one left shows the source's first pixel, not its second |
| FramebufferPresenter.AlignedIff | crates/drmkit-scene/src/canvas.rs:161-214 | A rectangle is copied pixel for pixel exactly when nothing is cut from its start, at most one pixel, or all but one, from its end, and, unless one pixel is left, the last index times the span is a 32-bit number |
| FramebufferPresenter.ClipExact | crates/drmkit-scene/src/canvas.rs:175-192 | Clipping leaves exactly the positions of a rectangle that lie on the buffer, or stops, exactly at the lowest position with a size above 2^31 |
| FramebufferPresenter.ConvertRow | crates/drmkit-scene/src/canvas.rs:448-487 | Converts one row into the framebuffer's format and touches no other byte |
| Compositing.ConvertedIsSeen | crates/drmkit-scene/src/canvas.rs:448-466 | What a converted word shows by its format's name is the color converted, opaque where the format has no alpha |
| Compositing.ConvertedShort | crates/drmkit-scene/src/canvas.rs:467-480 | A 565 word holds the high five, six and five bits of red, green and blue, or of blue, green and red |
| FramebufferPresenter.ComposeIntoFramebuffer | crates/drmkit-csd/src/presenter_fb.rs:118-194 | For any damage: completes exactly when no stride, offset or product overflows 32 bits on the way; then the shadow shows the slots blended over the cleared damage in order, and exactly the damaged rows that fit are converted |
| FramebufferPresenter.DamagedRows | crates/drmkit-csd/src/presenter_fb.rs:179-193 | The rows converted are the damaged ones on the framebuffer; of damage that starts above it, as many from the top as it has |
| FramebufferPresenter.SlotCompletesIff | crates/drmkit-csd/src/presenter_fb.rs:144-177 | For damage on the canvas a slot's blend completes exactly when it is not drawable, or its overlap is at most 65536 pixels each way and its last row lies within 32 bits in both buffers |
| FramebufferPresenter.CompositeIsDrawn | crates/drmkit-csd/src/presenter_fb.rs:144-177 | For damage on the canvas what is blended is each drawable slot's own pixels where it lies, inside the damage and nowhere else |
| FramebufferPresenter.UndamagedLooksSame | crates/drmkit-csd/src/damage.rs:98-156 | Outside the damage the two frames, drawn in full, have the same pixel |
| FramebufferPresenter.IncrementalIsFull | crates/drmkit-csd/src/presenter_fb.rs:118-194 | Redrawing the damage of a correct frame gives the next frame drawn in full, for every frame that completes |
| FramebufferPresenter.PresentFrame | crates/drmkit-csd/src/presenter_fb.rs:118-194 | One incremental frame completes exactly when nothing overflows, and then leaves shadow and framebuffer as a full redraw would |
| FramebufferPresenter.PresentAll | crates/drmkit-csd/src/presenter_fb.rs:118-194 | A sequence of frames, slots moving, repainting, opening, closing, coming and going, completes exactly when each frame does, and then the last frame is shown as drawn in full |
| FramebufferPresenter.FrameCompletesIff | crates/drmkit-csd/src/presenter_fb.rs:118-194 | A frame completes exactly when it damages nothing, or its last damaged row lies within 32 bits and every overlap with the damage fits |
| FramebufferPresenter.SmallFramesComplete | crates/drmkit-csd/src/presenter_fb.rs:118-194 | On a canvas up to 65536 pixels each way whose bytes 32 bits count, with slot buffers whose bytes they count too, every frame completes |
| FramebufferPresenter.WideRowExample | crates/drmkit-scene/src/canvas.rs:209-214 | A decoration one row high and 65537 pixels wide, on a canvas as wide, stops the code at its last pixel |
| BoxFilter.CoversSpan | crates/drmkit-cursor/src/sprite.rs:132-186 | The cells a box touches cover it exactly |
| BoxFilter.ContributionIs | crates/drmkit-cursor/src/sprite.rs:132-186 | Along an axis a source pixel counts over all boxes for exactly its overlap with the covered extent |
| BoxFilter.EveryCellOnce | crates/drmkit-cursor/src/sprite.rs:132-186 | Over all boxes a source pixel weighs exactly its overlap with the covered area: 65536 when it lies wholly inside |
| BoxFilter.SumConstant | crates/drmkit-cursor/src/sprite.rs:132-186 | The weights of a box total its area |
| BoxFilter.PreimageArea | crates/drmkit-cursor/src/sprite.rs:132-186 | Every box has the area of one step by one step, above zero |
| BoxFilter.MeanBetween | crates/drmkit-cursor/src/sprite.rs:124-131 | A mean lies between the least and the greatest value of its box |
| BoxFilter.MeanMonotone | crates/drmkit-cursor/src/sprite.rs:124-131 | A channel nowhere above another has a mean no higher |
| BoxFilter.MeanNearest | crates/drmkit-cursor/src/sprite.rs:124-131 | The mean is rounded to the nearest byte |
| Sprite.FourTurns | crates/drmkit-cursor/src/sprite.rs:97-111 | Four quarter turns are the identity |
| Sprite.QuarterMore | crates/drmkit-cursor/src/sprite.rs:103-111 | Sampling a turned frame is sampling the frame one quarter further, for every rotation |
| Sprite.QuarterIsClockwise | crates/drmkit-cursor/src/sprite.rs:31-41 | A quarter turn makes the top row the right column, three quarters the left column read upwards |
| Sprite.BlitFits | crates/drmkit-cursor/src/sprite.rs:226-246 | What is written is at least one pixel and no larger than the buffer or the turned frame, on both axes |
| Sprite.TightAxisFillsIff | crates/drmkit-cursor/src/sprite.rs:226-246 | When a sprite is shrunk the axis that overflows most is placed exactly to the buffer's edge exactly when truncating the ratio lost at most half a pixel over it, as for any sprite up to 32768 across |
| Sprite.KeepsProportions | crates/drmkit-cursor/src/sprite.rs:226-246 | A shrunk sprite's width and height are in the turned frame's proportion, to within a pixel on each axis |
| Sprite.ScalesNearest | crates/drmkit-cursor/src/sprite.rs:226-246 | Both axes are scaled by the largest 16.16 ratio that fits the buffer, each to the nearest pixel, or to one |
| Sprite.CenteredMargins | crates/drmkit-cursor/src/sprite.rs:247-262 | Margins on both sides are equal, or one pixel less before the sprite |
| Sprite.BoxInside | crates/drmkit-cursor/src/sprite.rs:132-186 | No box touches a pixel outside the turned frame: the clamp never acts |
| Sprite.BoxLies | crates/drmkit-cursor/src/sprite.rs:132-186 | A pixel of the placed sprite averages the box that lies as far along the turned frame both ways |
| Sprite.HotspotPixel | crates/drmkit-cursor/src/sprite.rs:307-337 | Unshrunk, the buffer's pixel at the returned hotspot is the frame's hotspot pixel |
| Sprite.HotspotInsideShrunk | crates/drmkit-cursor/src/sprite.rs:307-337 | Shrunk, the hotspot stays inside the sprite |
| Sprite.HotspotScales | crates/drmkit-cursor/src/sprite.rs:307-337 | The hotspot lies on the sprite's pixel that the hotspot pixel's corner falls in when scaled |
| Sprite.HotspotTruncates | crates/drmkit-cursor/src/sprite.rs:307-337 | A scaled hotspot, even one off the frame, moves toward zero by less than a pixel |
| Sprite.HotspotIsNearest | crates/drmkit-cursor/src/sprite.rs:307-337 | The hotspot is placed where the sprite has it, or as near as a 32-bit position comes |
| Sprite.ComposedPremultiplied | crates/drmkit-cursor/src/sprite.rs:206-292 | A premultiplied frame stays premultiplied, turned, shrunk and centered |
| Sprite.ShrunkBetween | crates/drmkit-cursor/src/sprite.rs:132-186 | Every channel of a shrunk pixel lies between its least and greatest value over the box behind it |
| Sprite.FlatColorSurvives | crates/drmkit-cursor/src/sprite.rs:206-292 | A frame of one color is that color at any size and turn |
| Sprite.AccumulatorFits | crates/drmkit-cursor/src/sprite.rs:132-186 | The sums of one box stay below 2^64 for every frame the loader accepts |
| SpriteBlit.AverageBox | crates/drmkit-cursor/src/sprite.rs:148-184 | Accumulating covered widths by heights gives the rounded mean of the box |
| SpriteBlit.BoxDownscale | crates/drmkit-cursor/src/sprite.rs:132-186 | Every pixel of the placed rectangle is the mean of its box, and nothing else changes |
| SpriteBlit.Compose | crates/drmkit-cursor/src/sprite.rs:206-292 | The buffer holds the turned, shrunk, centered frame over zero, stride padding untouched, and the placement says where |
| SpriteBlit.ShiftUpLeft | crates/drmkit-cursor/src/sprite.rs:345-367 | Every pixel is the one that lay a shift further down and right before the call, or zero; padding is untouched |
| SpriteBlit.RowShifted | crates/drmkit-cursor/src/sprite.rs:345-367 | Copying rows in ascending order reads only rows not yet written |
| Stage.HotspotUnderPointerIff | crates/drmkit-cursor/src/stage.rs:11-26 | Origin plus hotspot is the pointer exactly when the hotspot is a signed number and nothing saturates |
| Stage.ShiftedOriginOnScreenIff | crates/drmkit-cursor/src/stage.rs:28-47 | The shift is at most the hotspot, and the shifted plane starts on screen exactly when the pointer is |
| Stage.OriginMovesByShiftIff | crates/drmkit-cursor/src/stage.rs:28-47 | The plane moves as far as the pixels do exactly when the subtraction does not saturate |
| Stage.EdgeShiftKeepsScreen | crates/drmkit-cursor/src/stage.rs:28-47 | The shifted buffer at the shifted origin shows the same at every screen pixel |
| Stage.PointerShowsHotspot | crates/drmkit-cursor/src/stage.rs:11-26 | The screen pixel under the pointer is the buffer's pixel at the hotspot |
| Stage.TurnedOnce | crates/drmkit-cursor/src/stage.rs:49-66 | A sprite is turned once, by the hardware or as it is drawn, by what was asked |
| Stage.HalfTurnShowsOpposite | crates/drmkit-cursor/src/stage.rs:136-176 | Turned by half in hardware, the screen pixel under the pointer is the buffer's pixel opposite the hotspot |
| Stage.HalfTurnMovesHotspotIff | crates/drmkit-cursor/src/stage.rs:136-176 | It is the hotspot's pixel, whatever the buffer holds, exactly when the hotspot is the middle of the buffer |
| Stage.HalfTurnExample | crates/drmkit-cursor/src/stage.rs:136-176 | For an arrow in a 64 by 64 buffer it is one near the opposite corner |
| Stage.QuarterTurnShows | crates/drmkit-cursor/src/stage.rs:136-176 | Turned by a quarter in hardware, either way, the screen pixel under the pointer is the buffer's pixel turned back from the hotspot |
| Stage.TurnsAsDrawn | crates/drmkit-cursor/src/stage.rs:49-66 | Turned clockwise by hardware a square frame looks as if drawn a quarter turned, and the other way as if three quarters |
| Stage.QuarterTurnMovesHotspotIff | crates/drmkit-cursor/src/stage.rs:136-176 | It is the hotspot's pixel, whatever the buffer holds, exactly when the hotspot is the middle of the buffer |
| PingPongs.PingPong.DrawTarget | crates/drmkit-cursor/src/pingpong.rs:56-69 | The buffer to draw into; never the live one of a pair |
| PingPongs.PingPong.CommitTarget | crates/drmkit-cursor/src/pingpong.rs:71-83 | The buffer to show next: the one drawn, or the live one |
| PingPongs.PingPong.MarkDrawn | crates/drmkit-cursor/src/pingpong.rs:85-90 | A draw is noted for a pair, and changes nothing for a single buffer |
| PingPongs.PingPong.Published | crates/drmkit-cursor/src/pingpong.rs:109-114 | The buffer just shown becomes the live one |
| PingPongs.HonestRunsStayInStep | crates/drmkit-cursor/src/pingpong.rs:26-115 | Over any run of draws and commits reported as they went, refusals included, no draw touches the buffer on screen and the next landed commit shows the newest picture |
| PingPongs.FalseReportTearsIff | crates/drmkit-cursor/src/pingpong.rs:98-115 | Reporting a refused commit as landed makes the next draw tear exactly when a picture was waiting |
| PingPongs.FalseReportExample | crates/drmkit-cursor/src/pingpong.rs:98-115 | A picture waits, its commit is refused and reported as landed: the next draw goes to the buffer on screen |
| PingPongs.DrawnWhileStagedIff | crates/drmkit-cursor/src/pingpong.rs:98-115 | After a draw between staging a commit and its landing, the next draw goes to the buffer on screen exactly when nothing waited at staging; otherwise the buffer shown is the live one |
| PingPongs.LandedCommitRecovers | crates/drmkit-cursor/src/pingpong.rs:98-115 | However commits were reported, one that lands and is reported puts the pair back in step |
| Renderers.Renderer.Draw | crates/drmkit-cursor/src/renderer.rs:665-713 | Draws the frame, shifted as the pointer's position wants, into the buffer not on screen, which the next commit will show; without a cursor changes nothing |
| Renderers.Renderer.MoveTo | crates/drmkit-cursor/src/renderer.rs:444-447 | Moves the pointer and draws nothing |
| Renderers.Renderer.SetVisible | crates/drmkit-cursor/src/renderer.rs:449-452 | Shows or hides and draws nothing |
| Renderers.Renderer.SetCursor | crates/drmkit-cursor/src/renderer.rs:434-442 | The first frame of the new cursor is what the next commit shows |
| Renderers.Renderer.SetRotation | crates/drmkit-cursor/src/renderer.rs:418-427 | The drawn frame is redrawn turned; without one nothing is drawn |
| Renderers.Renderer.Prepare | crates/drmkit-cursor/src/renderer.rs:469-488 | Redraws exactly when the position wants another shift, and the sprite is then shifted right |
| Renderers.Renderer.Tick | crates/drmkit-cursor/src/renderer.rs:498-511 | An animated cursor has the frame due drawn; nothing is redrawn when it already is |
| Renderers.Renderer.StageInto | crates/drmkit-cursor/src/renderer.rs:524-554 | What is staged is the next buffer, or none when hidden, at the pointer less the drawn hotspot, whole and unscaled, with the rotation, the hotspot once drawn, and the zpos |
| Renderers.Renderer.Published | crates/drmkit-cursor/src/renderer.rs:556-561 | After a landed commit the buffer it showed is on screen and the pair is told; the two are in step exactly when it showed nothing or the buffer the pair was going to show |
| Renderers.Renderer.Commit | crates/drmkit-cursor/src/renderer.rs:572-594 | An accepted visible commit makes the plane show, in the colors it reads by its format, the frame last drawn with its hotspot under the pointer, at every screen pixel, or turned by half or a quarter in place when the hardware does that; a refused one changes nothing on screen |
| Renderers.HeldIsShown | crates/drmkit-cursor/src/renderer.rs:665-713 | A buffer drawn shifted, on a plane placed by the reduced hotspot, shows the sprite where it belongs |
| Renderers.HeldIsQuartered | crates/drmkit-cursor/src/renderer.rs:665-713 | A buffer drawn upright, on a plane that turns by a quarter, shows the sprite turned by a quarter where it lies |
| Renderers.Paint | crates/drmkit-cursor/src/renderer.rs:685-706 | Composing, shifting and copying out leaves a buffer in which a plane of that format sees the shifted sprite |
| Renderers.PointerShowsFrameHotspot | crates/drmkit-cursor/src/stage.rs:11-19 | The pixel under the pointer is the frame's own hotspot pixel, when the sprite fits its buffer |
| Renderers.InOrderIsSeen | crates/drmkit-cursor/src/renderer.rs:734-759 | A plane reading a word by its format's name sees a pixel exactly when the word is that pixel reordered |
| Animation.Assemble | crates/drmkit-cursor/src/cursor.rs:184-190 | The cycle is the sum of the frames' delays; no frames is an error; it completes exactly when the sum is within the longest duration |
| Animation.FrameIndexAt | crates/drmkit-cursor/src/cursor.rs:237-256 | The frame whose delay covers the moment of the loop; the fallthrough is never reached |
| Animation.CoversUnique | crates/drmkit-cursor/src/cursor.rs:237-256 | One frame covers each moment |
| Animation.ZeroDelayNeverShows | crates/drmkit-cursor/src/cursor.rs:211-219 | A frame without a delay never shows in an animated cursor |
| Animation.Periodic | crates/drmkit-cursor/src/cursor.rs:237-256 | Whole loops make no difference |
| Animation.ShowsForItsDelay | crates/drmkit-cursor/src/cursor.rs:231-256 | In each loop every frame shows for exactly its delay |
| Animation.KeepsTimeIff | crates/drmkit-cursor/src/cursor.rs:241-244 | The frame covers the true moment always, exactly when a loop's nanoseconds fit a word or one frame fills the loop |
| Animation.LongLoopExample | crates/drmkit-cursor/src/cursor.rs:241-244 | Of two frames of 2^64 nanoseconds the first shows when the second should |
| Animation.LoadedCursorsKeepTime | crates/drmkit-cursor/src/cursor.rs:94-115 | Cursors within the loader's limits always keep time |
| ThemeSearch.Bfs | crates/drmkit-cursor/src/theme.rs:299-336 | Ends on every graph, cycles and uninstalled parents included, having looked at themes exactly layer by layer, each once, up to the first that holds the cursor |
| ThemeSearch.Walk | crates/drmkit-cursor/src/theme.rs:237-292 | Finds the first theme with the cursor among those from the start, then from `default`, then the rest as discovered, and reports the themes looked at |
| ThemeSearch.TryRest | crates/drmkit-cursor/src/theme.rs:271-291 | Every theme not yet tried is tried in discovery order |
| ThemeSearch.FindIn | crates/drmkit-cursor/src/theme.rs:325-333 | The first of a theme's directories that holds the cursor |
| ThemeSearch.Theme.Resolve | crates/drmkit-cursor/src/theme.rs:201-234 | A refused name leaves the memo alone; otherwise the outcome is what a walk gives, remembered; with no theme named the first lookup's environment decides |
| ThemeSearch.OrderDistinct | crates/drmkit-cursor/src/theme.rs:252-289 | No theme is looked at twice |
| ThemeSearch.NotFoundIff | crates/drmkit-cursor/src/theme.rs:196-200 | A cursor is not found exactly when no indexed theme holds it, whatever the start |
| ThemeSearch.NearestHolder | crates/drmkit-cursor/src/theme.rs:190-195 | When a theme reachable from the start holds the cursor, the one it comes from is fewest `Inherits` steps away |
| ThemeSearch.LayersByPaths | crates/drmkit-cursor/src/theme.rs:299-336 | Themes are looked at in the order they first end a path of `Inherits` steps: shorter paths first, and of equal length those through parents listed earlier |
| ThemeSearch.LayersReachAll | crates/drmkit-cursor/src/theme.rs:299-336 | A walk that finds nothing has looked at every theme reachable |
| XCursor.Reader.Word | crates/drmkit-cursor/src/xcursor.rs:123-128 | Reads a little-endian word and moves past it, or fails and moves nothing |
| XCursor.Reader.Words | crates/drmkit-cursor/src/xcursor.rs:146-152 | Reads a run of words only if all are present |
| XCursor.Reader.Seek | crates/drmkit-cursor/src/xcursor.rs:115-121 | Moves inside the file or fails |
| XCursor.ReadHeader | crates/drmkit-cursor/src/xcursor.rs:180-206 | Succeeds exactly on a file with the magic, a long enough header and room for the entries it declares |
| XCursor.ParseImage | crates/drmkit-cursor/src/xcursor.rs:242-293 | The image whose chunk starts here, or the error the chunk's first flaw gives |
| XCursor.Parse | crates/drmkit-cursor/src/xcursor.rs:169-234 | The images filed under the size chosen, in table order, or the first error met |
| NearestSize.FindNearest | crates/drmkit-cursor/src/xcursor.rs:302-310 | The size kept after looking at every one in turn |
| NearestSize.NearestIff | crates/drmkit-cursor/src/xcursor.rs:295-301 | It is the earliest nearest non-zero size exactly when one is close, or none is listed, or the least is listed after the last zero |
| NearestSize.NonzeroIsNearest | crates/drmkit-cursor/src/xcursor.rs:295-301 | Without zeros it always is |
| NearestSize.ZeroForgetsExample | crates/drmkit-cursor/src/xcursor.rs:302-310 | A listed zero makes it forget the nearest |
| CursorFiles.RoundTrip | crates/drmkit-cursor/src/tests.rs:624-676 | A file built from images parses to exactly those of the size chosen, in order, or is too large when there are too many, or has none when no size is chosen; without zeros the size is the earliest nearest |
| CursorFiles.AppendStable | crates/drmkit-cursor/src/xcursor.rs:169-234 | A file that parses parses the same whatever follows it |
| CursorFiles.ParsedSound | crates/drmkit-cursor/src/xcursor.rs:155-168 | What is returned is at least one and at most the limit of images, all of the listed size chosen, within the dimension limits, hotspot in bounds, no bigger than the file |
| Reservations.OverlayReservation.Reserve | crates/drmkit-csd/src/reservation.rs:86-140 | The `count` least planes that would do, by zpos and id, or a shortfall exactly when there are too few after other CRTCs' claims; other claims are untouched, and no plane gets two holders |
| Reservations.LeastDistinct | crates/drmkit-csd/src/reservation.rs:126-136 | A registry that lists every plane once has none claimed twice |
| Reservations.OverlayReservation.Release | crates/drmkit-csd/src/reservation.rs:146-152 | Exactly this CRTC's planes are given back |
| Reservations.RepeatChangesNothing | crates/drmkit-csd/src/reservation.rs:62-85 | Repeating a successful request gives the same planes and changes nothing |
| Reservations.ClaimedSuit | crates/drmkit-csd/src/reservation.rs:104-116 | Every plane claimed is an overlay of the CRTC that takes the format, stacks at or above the request, and is held by no other CRTC |
| Reservations.LeastUnique | crates/drmkit-csd/src/reservation.rs:126-136 | The planes a request gets are determined, whatever order the registry holds them in |
| Reservations.UnclaimedComesLater | crates/drmkit-csd/src/reservation.rs:126-136 | A plane left over comes after every plane claimed |
| Reservations.ClaimsLieBelow | crates/drmkit-csd/src/reservation.rs:104-136 | Every plane claimed lies below every plane that would have done and was not, by zpos and then id, one without a zpos as low as any |
| HdrCaches.HdrMetadataCache.Set | crates/drmkit-display/src/hdr_cache.rs:111-142 | Builds a blob exactly when the hash is new; a failing factory changes nothing; the outgoing blob waits; a change of one serialized field always builds |
| HdrCaches.HdrMetadataCache.Clear | crates/drmkit-display/src/hdr_cache.rs:120-125 | The CRTC's blob joins those waiting, and its current id is zero |
| HdrCaches.HdrMetadataCache.AcknowledgeCommitted | crates/drmkit-display/src/hdr_cache.rs:64-71 | Destroys every waiting blob, each once, and no current one; nothing on screen loses its blob exactly when all it names is current |
| HdrCaches.HdrMetadataCache.CommitLands | crates/drmkit-display/src/hdr_cache.rs:10-17 | After a landed commit of every current id, all that is named is current |
| HdrCaches.HdrMetadataCache.ClearForSessionLoss | crates/drmkit-display/src/hdr_cache.rs:150-157 | Every blob held is forgotten and none destroyed |
| HdrCaches.HdrMetadataCache.Flush | crates/drmkit-display/src/hdr_cache.rs:166-169 | Every blob held is destroyed, and none that was already gone; nothing on screen loses its blob exactly when it names none |
| HdrCaches.Retire | crates/drmkit-display/src/hdr_cache.rs:120-125 | Retiring a blob keeps every blob in exactly one place |
| HdrCaches.Adopt | crates/drmkit-display/src/hdr_cache.rs:136-141 | Adopting a new blob keeps every blob in exactly one place |
| HdrMetadata.Serialize | crates/drmkit-display/src/hdr.rs:140-170 | Every byte of the block: the transfer function, each word in its own two bytes in green, blue, red, white order, and zero elsewhere |
| HdrMetadata.BlockExample | crates/drmkit-display/src/hdr.rs:140-170 | Every byte of an HDR10 block with BT.2020 primaries |
| HdrMetadata.TransferNumbers | crates/drmkit-display/src/hdr.rs:58-67 | The transfer function is read back from its number in the infoframe |
| HdrMetadata.SerializedIff | crates/drmkit-display/src/hdr.rs:128-138 | Two blocks are equal exactly when the transfer function and all twelve words are |
| HdrMetadata.HashOf | crates/drmkit-display/src/hdr.rs:191-193 | The hash of the serialized block |
| HdrMetadata.OneFieldIff | crates/drmkit-display/src/hdr.rs:184-190 | Of fields that differ alone, the transfer function or any 16-bit word changes the hash and a presence flag does not |
| HdrMetadata.FlagExample | crates/drmkit-display/src/hdr.rs:140-170 | One block with and without its primaries flagged: two sources, one hash |
| Fnv.Fnv1a | crates/drmkit-display/src/hdr.rs:172-182 | The hash of the bytes, step by step modulo 2^64 |
| Fnv.XorBits | crates/drmkit-display/src/hdr.rs:172-182 | A bit of an exclusive or is set exactly when it is in one operand and not the other |
| Fnv.HashExample | crates/drmkit-display/src/hdr.rs:172-182 | The published hash of one letter |
| Fnv.StepInjective | crates/drmkit-display/src/hdr.rs:172-182 | A step loses nothing of the state, nor of the byte |
| Fnv.ApartAboveLow | crates/drmkit-display/src/hdr.rs:172-182 | States after two different bytes differ above their low byte |
| Fnv.PairSeparates | crates/drmkit-display/src/hdr.rs:184-190 | Blocks that differ only within two adjacent bytes hash differently |
| Fnv.ByteSeparates | crates/drmkit-display/src/hdr.rs:184-190 | Blocks that differ in one byte hash differently |
| Blending.Div255Nearest | crates/drmkit-capture/src/image.rs:79-88 | Shifting divides by 255 to the nearest, for every product of two bytes |
| Blending.SrcOverNearest | crates/drmkit-capture/src/image.rs:90-106 | Every channel of a blend is the nearest byte to the exact one |
| Blending.SrcOverPremultiplied | crates/drmkit-capture/src/image.rs:90-106 | Blending keeps every color within its alpha |
| Blending.SrcOverOpaque | crates/drmkit-capture/src/image.rs:90-106 | An opaque pixel stays opaque |
| Blending.NoCarryIff | crates/drmkit-capture/src/snapshot.rs:70-77 | A channel carries into the next over no destination exactly when it is at most its alpha |
| Blending.ClampPremultiplies | crates/drmkit-capture/src/snapshot.rs:78-82 | Clamping premultiplies any pixel and leaves one alone exactly when it already is |
| Blending.ReadPremultiplied | crates/drmkit-capture/src/snapshot.rs:46-67 | Whatever the buffer holds, what is read is premultiplied, and opaque where the format has no alpha |
| Blending.ReadIsSeen | crates/drmkit-capture/src/snapshot.rs:46-67 | What is read is the color the word in memory holds by the format's name, clamped, made opaque, or widened |
| Blending.Widen5KeepsScale | crates/drmkit-capture/src/snapshot.rs:40-46 | Widened five-bit channels keep order and both ends, are off by less than a step, and repeat their first bits below |
| Blending.Widen6KeepsScale | crates/drmkit-capture/src/snapshot.rs:40-46 | So do six-bit ones |
| Blending.LerpWord | crates/drmkit-capture/src/snapshot.rs:634-644 | Mixing a word channel by channel in place mixes each channel on its own |
| Blending.LerpPremultiplied | crates/drmkit-capture/src/snapshot.rs:632-644 | Mixing keeps colors within alpha, and opaque pixels opaque |
| Blending.UnpremultiplyLosesNothing | crates/drmkit-capture/src/image.rs:108-132 | Multiplying the alpha back in restores every premultiplied pixel, and a clear one is all zeros |
| Capture.TapsReflect | crates/drmkit-capture/src/snapshot.rs:611-629 | The two taps are the pixel a coordinate falls in and the next, turned back at the edges as often as it takes, weighted by how far past the first it lies in 256ths |
| Capture.SamplesCenter | crates/drmkit-capture/src/snapshot.rs:593-612 | An output pixel samples the source where its center lies, but for whole reflection periods and 2^-32 for the start and each step |
| Capture.PeriodReflects | crates/drmkit-capture/src/snapshot.rs:593-629 | Whole reflection periods make no difference to where an index lies |
| Capture.FetchFindsPixel | crates/drmkit-capture/src/snapshot.rs:667-672 | Of a mapping laid out in rows by its pitch, the pixel fetched is the one in that row and column |
| Capture.MixIsBilinear | crates/drmkit-capture/src/snapshot.rs:680-692 | Each channel of a mix is the exact bilinear one rounded down by less than two |
| Capture.Visible | crates/drmkit-capture/src/snapshot.rs:529-534 | The coordinates listed run without gaps from the first on the output |
| Capture.VisibleIff | crates/drmkit-capture/src/snapshot.rs:525-534 | They are exactly the output coordinates within the extent |
| Capture.BlitUnscaled | crates/drmkit-capture/src/snapshot.rs:537-557 | Every output pixel is blended with the one framebuffer pixel over it, or untouched |
| Capture.BlitScaled | crates/drmkit-capture/src/snapshot.rs:647-697 | Every output pixel is blended with the mix of the four pixels around it, or untouched when one is missing |
| Capture.BlitPlane | crates/drmkit-capture/src/snapshot.rs:501-523 | A plane of any size and place, or empty, is blended where it lies on the output and nowhere else |
| Capture.ShownIff | crates/drmkit-capture/src/snapshot.rs:501-534 | A plane shows something exactly inside its destination, as large as its framebuffer where no size is given: the one pixel over it, or where the sizes differ the mix of the four around it, unless missing |
| Capture.StackedStable | crates/drmkit-capture/src/snapshot.rs:233-236 | Planes are stacked by zpos, those at one zpos in the order given |
| Capture.CollectPlanes | crates/drmkit-capture/src/snapshot.rs:256-286 | Exactly the planes that can be read, in the order listed, and how many were listed and unbound |
| Capture.Snapshot | crates/drmkit-capture/src/snapshot.rs:210-243 | Each pixel of the picture is the readable planes' pixels there blended bottom up over nothing; no mode and no readable plane are errors |
| Capture.CompositePremultiplied | crates/drmkit-capture/src/snapshot.rs:70-77 | Whatever the planes hold, no color of the picture exceeds its alpha |
| Capture.CompositeOpaque | crates/drmkit-capture/src/snapshot.rs:70-77 | A pixel opaque under some planes is opaque under more |
| Capture.OpaqueHides | crates/drmkit-capture/src/snapshot.rs:238-243 | What lies below an opaque pixel makes no difference |
| Coverage.Render | xtask/src/coverage.rs:231-243 | The text is the braces around one quoted line per case |
| Coverage.ParseBaseline | xtask/src/coverage.rs:272-300 | The cases its lines record, later ones winning, or an error when there are none |
| Coverage.LineParsed | xtask/src/coverage.rs:272-295 | A line written for a case records it again when its name holds, and otherwise one with a shorter name |
| Coverage.PlainNamesHold | xtask/src/coverage.rs:279-294 | Names without quotes, backslashes and newlines, as test paths are, hold |
| Coverage.NameCutExample | xtask/src/coverage.rs:279-280 | A name that holds what stands between a name and its reason is cut there |
| Coverage.RoundTrip | xtask/src/coverage.rs:231-300 | Reading back what was rendered gives the same cases, for any list whose names hold |
| Coverage.RoundTripIff | xtask/src/coverage.rs:231-300 | Cases come back exactly when every name holds and every reason is on one line and is not the word for having run |
| Coverage.Compare | xtask/src/coverage.rs:302-383 | No regression exactly when every recorded case but the device's key is still reported, and still runs if it ran; names that run again and names not recorded are listed |
| Coverage.OwnBaselineHolds | xtask/src/coverage.rs:302-383 | A run never regresses against its own recording |
| CoverageText.Unescape | xtask/src/coverage.rs:255-269 | Drops each escaping backslash and keeps a trailing one |
| CoverageText.UnescapeEscape | xtask/src/coverage.rs:245-269 | Escaping is undone, whatever quotes and backslashes a text holds |
| CoverageText.EndsStripped | xtask/src/coverage.rs:272-295 | Lines come back whether a carriage return stands before their newline or not |

## Left out

- FramebufferPresenter.ComposeIntoFramebuffer: takes a framebuffer of at most 2^31 - 1 rows, past which the original clips everything away.
- FramebufferPresenter.BlendInto: a source's pixels are a function, opaque formats already opaque, its buffer as large as it says; plane alpha, which the presenter leaves full, is not modelled.
- FramebufferPresenter.ConvertRow: an output pixel is one cell, so the two bytes of a 565 pixel are one number here.
- FramebufferPresenter.PresentAll: takes a decoration's pixels as a function of slot, rectangle and generation, which is what the generation counter promises.
- ShadowCaches.ShadowCache.BlitCrossFade: the float interpolation of two bytes is a parameter, and the position is a number.
- ShadowRender.RenderShadow: the float from coverage to alpha is a function of the theme; the blur's 32-bit sum and window are unbounded here, as only a radius of millions of pixels could overflow them.
- SpriteBlit.Compose: buffers have at least one pixel each way; an empty buffer makes the original divide by zero.
- Renderers.Renderer.Commit: covers the atomic path; which way the kernel turns a quarter is its own, so both are stated.
- Renderers.Renderer.StageInto: the plane is taken to carry the optional properties; without them they are skipped, and without a required one staging fails.
- Coverage.Compare: the wording of the messages is not modelled.
- Coverage.Render: takes the cases in any order, where the original's map has them sorted by name.
- HdrMetadata.Serialize: starts from chromaticities already in 16-bit steps; the float rounding before it is not modelled.
- Capture.BlitScaled: computes the start and step of each axis exactly; the rounding of the 64-bit floats they come from is not modelled.
- Capture.Snapshot: frames are read as on a little-endian host.
- Matching.BipartiteMatching.Solve: does not say which of several maximum matchings is found beyond preference and turn, and counts rounds, not the steps within one.
- The allocator's search around the matching and the plane order: test commits, warm starts, scoring and budgets, whose answers come from the kernel.
- The scene, its canvas scaling, and commit bookkeeping: large, but lists of short decisions.
- `union_rect`: a difference of two edges there can overflow 32 bits, and nothing modelled calls it.
- The legacy cursor path, session pause and resume, and dropping a renderer: device and process state.
- Plane selection, size probing and format choice: short decision lists.
- Indexing theme directories, environment variables and `Inherits=` file parsing: file system; the index is the input here.
- JPEG and PNG encoding, NV12 expansion, EDID and TOML parsing: external libraries, or integer conversions settled by reading them.
- Transfer curves, easing, dithering and color interpolation: floating-point rounding is their whole content.
- The device layer, dumb buffers, mappings, hotplug and mode lists: system calls without logic to prove.
- Test runners, oracles, fuzz targets, and the test-output scanner of the coverage tool.
