# Scan-edge builder of ImageSharp.Drawing, modelled in Dafny

This project models `ScanEdgeCollection.Create`, the builder that turns a
tessellated multipolygon (closed rings of straight edges) into the packed list
of directed, non-horizontal scan edges that the scanline filler consumes.
It proves that the builder's ring walk computes exactly what a functional
reference describes.

The builder does three things:

- **It classifies every ring edge.** Each edge is Up, Down, Left or Right. An
  edge is horizontal (Left or Right) when the tolerant comparer calls its
  endpoints' y equal.
- **It credits every vertex.** A sliding window of previous, current and next
  edges goes round each ring. At every vertex a 16-entry table gives a
  crossing credit of 0, 1 or 2 to the incoming edge's end or the outgoing
  edge's start. A vertex between two horizontal edges rejects the ring.
- **It normalises and emits.** Up edges are flipped so every stored edge runs
  towards larger y, and their credits are swapped. Direction and credits are
  packed into a 5-bit flag word. Horizontal edges are dropped.

Modules, one per concern of `ScanEdgeCollection.Build.cs`:

- `Results`: the `Result`/`Outcome`/`Option` values that stand in for thrown exceptions.
- `Geometry`: the collaborators whose code is not part of this model. These are
  points (exact reals), rings, the comparer (an arbitrary relation), and the
  `ScanEdge` record.
- `Categories`: `EdgeCategory`, `VertexCategory`, `CreateVertexCategory`,
  `VerifyVertexCategory`, and the builder's errors.
- `Edges`: `EdgeData`, its constructor, `ApplyVertexCategory`, `ToScanEdge`
  with the flag packing, and `EmitScanEdge`.
- `RingSpec`: the functional reference. Rings are taken in order. For each
  non-horizontal ring edge `e_k`, in increasing `k`, the reference emits the
  normalised edge. Its start credit comes from the vertex between `e_{k-1}`
  and `e_k`, and its end credit from the vertex between `e_k` and `e_{k+1}`.
  Indices wrap round the ring.
- `RingWalk`: the walker as a value, `Move`, the walk of one ring, and
  `Create`. `Create` is a method with loops, proved equal to the reference.
- `Scenarios`: the 10 by 10 square, a triangle, a two-vertex ring and a ring with
  two consecutive horizontal edges, worked out exactly.

A ring is its closed vertex array. The last entry repeats the first, and edge
`k` runs from `vertices[k]` to `vertices[k + 1]`. The source's
`ring.VertexCount` is taken to be the array length minus one: the closing
duplicate is not counted. `TessellatedMultipolygon` is not part of this model, so
this is an assumption.

Two consequences of the code that a reader might not expect:

- A ring must carry its closing duplicate vertex. The walk seeds its window
  with the edge between the last two array entries (Build.cs:230) and wraps
  round to edges 0 and 1 (Build.cs:241, :244). It never forms an edge from
  the last array entry back to the first.
- A rejected ring is reported only after the edges of earlier rings, and the
  failing ring's non-horizontal edges 0 .. k - 3 (k its first bad vertex),
  have been written into the buffer. `Move` applies both of its vertices
  before it emits (Build.cs:201-207), so the Move that reaches vertex k throws
  before emitting edge k - 2. No collection is returned, so the model returns
  only the error.

## Model

| member | source | states |
|---|---|---|
| `Categories.Ordinal` | src/ImageSharp.Drawing/Shapes/Scan/ScanEdgeCollection.Build.cs:14-20 | The enum values of edge categories lie in [0, 4); Left and Right, the horizontal ones, are exactly those from 2 up. |
| `Categories.VertexCategoryFromValue` | src/ImageSharp.Drawing/Shapes/Scan/ScanEdgeCollection.Build.cs:23-44 | The cast of an in-range integer to `VertexCategory` yields the member with that underlying value. |
| `Categories.VertexCategoryValueRoundTrip` | src/ImageSharp.Drawing/Shapes/Scan/ScanEdgeCollection.Build.cs:23-44 | Every vertex category has a value in [0, 16) and the cast of that value gives it back. |
| `Categories.CreateVertexCategoryValue` | src/ImageSharp.Drawing/Shapes/Scan/ScanEdgeCollection.Build.cs:255 | `(previous << 2) \| current` equals `4 * previous + current`, so it always lies in [0, 16). |
| `Categories.CreateVertexCategoryValueInjective` | src/ImageSharp.Drawing/Shapes/Scan/ScanEdgeCollection.Build.cs:255 | Distinct pairs of edge categories pack to distinct values. |
| `Categories.VerifyVertexCategory` | src/ImageSharp.Drawing/Shapes/Scan/ScanEdgeCollection.Build.cs:260-268 | The debug check passes exactly on values in [0, 16). |
| `Categories.VerifyVertexCategoryNeverFails` | src/ImageSharp.Drawing/Shapes/Scan/ScanEdgeCollection.Build.cs:253-268 | The debug range check never throws on a packed pair of edge categories. |
| `Categories.CreateVertexCategory` | src/ImageSharp.Drawing/Shapes/Scan/ScanEdgeCollection.Build.cs:253-258 | The packed value, cast to the enum, names exactly the pair (incoming, outgoing) it was built from. |
| `Categories.CreateVertexCategoryOnto` | src/ImageSharp.Drawing/Shapes/Scan/ScanEdgeCollection.Build.cs:23-44 | Every one of the 16 enum members is the packing of its own incoming and outgoing categories. |
| `Edges.NewEdgeData` | src/ImageSharp.Drawing/Shapes/Scan/ScanEdgeCollection.Build.cs:55-70 | An edge is horizontal iff `AreEqual(start.Y, end.Y)`. Right means it runs to larger x, Left not. Down means it runs to larger y, Up not. Both credits start at 0. |
| `Edges.UpEdgeRunsUpward` | src/ImageSharp.Drawing/Shapes/Scan/ScanEdgeCollection.Build.cs:59-66 | Under a reflexive comparer an Up edge runs strictly towards smaller y. |
| `Edges.ReversedEdgeCategory` | src/ImageSharp.Drawing/Shapes/Scan/ScanEdgeCollection.Build.cs:59-66 | Under a reflexive comparer that is symmetric on the endpoints, reversing an edge keeps it horizontal or not, swaps Up and Down, and swaps Left and Right when the x differ. |
| `Edges.CreditsAreExclusive` | src/ImageSharp.Drawing/Shapes/Scan/ScanEdgeCollection.Build.cs:82-152 | No vertex credits both the incoming edge's end and the outgoing edge's start. |
| `Edges.ApplyVertexCategory` | src/ImageSharp.Drawing/Shapes/Scan/ScanEdgeCollection.Build.cs:82-152 | Exactly LeftLeft, LeftRight, RightLeft and RightRight throw. Every other entry writes the credit rule's value: 1 between same-direction vertical edges, 0 at a reversal, 1 or 2 next to a horizontal edge depending on the turn. It writes into at most one of `fromEdge.emitEnd` / `toEdge.emitStart`. |
| `Edges.ApplyVertexCategoryFrame` | src/ImageSharp.Drawing/Shapes/Scan/ScanEdgeCollection.Build.cs:87-151 | A vertex that does not throw writes only `fromEdge.emitEnd` or `toEdge.emitStart`: the category, endpoints and other credit of both edges are unchanged. |
| `Edges.ApplyVertexCategoryIdempotent` | src/ImageSharp.Drawing/Shapes/Scan/ScanEdgeCollection.Build.cs:196-202 | Re-applying the same vertex category, as consecutive Moves do, changes nothing more. |
| `Edges.PackFlags` | src/ImageSharp.Drawing/Shapes/Scan/ScanEdgeCollection.Build.cs:163 | `up \| emitStart << 1 \| emitEnd << 3` lies in [0, 32). Bit 0, bits 1-2 and bits 3-4 decode back to `up`, `emitStart` and `emitEnd`. |
| `Edges.ToScanEdge` | src/ImageSharp.Drawing/Shapes/Scan/ScanEdgeCollection.Build.cs:154-165 | The up bit is 1 iff the edge is Up. Up edges have endpoints and credits swapped; others are stored as they are. The flag word is below 32 and decodes to the stored credits. |
| `Edges.StoredEdgeRunsDownward` | src/ImageSharp.Drawing/Shapes/Scan/ScanEdgeCollection.Build.cs:154-165 | Under a reflexive comparer every stored non-horizontal edge has start.y < end.y, whatever its credits. |
| `Edges.EmitScanEdge` | src/ImageSharp.Drawing/Shapes/Scan/ScanEdgeCollection.Build.cs:72-80 | A horizontal edge writes nothing. Any other edge writes its scan edge at the counter, the counter grows by exactly one, and no other slot changes. |
| `RingSpec.FirstRepeatedHorizontal` | src/ImageSharp.Drawing/Shapes/Scan/ScanEdgeCollection.Build.cs:233-245 | Finds the lowest-numbered vertex from k on that joins two horizontal edges, or reports that there is none. |
| `RingSpec.RingError` | src/ImageSharp.Drawing/Shapes/Scan/ScanEdgeCollection.Build.cs:221-245 | A ring is rejected iff `VertexCount < 3` or some vertex joins two horizontal edges. The error is TooFewVertices, or else the category of the first such vertex. |
| `RingSpec.EmittedIndices` | src/ImageSharp.Drawing/Shapes/Scan/ScanEdgeCollection.Build.cs:235-245 | There is one emitted index per non-horizontal edge among the first k, each below k. |
| `RingSpec.EmittedIndicesExact` | src/ImageSharp.Drawing/Shapes/Scan/ScanEdgeCollection.Build.cs:228-245 | Each non-horizontal ring edge is emitted exactly once, in increasing index order, and no horizontal edge is. |
| `RingSpec.RingScanEdges` | src/ImageSharp.Drawing/Shapes/Scan/ScanEdgeCollection.Build.cs:228-245 | The first k ring edges yield k minus their horizontal count scan edges. |
| `RingSpec.RingScanEdgesIndexed` | src/ImageSharp.Drawing/Shapes/Scan/ScanEdgeCollection.Build.cs:228-245 | The p-th scan edge of a ring is the p-th emitted ring edge, with its cyclic neighbour credits, normalised. |
| `RingSpec.ScanEdgeCount` | src/ImageSharp.Drawing/Shapes/Scan/ScanEdgeCollection.Build.cs:216-217 | The number of non-horizontal edges never exceeds the total edge count the buffer is sized for. |
| `RingSpec.CreateSpec` | src/ImageSharp.Drawing/Shapes/Scan/ScanEdgeCollection.Build.cs:214-249 | A successful build has exactly as many edges as there are non-horizontal edges across all rings. |
| `RingSpec.CreateSpecFailure` | src/ImageSharp.Drawing/Shapes/Scan/ScanEdgeCollection.Build.cs:221-226 | The build fails iff some ring is rejected, and then with the error of the first rejected ring. |
| `RingSpec.CreateSpecPrefixFailure` | src/ImageSharp.Drawing/Shapes/Scan/ScanEdgeCollection.Build.cs:270-274 | Once a ring throws, no later ring matters: the whole build fails with that error. |
| `RingSpec.SingleRingOutcome` | src/ImageSharp.Drawing/Shapes/Scan/ScanEdgeCollection.Build.cs:214-249 | A single valid ring yields exactly its vertex count minus its horizontal edge count of scan edges; a rejected ring yields its error. |
| `RingSpec.RingScanEdgesNormalized` | src/ImageSharp.Drawing/Shapes/Scan/ScanEdgeCollection.Build.cs:154-165 | Under a reflexive comparer every scan edge of a ring runs strictly towards larger y. |
| `RingSpec.CreateSpecNormalized` | src/ImageSharp.Drawing/Shapes/Scan/ScanEdgeCollection.Build.cs:214-249 | Under a reflexive comparer every scan edge of a successful build runs strictly towards larger y. |
| `RingWalk.Move` | src/ImageSharp.Drawing/Shapes/Scan/ScanEdgeCollection.Build.cs:194-211 | It fails iff the start or end vertex joins two horizontal edges, reporting the start vertex first. Otherwise Previous := old Current with both credits written, and Current := old Next with its start credit. When asked, and the old Previous is not horizontal, its end-credited scan edge is written at the counter. |
| `RingWalk.FirstMove` | src/ImageSharp.Drawing/Shapes/Scan/ScanEdgeCollection.Build.cs:230-233 | The seeding Move over (last, first, second) edge fails exactly when vertex 0 or 1 is the ring's first bad vertex. Otherwise it leaves edge 0 fully credited and edge 1 start-credited, with nothing emitted. |
| `RingWalk.StepWindow` | src/ImageSharp.Drawing/Shapes/Scan/ScanEdgeCollection.Build.cs:196-210 | At step j the two vertices Move applies are ring vertices j and j + 1 (cyclic). The credits it writes produce the window after j steps. |
| `RingWalk.StepOutput` | src/ImageSharp.Drawing/Shapes/Scan/ScanEdgeCollection.Build.cs:204-207 | Emitting edge j - 1 at step j extends the buffer by that edge's scan edge and leaves every other slot alone. |
| `RingWalk.MoveStep` | src/ImageSharp.Drawing/Shapes/Scan/ScanEdgeCollection.Build.cs:235-245 | Each step fails exactly at the ring's first bad vertex, and otherwise advances the walk invariant by one edge. |
| `RingWalk.Advance` | src/ImageSharp.Drawing/Shapes/Scan/ScanEdgeCollection.Build.cs:237-238 | Loading the next edge and moving keeps the walk invariant, or fails with the ring's error. It cannot fail once it only revisits vertices 0 and 1. |
| `RingWalk.WalkComplete` | src/ImageSharp.Drawing/Shapes/Scan/ScanEdgeCollection.Build.cs:241-245 | After the two wrap-around Moves the ring is accepted and exactly its scan edges follow the starting counter. |
| `RingWalk.WalkRing` | src/ImageSharp.Drawing/Shapes/Scan/ScanEdgeCollection.Build.cs:228-245 | The walk of one ring fails iff the ring has a bad vertex, with the reference's error. Otherwise it writes exactly the reference's scan edges for the ring at the counter and leaves all other slots untouched. |
| `RingWalk.Create` | src/ImageSharp.Drawing/Shapes/Scan/ScanEdgeCollection.Build.cs:214-249 | Create fails iff the reference fails, with the same error. Otherwise the count equals the number of non-horizontal edges and fits the buffer. The first `count` slots are exactly the reference's edges in ring order; the rest are untouched. |
| `Scenarios.SquareScenario` | src/ImageSharp.Drawing/Shapes/Scan/ScanEdgeCollection.Build.cs:214-249 | The square (0,0)-(10,0)-(10,10)-(0,10) keeps its two vertical sides, each with one credit at both ends (flags 10 and 11). |
| `Scenarios.TriangleScenario` | src/ImageSharp.Drawing/Shapes/Scan/ScanEdgeCollection.Build.cs:214-249 | The triangle (10,10)-(200,150)-(50,300) keeps all three sides. Only the vertex between its two downward sides earns a credit. |
| `Scenarios.TwoVertexRingScenario` | src/ImageSharp.Drawing/Shapes/Scan/ScanEdgeCollection.Build.cs:223-226 | A two-vertex ring fails with the too-few-vertices error. |
| `Scenarios.RepeatedHorizontalScenario` | src/ImageSharp.Drawing/Shapes/Scan/ScanEdgeCollection.Build.cs:147-150 | Two consecutive rightward edges fail with RightRight. |

## Left out

- The scanline coverage engine and the fill orchestrator (`FillPathProcessor{TPixel}.cs`) are not part of this model. Only the edge builder is modelled.
- `TessellatedMultipolygon`, the `ScanEdge` constructor and `TolerantComparer.AreEqual` are not part of this model. They appear as a sequence of closed vertex arrays, a plain record, and an arbitrary relation on reals. Reflexivity is assumed only by the lemmas that say so.
- `MemoryAllocator`, `IMemoryOwner` and buffer lifetime are left out. The rented buffer is a sequence passed in, with unspecified contents.
- Single-precision floating point is replaced by exact reals, so rounding in the comparisons is not modelled.
- Exception messages are left out. A failure records which case threw: too few vertices, or the offending vertex category.
- The in-place swap `ToScanEdge` performs on the walker's previous edge is left out. The walker overwrites that edge right after the call, so the swap is unobservable.
- `AggressiveInlining`, `NoInlining` and `[Conditional("DEBUG")]` are compilation attributes. The debug range check is an assertion in `CreateVertexCategory`, plus a lemma that it never fails.
- The flag decoders `UpBit`, `EmitStartBits` and `EmitEndBits` read the flag word the way its bit layout says. The consumer that decodes it is not part of this model.
- RingWalk.Create: requires a buffer of at least the total ring-edge count. The source sizes it by `TotalVertexCount`, whose definition is not part of this model; for closed rings the two counts agree.
- Edges.EmitScanEdge: requires a free slot for a non-horizontal edge. The source would throw `IndexOutOfRangeException` there, which the buffer sizing rules out.
- RingWalk.Move: carries the same free-slot requirement as `EmitScanEdge`, for the same reason.
