# MiniIFFAB and KappaSquareNormal in Dafny

This project models two pieces of a Chombo-based embedded-boundary AMR code.

**`MiniIFFAB<T>`** is a sparse container. It holds `nComp` values for each
multi-valued face of a box in one coordinate direction, all in one flat buffer.
A face is found by a linear search of the face list. Its values are stored
component-major: component `c` of the face at position `p` is slot
`p + c*nFaces`.

The model covers these operations:

- `define`, `clear` and the default state;
- face lookup: `getIndex`, `containsIndex` and both `operator()` forms;
- both `setVal` forms;
- the component-interval `copy` between two fabs;
- `getFaceSubset`;
- the serialiser trio `size`, `linearOut` and `linearIn`.

The fab is an immutable record (`IFFab.MiniIFFab`) of:

- the defined flag, box, direction and component count;
- the face list, and the data as a sequence.

Two kinds of program error are returned as `Base.Fault` values: the
`MayDay::Error("MiniIFFAB:index not found")`, and the accessor's `CH_assert`s
when the accessor is reached inside a loop. A `CH_assert` on an operation's
own arguments, or on `isDefined()`, is a precondition instead. Two further
fault values are the model's own and not program errors: `BufferOverrun`
(see "## Left out") and `DegenerateNeighbourhood` for the normaliser.

`copy` and `linearIn` both come down to a sequence of single-value moves,
`FabCopy.Move`. `FabCopy.Transfer` carries the moves out through the accessor.
The facts about `Transfer` are proved once and then used by both:

- which slots change;
- what they receive;
- when it fails.

**`KappaSquareNormal`** turns a volume-fraction-weighted cell field κ·Q back
into Q. For each cell of a level it takes a weighted average over the cells
within the monotone-path radius. The operation is given only by its class
declaration, so it is modelled from the averaging rule the declaration
documents.

- The level grid (`KappaNormal.LevelGrid`) supplies four things, all as data:
  - the cells;
  - κ for each cell;
  - the weight each cell carries in the average;
  - the neighbourhood of each cell.
- A normalised value is
  Σ weight(d)·X(d)[k] / Σ weight(d)·κ(d) over the neighbourhood.
- The normaliser is bound to one grid at construction. It has no other state,
  so both operators read only their argument and the grid.

Modules and files:

| file | module | contents |
|---|---|---|
| base.dfy | Base | bytes, `Option`, `Result`, the fault kinds |
| geometry.dfy | Geometry | `IntVect`, `Box`, `Interval`, `VolIndex`, `FaceIndex`, `SpaceDim = 3` |
| slot_layout.dfy | SlotLayout | component-major and face-major slot arithmetic |
| iffab.dfy | IFFab | the fab record and its own operations |
| fab_copy.dfy | FabCopy | moves, `Transfer`, `copy` |
| fab_serial.dfy | FabSerial | `size`, `linearOut`, `linearIn`, the round trip |
| real_sum.dfy | RealSum | finite sums of reals and their bounds |
| kappa_normal.dfy | KappaNormal | the normaliser |

## Model

| member | source | states |
|---|---|---|
| IFFab.FindFace | lib/src/EBTools/MiniIFFABI.H:151-160 | The search finds the face exactly when it occurs in the rest of the list, and the position it returns holds the face's first occurrence there. |
| IFFab.Undefined | lib/src/EBTools/MiniIFFABI.H:22-26 | A default-constructed fab is well-shaped and undefined, and its box is empty. |
| IFFab.Define | lib/src/EBTools/MiniIFFABI.H:48-67 | define needs `nvarin > 0` and `0 <= direction < SpaceDim`. It leaves a defined fab with the given direction, component count, box and face list, and `nComp*nFaces` slots. Afterwards a lookup of any in-range component succeeds exactly for the listed faces. |
| IFFab.Clear | lib/src/EBTools/MiniIFFABI.H:194-206 | clear leaves an undefined fab with no faces and no data, `nComp = nFaces = 0` and `direction = -1`. The box is kept. |
| IFFab.ClearIdempotent | lib/src/EBTools/MiniIFFABI.H:194-206 | Clearing twice is clearing once, and clearing a default fab gives the default fab. |
| IFFab.GetIndex | lib/src/EBTools/MiniIFFABI.H:143-168 | getIndex fails with "index not found" exactly when containsIndex is false. Otherwise its slot is the face's first position plus `comp*nFaces`, and that slot is below `nComp*nFaces`. |
| IFFab.ContainsIndex | lib/src/EBTools/MiniIFFABI.H:170-192 | containsIndex is true exactly when the face is in the face list. |
| IFFab.At | lib/src/EBTools/MiniIFFABI.H:220-230 | The const accessor requires the fab's direction and an in-range component. It returns the value in the face's component-major slot, or "index not found" exactly when the face is absent. |
| IFFab.Put | lib/src/EBTools/MiniIFFABI.H:208-218 | Assigning through the accessor stores the value for that face and component. Every other slot is unchanged. It fails exactly when the face is absent. |
| IFFab.Locate | lib/src/EBTools/MiniIFFABI.H:208-230 | Both accessors, the mutable one and the const one that `size` and `linearOut` read through, reached inside a loop: the accessor succeeds exactly when the face has the fab's direction, the component is in range and the face is held. Its slot is then the component-major slot of the face. |
| IFFab.FaceSubset | lib/src/EBTools/MiniIFFABI.H:261-275 | A face is in the subset exactly when it is in the fab's list and has its low or high cell in the box. |
| IFFab.FaceSubsetOrder | lib/src/EBTools/MiniIFFABI.H:261-275 | The subset is an in-order subsequence of the face list. It keeps every touching face with its multiplicity and no other face. |
| IFFab.SetVal | lib/src/EBTools/MiniIFFABI.H:69-79 | setVal(v) writes v into all `nFaces*nComp` slots, so every face reads v in every component. The shape is unchanged. |
| IFFab.SetComp | lib/src/EBTools/MiniIFFABI.H:81-94 | setVal(ivar, v), as written, writes exactly the slots `ivar + j*nComp` below `nFaces*nComp` and leaves all others unchanged. |
| IFFab.StridedWriteMissesComponent | lib/src/EBTools/MiniIFFABI.H:90-93 | With two faces and two components, setVal(1, v) as written leaves component 1 of the first face alone. It writes v into component 0 of the second face. |
| IFFab.SetCompByLayout | lib/src/EBTools/MiniIFFABI.H:84-94 | setVal(ivar, v) on the component-major layout: every face reads v in component ivar, and every other component keeps its value. |
| SlotLayout.SlotInjective | lib/src/EBTools/MiniIFFABI.H:165 | Distinct (position, component) pairs address distinct slots of the component-major layout. |
| Geometry.BoxContainment | lib/src/EBTools/MiniIFFABI.H:116-119 | An empty box holds no cell. The intersection `&=` holds exactly the cells both boxes hold. |
| FabCopy.Moves | lib/src/EBTools/MiniIFFABI.H:122-134 | The copy loops visit exactly the pairs (face, destination component) with the face listed and the destination in range. Each pair reads the source component at the same offset. |
| FabCopy.Transfer | lib/src/EBTools/MiniIFFABI.H:129-134 | Carrying out the moves succeeds exactly when every move's face and components are accepted by both accessors. It then keeps the destination's shape. |
| FabCopy.TransferFrame | lib/src/EBTools/MiniIFFABI.H:122-136 | After a transfer, every slot that no move writes holds its old value. |
| FabCopy.TransferMoved | lib/src/EBTools/MiniIFFABI.H:129-134 | After a transfer whose moves agree on each target, every target holds its source value. This holds even when later moves rewrite the same slot. |
| FabCopy.CopyRegion | lib/src/EBTools/MiniIFFABI.H:116-119 | A face touches `m_box & src.m_box & toBox` exactly when one of its cells lies in all three boxes. |
| FabCopy.Copy | lib/src/EBTools/MiniIFFABI.H:96-138 | copy from a separate source fab, under the source's assertions:<br>• It is a no-op when either box is empty.<br>• Otherwise each face of this fab touching all three boxes gets source component `srcBegin+i` as component `dstBegin+i`.<br>• Every other slot is unchanged.<br>• It fails exactly when such a face is missing from the source or has another direction. |
| FabSerial.EncodeData | lib/src/EBTools/MiniIFFABI.H:336-347 | Writing the values of the visited (face, component) pairs succeeds exactly when the accessor accepts every pair. |
| FabSerial.DataSize | lib/src/EBTools/MiniIFFABI.H:291-301 | The summed element sizes fail exactly when writing them fails. Otherwise they equal the number of bytes written. |
| FabSerial.SerialMovesAddressable | lib/src/EBTools/MiniIFFABI.H:293-300 | The accessor accepts every pair the serialiser loops visit exactly when the loops are empty, or the components are in range and every face is held with the fab's direction. |
| FabSerial.LinearOut | lib/src/EBTools/MiniIFFABI.H:318-348 | linearOut succeeds exactly when the fab can address every (subset face, component) pair. Its output starts with the encoded face subset. |
| FabSerial.Size | lib/src/EBTools/MiniIFFABI.H:277-316 | size succeeds exactly when linearOut does, and then equals the number of bytes linearOut writes. |
| FabSerial.SizeFixedWidth | lib/src/EBTools/MiniIFFABI.H:288-303 | With a fixed-width element encoding, size is the face list's length plus one element per (subset face, component). |
| FabSerial.ReadInto | lib/src/EBTools/MiniIFFABI.H:362-373 | Reading the data succeeds only if every visited (face, component) is addressable in the target. The target's shape is kept. |
| FabSerial.LinearIn | lib/src/EBTools/MiniIFFABI.H:350-374 | linearIn takes its face list from the buffer and ignores the region. It keeps the target's shape, and succeeds only if the target holds every listed face with its direction. |
| FabSerial.ReadIntoMatchesTransfer | lib/src/EBTools/MiniIFFABI.H:362-373 | Reading back what was written from a fab, with any bytes after it, has the same effect as copying the values directly from that fab. |
| FabSerial.LinearRoundTrip | lib/src/EBTools/MiniIFFABI.H:318-374 | linearIn on linearOut's bytes, followed by anything and with any region, succeeds on a target that holds the written faces. Each written (face, component) value is restored, and every other slot is unchanged. |
| KappaNormal.Normalize | ReactiveDiffuse/KappaSquareNormal.H:41-49 | The interval operator changes only components inside the interval, and only at cells of the level. Each such value becomes the weighted neighbourhood average. It fails exactly when a non-empty interval meets a neighbourhood of zero weighted volume. |
| KappaNormal.NormalizeAll | ReactiveDiffuse/KappaSquareNormal.H:51-57 | The full operator replaces every component of every level cell by its neighbourhood average and leaves other cells alone. It fails exactly in the degenerate case, when there are components at all. |
| KappaNormal.NormalizeSplit | ReactiveDiffuse/KappaSquareNormal.H:44-49 | Normalising components a..b and then b+1..c in place equals normalising a..c at once. |
| KappaNormal.WeightedSumAbove | ReactiveDiffuse/KappaSquareNormal.H:20-24 | If every κ·Q value is at least lo·κ, the weighted sum is at least lo times the weighted volume. |
| KappaNormal.WeightedSumBelow | ReactiveDiffuse/KappaSquareNormal.H:20-24 | If every κ·Q value is at most hi·κ, the weighted sum is at most hi times the weighted volume. |
| KappaNormal.NormalizedValueBounded | ReactiveDiffuse/KappaSquareNormal.H:20-24 | Where κ·Q lies between lo·κ and hi·κ over a cell's neighbourhood, the normalised value lies between lo and hi. |
| KappaNormal.NormalizeBounded | ReactiveDiffuse/KappaSquareNormal.H:41-49 | The same bound holds for the value the interval operator stores (a maximum principle). |
| KappaNormal.NormalizeConstant | ReactiveDiffuse/KappaSquareNormal.H:20-24 | Given κ·Q for a Q that is constant over a cell's neighbourhood, normalising returns that constant at the cell. |
| KappaNormal.PositiveFractionsNormalize | ReactiveDiffuse/KappaSquareNormal.H:41-43 | With positive volume fractions and weights throughout the level, normalisation always succeeds. |

## Left out

- The face list `EBGraph::getMultiValuedFaces` returns is an input to `IFFab.Define`. The same holds for the indeterminate contents of the buffer `new T[...]` allocates. The graph itself, and the `m_ebgraph` member, are not modelled.
- `new`/`delete`, the `dataPtr` accessors (pointer arithmetic only) and the destructor are not modelled. Neither is the `s_verbose` console output in `size`.
- `CH_XD::linearSize`/`linearOut`/`linearIn` for `T`, and `linearListSize`/`linearListOut`/`linearListIn`, are parameters: `FabSerial.ElementCodec` and `FabSerial.FaceListCodec`. All that is assumed of them is that reading an encoding, followed by anything, gives back what was encoded. The size of an encoding is its length.
- A read past the end of the buffer is undefined behaviour in the program. It is `Fail(BufferOverrun)` in the model.
- `SpaceDim` is fixed at 3.
- FabCopy.Copy: the source and the destination are separate values, so a self-copy `fab.copy(box, dstIv, box, fab, srcIv)` with overlapping intervals is not modelled. In the program such a call reads slots that the same call has already written. For one face with data `[1,2,3]`, `dstIv = [1,2]` and `srcIv = [0,1]`, the program ends with `[1,1,1]`; `FabCopy.Copy` applied to two copies of that fab gives `[1,1,2]`.
- FabSerial.Size: the byte count is an unbounded integer. The 32-bit `int` the program returns is not modelled, so the model does not check overflow for huge regions.
- KappaNormal.Normalize:
  - The body of the normaliser (`KappaSquareNormal.cpp`) is not part of this model. The model follows the declaration's description of a volume-fraction-weighted average.
  - Each cell's weight is a parameter of the grid. κ gives the "κ²" weighting; 1 gives a plain volume average.
  - A neighbourhood of zero weighted volume is modelled as a fault, since the average is undefined there.
- KappaNormal.Normalize: the monotone path and the way the radius is computed from the `EBLevelGrid` are not modelled. The grid carries its radius and neighbourhood function, and the operators use nothing else.
- The normaliser's forbidden default and copy constructors, its assignment operator, and the `const` qualifiers need no statement here. The model has value semantics: a `KappaNormal.KappaSquareNormal` is built only from a grid, and both operators are pure functions of the normaliser and the field.
- Floating-point rounding in the normaliser: values are Dafny `real`s.
- Only the LevelData values of cells are modelled. Boxes, ghost cells and the parallel layout of `LevelData<EBCellFAB>` are not.

## Findings

| source | as written | input that shows it | evidently intended | confidence | as-written member | corrected member |
|---|---|---|---|---|---|---|
| lib/src/EBTools/MiniIFFABI.H:90-93 | `setVal(ivar, v)` writes slots `ivar, ivar+nComp, ivar+2*nComp, …`. That is a face-major stride, but every lookup (line 165) is component-major: `position + comp*nFaces`. | `nComp = 2`, two distinct faces, `setVal(1, v)`: component 1 of the first face keeps its old value, and component 0 of the second face becomes `v`. | Write the `nFaces` slots `ivar*nFaces … ivar*nFaces+nFaces-1`, i.e. component `ivar` of every face. | medium, not executed | IFFab.StridedWriteMissesComponent | IFFab.SetCompByLayout |
