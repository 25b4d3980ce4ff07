# Battery-pack layout analysis, modelled in Dafny

This project models the `PackAnalyzer` class of `src/PackAnalyzer.js`. The class takes a loaded
three.js scene of a battery pack and works out its layout:

- it selects the cylindrical cells (meshes whose name starts with `Boss`);
- it records their positions and rounds them to hundredths;
- it groups the cells into layers by height;
- it reports the number of cells, the number of layers, and the number of distinct x and z
  positions in the last layer.

The model has four modules.

- `Quantize` (`quantize.dfy`) is `roundToTwoDecimalPlaces`. Coordinates are exact reals.
  `Math.round(t)` is `floor(t + 1/2)`, so a value halfway between two hundredths goes up,
  for negative values too.
- `Grouping` (`grouping.dfy`) is the grouping loop shared by `separateCommonYposValuesAsLayers`
  and the `Map` in `processMeshes`. It keeps a dictionary of buckets and a list of keys in
  insertion order. `GroupInOrder` runs that loop. `Group` is the specification it is proved
  against. The lemmas prove that the groups partition the input, that every group is
  non-empty and keyed by one value, that groups come in first-appearance order, and that
  there is one group per distinct key.
- `Geometry` (`geometry.dfy`) is `calculateCylinderProperties` over two bounding boxes.
  three.js computes the distance between the box centres with a square root, so here that
  distance is an input. `IsCentreDistance` ties it to the boxes wherever a lemma needs it.
- `PackAnalysis` (`pack_analyzer.dfy`) is the class itself. `PackAnalyzer` has the source's
  fields except `scene` and `packDetails`, and its methods update them in place. The scene traversal becomes a sequence of
  scene objects in pre-order. `processMeshes` is modelled by `ProcessMeshes`, which calls one
  method per phase of the source:
  - `TraverseModel` is the traversal;
  - `CollectYPositions` is the `forEach` over the records;
  - `SummarizeLayers` does the rounding (through `RoundPositions`), the `Map` grouping and
    the layer loop.

  The fields are never reset, so each call appends to what earlier calls left.
  `LoadAndProcessTwice` shows this: after two calls the cell count has doubled, and the
  y-values of the first call's records have been collected twice.

## Behaviour of the code worth knowing

- **Rounding of halves.** `Math.round` sends a value exactly halfway between two hundredths
  towards +infinity, for negative values as well (`HalvesRoundUp`).
- **Values either side of a midpoint.** With exact arithmetic, 1.004999 and 1.005001 round to
  1.00 and 1.01, so they fall in different layers (`MidpointStraddlersSeparate`).
- **Fewer than two cells.** `processMeshes` calls
  `calculateCylinderProperties(meshes[0], meshes[1])` with no guard. With fewer than two
  cells, `Box3.setFromObject` receives `undefined` and throws. By then the pushes of lines
  63-75 have already recorded the cells, the count and the y-values. The model returns
  `Outcome.TypeError` in that state.
- **The `cellsInY` key.** It holds the number of distinct z values.

## Model

| member | source | states |
|---|---|---|
| Quantize.RoundToTwoDecimalPlaces | src/PackAnalyzer.js:124-126 | the result is a multiple of 1/100, and lies in (v - 0.005, v + 0.005] |
| Quantize.FixedPoints | src/PackAnalyzer.js:124-126 | rounding leaves v unchanged if and only if v is already a multiple of 1/100 |
| Quantize.RoundIdempotent | src/PackAnalyzer.js:124-126 | rounding twice gives the same value as rounding once |
| Quantize.RoundMonotone | src/PackAnalyzer.js:124-126 | rounding preserves order: a <= b gives round(a) <= round(b) |
| Quantize.HalvesRoundUp | src/PackAnalyzer.js:125 | a value exactly halfway between n/100 and (n+1)/100 rounds to (n+1)/100 for every integer n, negative n included |
| Quantize.MidpointStraddlersSeparate | src/PackAnalyzer.js:124-126 | 1.004999 rounds to 1.00 and 1.005001 rounds to 1.01, so the two go to different layers |
| Grouping.GroupInOrder | src/PackAnalyzer.js:128-141 | the dictionary loop (new key opens a bucket, known key appends to its bucket, buckets read out in insertion order) produces exactly Group(s, key) |
| Grouping.GroupCount | src/PackAnalyzer.js:128-141 | the number of buckets equals the number of distinct keys among the elements |
| Grouping.GroupPartition | src/PackAnalyzer.js:128-141 | the buckets, concatenated, hold exactly the input elements, each as often as in the input |
| Grouping.GroupExactlyOne | src/PackAnalyzer.js:130-137 | every input element lies in exactly one bucket |
| Grouping.GroupLayers | src/PackAnalyzer.js:94-102 | every bucket is non-empty; all its members are input elements with the same key; different buckets have different keys |
| Grouping.GroupOrder | src/PackAnalyzer.js:94-105 | buckets appear in the order in which their keys first occur in the input |
| Grouping.DistinctFirstOccurrence | src/PackAnalyzer.js:143-146 | the distinct values are values of the input, listed in the order of their first occurrence |
| Geometry.CalculateCylinderProperties | src/PackAnalyzer.js:148-167 | the radius is at least half of each horizontal extent of the first box, and equals half of one of them |
| Geometry.GapIsClearance | src/PackAnalyzer.js:156-160 | for a non-negative radius, the gap is non-negative exactly when 4·radius² is at most the squared centre distance, so the gap is the clearance between two cylinders of the first cell's radius; radius + gap + radius is the centre distance |
| Geometry.CentreDistanceUnique | src/PackAnalyzer.js:159 | two boxes have only one centre distance, so the input distance is determined by the boxes |
| Geometry.ScalingScalesDistance | src/PackAnalyzer.js:159 | scaling both boxes by k >= 0 scales their centre distance by k |
| Geometry.ModelScaleScalesProperties | src/PackAnalyzer.js:148-167 | scaling both boxes by the model's factor 2 (the `scale.set(2, 2, 2)` of loadModel) scales the centre distance, height, radius and gap by 2 |
| Geometry.TranslationKeepsProperties | src/PackAnalyzer.js:148-167 | moving both boxes by the same offset changes neither the centre distance nor any measurement |
| Geometry.TwoCellsExample | src/PackAnalyzer.js:148-167 | a 2×4×2 cell whose neighbour's centre is 3 units away along x gives height 4, radius 1 and gap 1 |
| PackAnalysis.SelectedCells | src/PackAnalyzer.js:58-68 | an object is selected if and only if it is in the traversal, is a mesh, and has a name starting with `Boss` |
| PackAnalysis.SelectedAppend | src/PackAnalyzer.js:58-68 | selecting from a traversal split in two parts gives the selection from the first part followed by the selection from the second, so traversal order is kept |
| PackAnalysis.RoundRecord | src/PackAnalyzer.js:87-91 | every coordinate of a rounded record is a multiple of 1/100 |
| PackAnalysis.RoundRecordIdempotent | src/PackAnalyzer.js:87-91 | rounding a record that is already rounded changes nothing |
| PackAnalysis.CountUniqueValues | src/PackAnalyzer.js:143-146 | the count is the size of the set of the values, and is between 1 and the length of the array when the array is non-empty |
| PackAnalysis.SeparateCommonYposValuesAsLayers | src/PackAnalyzer.js:128-141 | the result is Group(arr, round), and its length is the number of distinct rounded values |
| PackAnalysis.CountCellsOfLastLayer | src/PackAnalyzer.js:108-117 | both counts are null without layers; otherwise they are the numbers of distinct x and distinct z values in the last layer (last one wins), each between 1 and that layer's size |
| PackAnalysis.PackAnalyzer.constructor | src/PackAnalyzer.js:5-13 | stores the file path; starts unloaded with no model, no cells, no records, no y-values and no count |
| PackAnalysis.PackAnalyzer.LoadModel | src/PackAnalyzer.js:32-34 | the loaded scene becomes the model and `loaded` becomes true; no other field changes |
| PackAnalysis.PackAnalyzer.ProcessMeshes | src/PackAnalyzer.js:52-122 | see the itemised description below this table |
| PackAnalysis.PackAnalyzer.TraverseModel | src/PackAnalyzer.js:58-68 | meshes gains Selected(model), and positionObjectsArray gains the positions of those cells, in traversal order |
| PackAnalysis.PackAnalyzer.CollectYPositions | src/PackAnalyzer.js:73-75 | allYPosArray gains the y of every record, old records included; nothing else changes |
| PackAnalysis.PackAnalyzer.RoundPositions | src/PackAnalyzer.js:87-91 | every record is replaced by its rounded copy, at the same index and with the same length; meshes and the other fields are unchanged |
| PackAnalysis.PackAnalyzer.SummarizeLayers | src/PackAnalyzer.js:87-120 | rounds the records; the distinct-x and distinct-z counts are those of the last group of the rounded records by y (null when there is no group); totalLayers is the length of the earlier layers |
| PackAnalysis.LoadAndProcessTwice | src/PackAnalyzer.js:63-75 | after a load and two calls, meshes is the selection twice over; the count is twice the cell count; there are 2n records and 3n collected y-values; one cell crashes the first call but not the second |
| PackAnalysis.TraversalKeepsMatch | src/PackAnalyzer.js:62-64 | each appended record is the position of the cell appended at the same index, and every appended mesh is a cell |
| PackAnalysis.KeysAfterCollecting | src/PackAnalyzer.js:73-75 | after the y-values are collected, the rounded y-values and the records' rounded y-values define the same set of layers |
| PackAnalysis.RoundingKeepsValid | src/PackAnalyzer.js:87-91 | after rounding, every record is the rounded position of its cell, whether it had been rounded before or not |
| PackAnalysis.RoundingKeepsKeys | src/PackAnalyzer.js:87-91 | rounding the records moves no record to another layer |
| PackAnalysis.RoundedKeysOfRounded | src/PackAnalyzer.js:94-97 | once every record's y is a hundredth, the rounded y-values of the records are exactly their y-values, so rounding and the Map agree on the layer keys |
| PackAnalysis.LayerCountsAgree | src/PackAnalyzer.js:78-105 | when the layer keys agree and the records are rounded, the layer count from the y-values equals the number of Map groups, which equals the number of distinct y-values |

`ProcessMeshes` states the following.

- It keeps the class invariant `Valid`:
  - every mesh is a cell;
  - every record is its cell's position, as copied or as rounded;
  - the count, once set, is the number of cells;
  - the collected y-values and the records define the same layers.
- When the model is not loaded, it returns `NotLoaded` and changes nothing.
- Otherwise:
  - meshes gains `Selected(model)`;
  - the count becomes the number of meshes;
  - allYPosArray gains the y of every record, old records included.
- With fewer than two meshes, it returns `TypeError` and the new records are unrounded.
- With two or more meshes:
  - the records are rounded;
  - totalMeshesCount is the number of meshes;
  - totalLayers is the number of layers from the y-values, which is also the number of
    Map groups and the number of distinct rounded y-values;
  - cellsInX and cellsInY are the distinct x and distinct z counts of the last Map group.

## Left out

- `loadModel`'s asynchronous GLTF loading, `scene.add` and the constructor's `scene` argument are left out. These are I/O and rendering. `LoadModel` takes the loaded scene, flattened in traversal order, as a parameter.
- `packDetails` is left out. The constructor sets it to null, and no live code changes or reads it.
- `scale.set(2, 2, 2)` on the loaded model is not applied to the scene objects. Positions and boxes are taken as three.js reports them. `ModelScaleScalesProperties` states what the factor does to the measurements.
- The `MeshNormalMaterial` assigned to each selected cell is left out. It only affects rendering.
- `console.error` and the commented-out logging are left out.
- Tree traversal is not modelled. The scene is given as the sequence of objects that `traverse` visits.
- `Box3.setFromObject`, `getCenter` and `distanceTo` are not modelled. The world-space box of each object and the centre distance are inputs. The distance is tied to the boxes by `IsCentreDistance` wherever a property needs it, because Dafny's reals have no square root.
- `ProcessMeshes` does not compute the cylinder properties. The source discards them. `ProcessMeshes` models only the throw when there are fewer than two meshes.
- IEEE-754 binary floating point is not modelled. Coordinates are exact reals, so `1.005 * 100` is exactly `100.5` here, which it is not in JavaScript.
- PackAnalysis.SeparateCommonYposValuesAsLayers and Grouping.GroupInOrder list buckets in insertion order. This is not the key order of `Object.values`, which lists keys that are non-negative integers first, in numeric order. For the input `[1.5, 1.0]` the source yields `[[1.0], [1.5]]` and the model yields `[[1.5], [1.0]]`. Only the number of buckets reaches the result, and that number is the same in both orders.
- The regular expression `/^Boss/` is modelled as a prefix test on the name.
- Position records are values, not shared objects. The source creates a fresh `{x, y, z}` for each cell, and nothing else holds a reference to these records, so no aliasing is lost.
- `src/script.js` is not part of this model. It is scene, camera, GUI and animation-loop setup, and its analysis code is commented out.
