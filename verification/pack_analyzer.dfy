/** The PackAnalyzer class of src/PackAnalyzer.js: it selects the battery cells of a loaded
    scene, records their positions, rounds them to hundredths, groups them into layers by
    height and reports the cell count, the layer count and the distinct x and z counts of
    the last layer. The fields are never reset, so every call adds to what earlier calls
    left behind. */
module PackAnalysis {
  import opened Quantize
  import opened Grouping
  import opened Geometry

  datatype Option<T> = None | Some(value: T)

  /** A node of the loaded scene as three.js's traverse visits it (pre-order). Its
      bounding box, which only the cylinder step reads, is an input of
      CalculateCylinderProperties in Geometry. */
  datatype SceneObject = SceneObject(name: string, isMesh: bool, position: Vec3)

  /** The object processMeshes returns. The key cellsInY holds the number of distinct
      z values, not y values. */
  datatype PackDetails = PackDetails(totalMeshesCount: nat, totalLayers: nat,
                                     cellsInX: Option<nat>, cellsInY: Option<nat>)

  /** How a call of processMeshes ends. */
  datatype Outcome =
    | NotLoaded                       // logs "Model not loaded yet!" and returns undefined
    | TypeError                       // fewer than two cells: the cylinder step reads an undefined mesh
    | Returned(details: PackDetails)

  /** The name prefix /^Boss/ that marks a battery cell. */
  const CylinderCellPrefix: string := "Boss"

  predicate IsCell(o: SceneObject) {
    o.isMesh && CylinderCellPrefix <= o.name
  }

  /** The cells among the traversed objects, in traversal order. */
  function Selected(objects: seq<SceneObject>): (cells: seq<SceneObject>)
    ensures |cells| <= |objects|
  {
    if objects == [] then []
    else
      var init, last := objects[..|objects| - 1], objects[|objects| - 1];
      Selected(init) + (if IsCell(last) then [last] else [])
  }

  /** The projections of a scene object to its position and of a position record to its
      coordinates; Keys(s, f) lists them for a whole sequence. */
  function PositionOf(o: SceneObject): Vec3 { o.position }

  function XOf(p: Vec3): real { p.x }

  function YOf(p: Vec3): real { p.y }

  function ZOf(p: Vec3): real { p.z }

  /** The distinct x-, y- and z-coordinates of some position records. */
  function XValues(records: seq<Vec3>): set<real> {
    set v | v in Keys(records, XOf)
  }

  function YValues(records: seq<Vec3>): set<real> {
    set v | v in Keys(records, YOf)
  }

  function ZValues(records: seq<Vec3>): set<real> {
    set v | v in Keys(records, ZOf)
  }

  /** A position record with each coordinate rounded to hundredths. */
  function RoundRecord(p: Vec3): (r: Vec3)
    ensures IsHundredth(r.x) && IsHundredth(r.y) && IsHundredth(r.z)
  {
    Vec3(RoundToTwoDecimalPlaces(p.x), RoundToTwoDecimalPlaces(p.y), RoundToTwoDecimalPlaces(p.z))
  }

  function RoundRecords(records: seq<Vec3>): seq<Vec3> {
    seq(|records|, i requires 0 <= i < |records| => RoundRecord(records[i]))
  }

  /** The layer keys of some y-values: their rounded values. */
  function RoundedKeys(ys: seq<real>): set<real> {
    set y | y in ys :: RoundToTwoDecimalPlaces(y)
  }

  predicate AllCells(cells: seq<SceneObject>) {
    forall i :: 0 <= i < |cells| ==> IsCell(cells[i])
  }

  /** Each record is the position of the cell at the same index, as copied or as rounded. */
  predicate RecordsMatch(cells: seq<SceneObject>, records: seq<Vec3>) {
    && |records| == |cells|
    && forall i :: 0 <= i < |cells| ==>
         records[i] == cells[i].position || records[i] == RoundRecord(cells[i].position)
  }

  /** The size of the set of the values: `new Set(arr).size`. */
  function CountUniqueValues(arr: seq<real>): (n: nat)
    ensures n == |set v | v in arr|
    ensures arr != [] ==> 1 <= n <= |arr|
  {
    DistinctCard(arr);
    DistinctMembers(arr);
    assert arr != [] ==> arr[0] in Distinct(arr);
    |Distinct(arr)|
  }

  /** The dictionary of raw y-values keyed by their rounded value; one bucket per layer. */
  method SeparateCommonYposValuesAsLayers(arr: seq<real>) returns (layers: seq<seq<real>>)
    ensures layers == Group(arr, RoundToTwoDecimalPlaces)
    ensures |layers| == |RoundedKeys(arr)|
  {
    layers := GroupInOrder(arr, RoundToTwoDecimalPlaces);
    GroupCount(arr, RoundToTwoDecimalPlaces, RoundedKeys(arr));
  }

  /** The layer loop of processMeshes: every layer overwrites the two counts, so only the
      last layer's distinct x and z counts survive, and there are none without a layer. */
  method CountCellsOfLastLayer(groupedArrays: seq<seq<Vec3>>)
    returns (uniqueXValues: Option<nat>, uniqueZValues: Option<nat>)
    ensures groupedArrays == [] ==> uniqueXValues == None && uniqueZValues == None
    ensures groupedArrays != [] ==>
              var last := groupedArrays[|groupedArrays| - 1];
              uniqueXValues == Some(|XValues(last)|) &&
              uniqueZValues == Some(|ZValues(last)|)
    ensures groupedArrays != [] && groupedArrays[|groupedArrays| - 1] != [] ==>
              var last := groupedArrays[|groupedArrays| - 1];
              uniqueXValues.Some? && 1 <= uniqueXValues.value <= |last| &&
              uniqueZValues.Some? && 1 <= uniqueZValues.value <= |last|
  {
    uniqueXValues, uniqueZValues := None, None;
    for i := 0 to |groupedArrays|
      invariant i == 0 ==> uniqueXValues == None && uniqueZValues == None
      invariant i > 0 ==>
                  uniqueXValues == Some(CountUniqueValues(Keys(groupedArrays[i - 1], XOf))) &&
                  uniqueZValues == Some(CountUniqueValues(Keys(groupedArrays[i - 1], ZOf)))
    {
      var layer := groupedArrays[i];
      uniqueXValues := Some(CountUniqueValues(Keys(layer, XOf)));
      uniqueZValues := Some(CountUniqueValues(Keys(layer, ZOf)));
    }
  }

  class PackAnalyzer {
    const filePath: string
    /** The loaded scene, flattened in traversal order. */
    var model: seq<SceneObject>
    var loaded: bool
    var meshes: seq<SceneObject>
    var totalMeshesCount: Option<nat>
    var positionObjectsArray: seq<Vec3>
    var allYPosArray: seq<real>

    /** Every mesh is a cell, every record belongs to the cell at the same index, as copied or as rounded; the
        count, once set, is the number of cells; and the y-values collected so far fall
        in the same layers as the records. */
    ghost predicate Valid()
      reads this
    {
      && AllCells(meshes)
      && RecordsMatch(meshes, positionObjectsArray)
      && (totalMeshesCount.None? ==> meshes == [])
      && (totalMeshesCount.Some? ==> totalMeshesCount.value == |meshes|)
      && (!loaded ==> meshes == [] && allYPosArray == [] && totalMeshesCount.None?)
      && RoundedKeys(allYPosArray) == RoundedKeys(Keys(positionObjectsArray, YOf))
    }

    /** In the source the constructor starts the asynchronous load; here its completion is
        LoadModel, called separately. Until then nothing is loaded. */
    constructor (filePath: string)
      ensures Valid()
      ensures this.filePath == filePath && !loaded && model == []
      ensures meshes == [] && positionObjectsArray == [] && allYPosArray == []
      ensures totalMeshesCount == None
    {
      this.filePath := filePath;
      model := [];
      meshes := [];
      totalMeshesCount := None;
      positionObjectsArray := [];
      allYPosArray := [];
      loaded := false;
    }

    /** The completion of loadModel: the loaded scene becomes the model. */
    method LoadModel(scene: seq<SceneObject>)
      requires Valid()
      modifies this
      ensures Valid()
      ensures loaded && model == scene
      ensures meshes == old(meshes) && positionObjectsArray == old(positionObjectsArray)
      ensures allYPosArray == old(allYPosArray) && totalMeshesCount == old(totalMeshesCount)
    {
      model := scene;
      loaded := true;
    }

    method ProcessMeshes() returns (r: Outcome)
      requires Valid()
      modifies this
      ensures Valid()
      ensures model == old(model) && loaded == old(loaded)
      ensures !old(loaded) ==>
                && r == NotLoaded
                && meshes == old(meshes) && positionObjectsArray == old(positionObjectsArray)
                && allYPosArray == old(allYPosArray) && totalMeshesCount == old(totalMeshesCount)
      ensures old(loaded) ==>
                && meshes == old(meshes) + Selected(model)
                && totalMeshesCount == Some(|meshes|)
                && allYPosArray == old(allYPosArray) +
                                   Keys(old(positionObjectsArray) + Keys(Selected(model), PositionOf), YOf)
      ensures old(loaded) && |meshes| < 2 ==>
                && r == TypeError
                && positionObjectsArray == old(positionObjectsArray) + Keys(Selected(model), PositionOf)
      ensures old(loaded) && |meshes| >= 2 ==>
                && positionObjectsArray ==
                   RoundRecords(old(positionObjectsArray) + Keys(Selected(model), PositionOf))
                && r.Returned?
                && r.details.totalMeshesCount == |meshes|
                && r.details.totalLayers == |Group(allYPosArray, RoundToTwoDecimalPlaces)|
                && r.details.totalLayers == |Group(positionObjectsArray, YOf)|
                && r.details.totalLayers == |YValues(positionObjectsArray)|
                && Group(positionObjectsArray, YOf) != []
                && var last := Group(positionObjectsArray, YOf)[r.details.totalLayers - 1];
                   && r.details.cellsInX == Some(|XValues(last)|)
                   && r.details.cellsInY == Some(|ZValues(last)|)
    {
      if !loaded {
        r := NotLoaded;
        return;
      }
      ghost var meshes0, records0, ys0 := meshes, positionObjectsArray, allYPosArray;

      TraverseModel();
      TraversalKeepsMatch(meshes0, records0, model);
      totalMeshesCount := Some(|meshes|);
      ghost var records := positionObjectsArray;
      CollectYPositions();
      KeysAfterCollecting(ys0, records0, records);

      var result := SeparateCommonYposValuesAsLayers(allYPosArray);

      if |meshes| < 2 {
        // calculateCylinderProperties(meshes[0], meshes[1]) hands an undefined mesh to
        // Box3.setFromObject, which throws.
        r := TypeError;
        return;
      }

      var details := SummarizeLayers(result);
      r := Returned(details);
      RoundingKeepsValid(meshes, records);
      RoundingKeepsKeys(records);
      LayerCountsAgree(allYPosArray, positionObjectsArray);
      GroupLayers(positionObjectsArray, YOf);
      assert positionObjectsArray[0] in positionObjectsArray;
    }

    /** Lines 87-120 of processMeshes: round the records, group them by y, and count the
        distinct x and z values of the last group. totalLayers is the length of the layers
        found earlier from the y-values, passed in as result. */
    method SummarizeLayers(result: seq<seq<real>>) returns (details: PackDetails)
      requires totalMeshesCount.Some?
      modifies this
      ensures positionObjectsArray == RoundRecords(old(positionObjectsArray))
      ensures allYPosArray == old(allYPosArray) && meshes == old(meshes)
      ensures model == old(model) && loaded == old(loaded) && totalMeshesCount == old(totalMeshesCount)
      ensures details.totalMeshesCount == totalMeshesCount.value && details.totalLayers == |result|
      ensures var groups := Group(positionObjectsArray, YOf);
              groups == [] ==> details.cellsInX == None && details.cellsInY == None
      ensures var groups := Group(positionObjectsArray, YOf);
              groups != [] ==>
                && details.cellsInX == Some(|XValues(groups[|groups| - 1])|)
                && details.cellsInY == Some(|ZValues(groups[|groups| - 1])|)
    {
      RoundPositions();
      // Layers by rounded y, in order of first appearance.
      var groupedArrays := GroupInOrder(positionObjectsArray, YOf);
      var uniqueXValues, uniqueZValues := CountCellsOfLastLayer(groupedArrays);
      details := PackDetails(totalMeshesCount.value, |result|, uniqueXValues, uniqueZValues);
    }

    /** The traversal of processMeshes: every mesh whose name starts with the cell prefix is
        appended to meshes and a copy of its position to positionObjectsArray. */
    method TraverseModel()
      modifies this
      ensures meshes == old(meshes) + Selected(model)
      ensures positionObjectsArray == old(positionObjectsArray) + Keys(Selected(model), PositionOf)
      ensures model == old(model) && loaded == old(loaded)
      ensures allYPosArray == old(allYPosArray) && totalMeshesCount == old(totalMeshesCount)
    {
      for i := 0 to |model|
        invariant model == old(model) && loaded == old(loaded)
        invariant allYPosArray == old(allYPosArray) && totalMeshesCount == old(totalMeshesCount)
        invariant meshes == old(meshes) + Selected(model[..i])
        invariant positionObjectsArray == old(positionObjectsArray) + Keys(Selected(model[..i]), PositionOf)
      {
        var obj := model[i];
        assert model[..i + 1] == model[..i] + [obj];
        SelectedSnoc(model[..i], obj);
        if obj.isMesh {
          if CylinderCellPrefix <= obj.name {
            KeysSnoc(Selected(model[..i]), PositionOf, obj);
            positionObjectsArray := positionObjectsArray + [obj.position];
            meshes := meshes + [obj];
          }
        }
      }
      assert model[..|model|] == model;
    }

    /** Every record's y-value, old records included, is appended to allYPosArray. */
    method CollectYPositions()
      modifies this
      ensures allYPosArray == old(allYPosArray) + Keys(old(positionObjectsArray), YOf)
      ensures positionObjectsArray == old(positionObjectsArray) && meshes == old(meshes)
      ensures model == old(model) && loaded == old(loaded) && totalMeshesCount == old(totalMeshesCount)
    {
      for i := 0 to |positionObjectsArray|
        invariant positionObjectsArray == old(positionObjectsArray) && meshes == old(meshes)
        invariant allYPosArray == old(allYPosArray) + Keys(positionObjectsArray[..i], YOf)
        invariant model == old(model) && loaded == old(loaded) && totalMeshesCount == old(totalMeshesCount)
      {
        assert Keys(positionObjectsArray[..i + 1], YOf) == Keys(positionObjectsArray[..i], YOf) + [positionObjectsArray[i].y];
        allYPosArray := allYPosArray + [positionObjectsArray[i].y];
      }
      assert positionObjectsArray[..|positionObjectsArray|] == positionObjectsArray;
    }

    /** Each record's x, y and z, in turn, is replaced by its value rounded to hundredths. */
    method RoundPositions()
      modifies this
      ensures positionObjectsArray == RoundRecords(old(positionObjectsArray))
      ensures allYPosArray == old(allYPosArray) && meshes == old(meshes)
      ensures model == old(model) && loaded == old(loaded) && totalMeshesCount == old(totalMeshesCount)
    {
      var i := 0;
      while i < |positionObjectsArray|
        invariant 0 <= i <= |positionObjectsArray| == |old(positionObjectsArray)|
        invariant forall j :: 0 <= j < i ==> positionObjectsArray[j] == RoundRecord(old(positionObjectsArray)[j])
        invariant forall j :: i <= j < |positionObjectsArray| ==> positionObjectsArray[j] == old(positionObjectsArray)[j]
        invariant allYPosArray == old(allYPosArray) && meshes == old(meshes)
        invariant model == old(model) && loaded == old(loaded) && totalMeshesCount == old(totalMeshesCount)
      {
        var obj := positionObjectsArray[i];
        obj := obj.(x := RoundToTwoDecimalPlaces(obj.x));
        obj := obj.(y := RoundToTwoDecimalPlaces(obj.y));
        obj := obj.(z := RoundToTwoDecimalPlaces(obj.z));
        positionObjectsArray := positionObjectsArray[i := obj];
        i := i + 1;
      }
    }
  }

  /** A freshly constructed analyser that loads a scene and is asked twice for the
      analysis: nothing is reset between the calls, so the cells are selected twice, the
      count doubles, and the y-values of the first call's records are collected again. */
  method LoadAndProcessTwice(analyzer: PackAnalyzer, scene: seq<SceneObject>)
    returns (first: Outcome, second: Outcome)
    requires analyzer.Valid() && !analyzer.loaded
    modifies analyzer
    ensures analyzer.meshes == Selected(scene) + Selected(scene)
    ensures analyzer.totalMeshesCount == Some(2 * |Selected(scene)|)
    ensures |analyzer.positionObjectsArray| == 2 * |Selected(scene)|
    ensures |analyzer.allYPosArray| == 3 * |Selected(scene)|
    ensures |Selected(scene)| < 2 ==> first == TypeError
    ensures |Selected(scene)| == 1 ==> second.Returned? && second.details.totalMeshesCount == 2
  {
    analyzer.LoadModel(scene);
    assert analyzer.meshes == [] && analyzer.allYPosArray == [];
    first := analyzer.ProcessMeshes();
    ghost var cells := Selected(scene);
    assert analyzer.meshes == cells;
    assert |analyzer.positionObjectsArray| == |cells| && |analyzer.allYPosArray| == |cells|;
    second := analyzer.ProcessMeshes();
    assert analyzer.meshes == cells + cells;
  }

  lemma SelectedSnoc(objects: seq<SceneObject>, o: SceneObject)
    ensures Selected(objects + [o]) == Selected(objects) + (if IsCell(o) then [o] else [])
  {
    assert (objects + [o])[..|objects|] == objects;
  }

  /** Selection keeps exactly the cells, in traversal order: selecting from two parts of
      a traversal is selecting from each part and joining the results. */
  lemma {:induction false} SelectedAppend(a: seq<SceneObject>, b: seq<SceneObject>)
    ensures Selected(a + b) == Selected(a) + Selected(b)
  {
    if b != [] {
      var init, last := b[..|b| - 1], b[|b| - 1];
      assert b == init + [last];
      assert a + b == (a + init) + [last];
      SelectedAppend(a, init);
      SelectedSnoc(a + init, last);
      SelectedSnoc(init, last);
    } else {
      assert a + b == a;
    }
  }

  /** An object is selected exactly when it is in the traversal and is a cell. */
  lemma {:induction false} SelectedCells(objects: seq<SceneObject>)
    ensures forall o :: o in Selected(objects) ==> o in objects && IsCell(o)
    ensures forall o :: o in objects && IsCell(o) ==> o in Selected(objects)
  {
    if objects != [] {
      var init, last := objects[..|objects| - 1], objects[|objects| - 1];
      assert objects == init + [last];
      SelectedCells(init);
    }
  }

  lemma RoundRecordIdempotent(p: Vec3)
    ensures RoundRecord(RoundRecord(p)) == RoundRecord(p)
  {
    RoundIdempotent(p.x);
    RoundIdempotent(p.y);
    RoundIdempotent(p.z);
  }

  /** Pushing the y-value of every record keeps the collected y-values in the same
      layers as the records, when the old records were a prefix of the new ones. */
  lemma KeysAfterCollecting(ys0: seq<real>, records0: seq<Vec3>, records: seq<Vec3>)
    requires RoundedKeys(ys0) == RoundedKeys(Keys(records0, YOf))
    requires records0 <= records
    ensures RoundedKeys(ys0 + Keys(records, YOf)) == RoundedKeys(Keys(records, YOf))
  {
    var ys, ys1 := Keys(records, YOf), Keys(records0, YOf);
    forall k | k in RoundedKeys(ys0 + ys) ensures k in RoundedKeys(ys) {
      var y :| y in ys0 + ys && k == RoundToTwoDecimalPlaces(y);
      if y in ys0 {
        assert k in RoundedKeys(ys1);
        var y1 :| y1 in ys1 && k == RoundToTwoDecimalPlaces(y1);
        var j :| 0 <= j < |ys1| && ys1[j] == y1;
        assert ys[j] == y1;
      }
    }
    forall k | k in RoundedKeys(ys) ensures k in RoundedKeys(ys0 + ys) {
      var y :| y in ys && k == RoundToTwoDecimalPlaces(y);
      var j :| 0 <= j < |ys| && ys[j] == y;
      assert (ys0 + ys)[|ys0| + j] == y;
    }
  }

  /** The traversal appends cells, and a copy of each one's position, at the same index. */
  lemma TraversalKeepsMatch(cells: seq<SceneObject>, records: seq<Vec3>, objects: seq<SceneObject>)
    requires AllCells(cells) && RecordsMatch(cells, records)
    ensures AllCells(cells + Selected(objects))
    ensures RecordsMatch(cells + Selected(objects), records + Keys(Selected(objects), PositionOf))
  {
    SelectedCells(objects);
    var sel := Selected(objects);
    var positions := Keys(sel, PositionOf);
    var recs := records + positions;
    forall i | 0 <= i < |cells + sel|
      ensures IsCell((cells + sel)[i])
      ensures recs[i] == (cells + sel)[i].position || recs[i] == RoundRecord((cells + sel)[i].position)
    {
      if i >= |cells| {
        var n := i - |cells|;
        assert sel[n] in sel;
        assert recs[i] == positions[n] == PositionOf(sel[n]);
      }
    }
  }

  /** Rounding every record keeps each one tied to its cell. */
  lemma RoundingKeepsValid(cells: seq<SceneObject>, records: seq<Vec3>)
    requires RecordsMatch(cells, records)
    ensures RecordsMatch(cells, RoundRecords(records))
    ensures forall i :: 0 <= i < |cells| ==> RoundRecords(records)[i] == RoundRecord(cells[i].position)
  {
    forall i | 0 <= i < |cells| ensures RoundRecords(records)[i] == RoundRecord(cells[i].position) {
      RoundRecordIdempotent(cells[i].position);
    }
  }

  /** Rounding the records does not move any record to another layer. */
  lemma RoundingKeepsKeys(records: seq<Vec3>)
    ensures RoundedKeys(Keys(RoundRecords(records), YOf)) == RoundedKeys(Keys(records, YOf))
  {
    var ys, rys := Keys(records, YOf), Keys(RoundRecords(records), YOf);
    forall k | k in RoundedKeys(rys) ensures k in RoundedKeys(ys) {
      var y :| y in rys && k == RoundToTwoDecimalPlaces(y);
      var j :| 0 <= j < |rys| && rys[j] == y;
      RoundIdempotent(records[j].y);
      assert y == RoundToTwoDecimalPlaces(ys[j]);
      assert k == RoundToTwoDecimalPlaces(ys[j]);
      assert ys[j] in ys;
    }
    forall k | k in RoundedKeys(ys) ensures k in RoundedKeys(rys) {
      var y :| y in ys && k == RoundToTwoDecimalPlaces(y);
      var j :| 0 <= j < |ys| && ys[j] == y;
      RoundIdempotent(y);
      assert rys[j] in rys;
    }
  }

  /** Once every y is a hundredth, the layer keys of the records are their y-values. */
  lemma RoundedKeysOfRounded(records: seq<Vec3>)
    requires forall p :: p in records ==> IsHundredth(p.y)
    ensures RoundedKeys(Keys(records, YOf)) == YValues(records)
  {
    var rys := Keys(records, YOf);
    forall k | k in RoundedKeys(rys) ensures k in YValues(records) {
      var y :| y in rys && k == RoundToTwoDecimalPlaces(y);
      var j :| 0 <= j < |rys| && rys[j] == y;
      assert records[j] in records;
      FixedPoints(y);
    }
    forall k | k in YValues(records) ensures k in RoundedKeys(rys) {
      var j :| 0 <= j < |rys| && rys[j] == k;
      assert records[j] in records;
      FixedPoints(k);
    }
  }

  /** The number of layers processMeshes reports (from the collected y-values) equals the
      number of groups of the rounded records, whenever the two sets of layer keys agree. */
  lemma LayerCountsAgree(ys: seq<real>, records: seq<Vec3>)
    requires RoundedKeys(ys) == RoundedKeys(Keys(records, YOf))
    requires forall p :: p in records ==> IsHundredth(p.y)
    ensures |Group(ys, RoundToTwoDecimalPlaces)| == |Group(records, YOf)|
    ensures |Group(records, YOf)| == |YValues(records)|
  {
    GroupCount(ys, RoundToTwoDecimalPlaces, RoundedKeys(ys));
    DistinctCard(Keys(records, YOf));
    RoundedKeysOfRounded(records);
  }
}
