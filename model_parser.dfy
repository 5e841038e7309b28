/**
 * The model parser: a model asset is assembled from its dependencies, a
 * geometry from the dependency named "mesh" and materials from the material
 * dependencies, placed by the metadata's material index map or, without
 * one, appended in dependency order.
 */
module ModelParser {
  import opened Wrappers
  import opened AssetTypes

  const NO_DEPENDENCIES := "Model parser: a model must have dependencies specified."
  const NO_MESH := "Model parser: a mesh dependency named \"mesh\" must be provided."

  /** The first number that is not a JavaScript array index (2^32 - 1). */
  const MAX_ARRAY_LENGTH: nat := 0xFFFF_FFFF

  /** `geometry.isGeometry(item)` */
  predicate IsGeometry(item: Option<Item>) {
    item.Some? && item.value.Geometry?
  }

  /** A dependency that the model parser takes as its mesh. */
  predicate IsMesh(dep: Option<Dependency>) {
    dep.Some? && dep.value.kind == Some("mesh") && IsGeometry(dep.value.item)
  }

  /**
   * `getMeshDependency(deps)`: the dependency named "mesh" when it has kind
   * "mesh" and holds a geometry, and nothing otherwise.
   */
  function GetMeshDependency(deps: Dependencies): (r: Option<Dependency>)
    ensures r.Some? <==> "mesh" in deps.entries && IsMesh(deps.entries["mesh"])
    ensures r.Some? ==> Some(r.value) == deps.entries["mesh"]
  {
    if "mesh" in deps.entries && IsMesh(deps.entries["mesh"]) then deps.entries["mesh"] else None
  }

  /** `asset.metadata && asset.metadata.materialIndexMap` */
  function IndexMapOf(metadata: Option<ModelMetadata>): Option<map<string, int>> {
    if metadata.Some? then metadata.value.materialIndexMap else None
  }

  /** A dependency of kind "material" whose item is a non-null object: the item to use. */
  function LoadedMaterial(dep: Option<Dependency>): (r: Option<Item>)
    ensures r.Some? ==> r.value.IsObject()
  {
    if dep.Some? && dep.value.kind == Some("material")
       && dep.value.item.Some? && dep.value.item.value.IsObject()
    then dep.value.item
    else None
  }

  /** `n` holes of a sparse array. */
  function Holes(n: nat): (h: seq<Option<Item>>)
    ensures |h| == n && forall i :: 0 <= i < n ==> h[i] == None
  {
    seq(n, _ => None)
  }

  /**
   * `materials[index] = item` on a JavaScript array: replace an element,
   * or grow the array with holes up to index; an index of 2^32 - 1 or more
   * is a plain property and leaves the elements alone.
   */
  function PlaceAt(materials: seq<Option<Item>>, index: nat, item: Item): (r: seq<Option<Item>>)
    ensures index < MAX_ARRAY_LENGTH ==> |r| == (if index < |materials| then |materials| else index + 1)
    ensures index < MAX_ARRAY_LENGTH ==> r[index] == Some(item)
    ensures index >= MAX_ARRAY_LENGTH ==> r == materials
    ensures forall i :: 0 <= i < |r| && i != index ==> r[i] == (if i < |materials| then materials[i] else None)
  {
    if index >= MAX_ARRAY_LENGTH then materials
    else if index < |materials| then materials[index := Some(item)]
    else materials + Holes(index - |materials|) + [Some(item)]
  }

  /** The index a loaded material named name is placed at, if the index map gives a non-negative number. */
  function TargetIndex(indexMap: map<string, int>, name: string): Option<nat> {
    if name in indexMap && indexMap[name] >= 0 then Some(indexMap[name] as nat) else None
  }

  /** What one dependency does to the materials list. */
  function Step(materials: seq<Option<Item>>, name: string, dep: Option<Dependency>,
                indexMap: Option<map<string, int>>): seq<Option<Item>>
  {
    var item := LoadedMaterial(dep);
    if item.None? then materials
    else if indexMap.Some? then
      var target := TargetIndex(indexMap.value, name);
      if target.Some? then PlaceAt(materials, target.value, item.value) else materials
    else materials + [item]
  }

  /** The materials list after the first n dependencies, in iteration order. */
  function Materials(deps: Dependencies, indexMap: Option<map<string, int>>, n: nat): seq<Option<Item>>
    requires n <= |deps.names|
  {
    if n == 0 then []
    else
      var name := deps.names[n - 1];
      Step(Materials(deps, indexMap, n - 1), name, deps.entries[name], indexMap)
  }

  /**
   * The model `parseModel` stores in the asset, or the reason it rejects: a
   * model needs dependencies and a mesh dependency.
   */
  function ParsedModel(dependencies: Option<Dependencies>, metadata: Option<ModelMetadata>): (r: Result<Item>)
    ensures r.Success? ==> r.value.Model?
  {
    if dependencies.None? then Failure(NO_DEPENDENCIES)
    else
      var deps := dependencies.value;
      var mesh := GetMeshDependency(deps);
      if mesh.None? then Failure(NO_MESH)
      else Success(Model(mesh.value.item.value, Materials(deps, IndexMapOf(metadata), |deps.names|)))
  }

  /**
   * `parseModel(asset)`: reject an asset without dependencies or without a
   * mesh; otherwise store a model with the mesh's geometry and the material
   * dependencies, visited in iteration order, in the asset.
   */
  method ParseModel(asset: Asset) returns (outcome: Result<()>)
    modifies asset
    ensures var r := ParsedModel(asset.dependencies, asset.metadata);
      (r.Failure? ==> outcome == Failure(r.error) && asset.item == old(asset.item))
      && (r.Success? ==> outcome == Success(()) && asset.item == Some(r.value))
    ensures asset.kind == old(asset.kind)
  {
    if asset.dependencies.None? {
      return Failure(NO_DEPENDENCIES);
    }
    var deps := asset.dependencies.value;
    var meshAsset := GetMeshDependency(deps);
    if meshAsset.None? {
      return Failure(NO_MESH);
    }
    var indexMap := IndexMapOf(asset.metadata);
    var materials: seq<Option<Item>> := [];
    var i := 0;
    while i < |deps.names|
      invariant 0 <= i <= |deps.names|
      invariant materials == Materials(deps, indexMap, i)
    {
      var depName := deps.names[i];
      var dep := deps.entries[depName];
      var item := LoadedMaterial(dep);
      if item.Some? {
        if indexMap.Some? {
          var target := TargetIndex(indexMap.value, depName);
          if target.Some? {
            materials := PlaceAt(materials, target.value, item.value);
          }
        } else {
          materials := materials + [item];
        }
      }
      i := i + 1;
    }
    asset.item := Some(Model(meshAsset.value.item.value, materials));
    return Success(());
  }

  // ---- properties

  /** A model is parsed exactly when there are dependencies with a proper "mesh"; its geometry is that mesh's item. */
  lemma ParsedModelSucceeds(dependencies: Option<Dependencies>, metadata: Option<ModelMetadata>)
    ensures ParsedModel(dependencies, metadata).Success? <==>
      dependencies.Some? && "mesh" in dependencies.value.entries && IsMesh(dependencies.value.entries["mesh"])
    ensures dependencies.None? ==> ParsedModel(dependencies, metadata) == Failure(NO_DEPENDENCIES)
    ensures dependencies.Some? && !("mesh" in dependencies.value.entries && IsMesh(dependencies.value.entries["mesh"]))
      ==> ParsedModel(dependencies, metadata) == Failure(NO_MESH)
    ensures ParsedModel(dependencies, metadata).Success? ==>
      Some(ParsedModel(dependencies, metadata).value.geom) == dependencies.value.entries["mesh"].value.item
  {}

  /** The loaded materials among the first n dependencies, in iteration order. */
  function LoadedMaterials(deps: Dependencies, n: nat): seq<Item>
    requires n <= |deps.names|
  {
    if n == 0 then []
    else
      var item := LoadedMaterial(deps.entries[deps.names[n - 1]]);
      LoadedMaterials(deps, n - 1) + (if item.Some? then [item.value] else [])
  }

  /** Without an index map, the materials are the loaded materials in dependency order, with no holes. */
  lemma {:induction false} AppendedInOrder(deps: Dependencies, n: nat)
    requires n <= |deps.names|
    ensures var m := Materials(deps, None, n);
      |m| == |LoadedMaterials(deps, n)|
      && forall i :: 0 <= i < |m| ==> m[i] == Some(LoadedMaterials(deps, n)[i])
  {
    if n > 0 {
      AppendedInOrder(deps, n - 1);
    }
  }

  /** The material that the last of the first n dependencies targeting index put there, if any. */
  function LastPlacedAt(deps: Dependencies, indexMap: map<string, int>, n: nat, index: nat): Option<Item>
    requires n <= |deps.names|
  {
    if n == 0 then None
    else
      var name := deps.names[n - 1];
      var item := LoadedMaterial(deps.entries[name]);
      if item.Some? && TargetIndex(indexMap, name) == Some(index) then item
      else LastPlacedAt(deps, indexMap, n - 1, index)
  }

  /** Every loaded material among the first n dependencies that targets an array index targets one below bound. */
  predicate TargetsBelow(deps: Dependencies, indexMap: map<string, int>, n: nat, bound: nat)
    requires n <= |deps.names|
  {
    forall k :: 0 <= k < n ==>
      var name := deps.names[k];
      var target := TargetIndex(indexMap, name);
      ((LoadedMaterial(deps.entries[name]).Some? && target.Some? && target.value < MAX_ARRAY_LENGTH)
        ==> target.value < bound)
  }

  /**
   * With an index map, every element holds the last loaded material whose
   * map entry is its index, or a hole; and every such material is inside
   * the array when its index is an array index.
   */
  lemma {:induction false} PlacedByIndex(deps: Dependencies, indexMap: map<string, int>, n: nat)
    requires n <= |deps.names|
    ensures var m := Materials(deps, Some(indexMap), n);
      |m| <= MAX_ARRAY_LENGTH
      && (forall i :: 0 <= i < |m| ==> m[i] == LastPlacedAt(deps, indexMap, n, i))
      && TargetsBelow(deps, indexMap, n, |m|)
  {
    if n > 0 {
      PlacedByIndex(deps, indexMap, n - 1);
      PlacedByIndexStep(deps, indexMap, n, Materials(deps, Some(indexMap), n - 1));
    }
  }

  /** The inductive step of PlacedByIndex: one more dependency keeps all three facts. */
  lemma PlacedByIndexStep(deps: Dependencies, indexMap: map<string, int>, n: nat, prev: seq<Option<Item>>)
    requires 0 < n <= |deps.names| && prev == Materials(deps, Some(indexMap), n - 1)
    requires |prev| <= MAX_ARRAY_LENGTH
    requires forall i :: 0 <= i < |prev| ==> prev[i] == LastPlacedAt(deps, indexMap, n - 1, i)
    requires TargetsBelow(deps, indexMap, n - 1, |prev|)
    ensures var m := Materials(deps, Some(indexMap), n);
      |m| <= MAX_ARRAY_LENGTH
      && (forall i :: 0 <= i < |m| ==> m[i] == LastPlacedAt(deps, indexMap, n, i))
      && TargetsBelow(deps, indexMap, n, |m|)
  {
    var m := Materials(deps, Some(indexMap), n);
    var name := deps.names[n - 1];
    var item := LoadedMaterial(deps.entries[name]);
    var target := TargetIndex(indexMap, name);
    var placed := item.Some? && target.Some? && target.value < MAX_ARRAY_LENGTH;
    assert m == Step(prev, name, deps.entries[name], Some(indexMap));
    if placed {
      assert m == PlaceAt(prev, target.value, item.value);
    } else {
      assert m == prev;
    }
    forall i | 0 <= i < |m|
      ensures m[i] == LastPlacedAt(deps, indexMap, n, i)
    {
      PlacedElement(deps, indexMap, n, prev, i);
    }
  }

  /** One element after n dependencies: the material just placed there, or what the earlier ones left. */
  lemma PlacedElement(deps: Dependencies, indexMap: map<string, int>, n: nat, prev: seq<Option<Item>>, i: nat)
    requires 0 < n <= |deps.names| && prev == Materials(deps, Some(indexMap), n - 1)
    requires |prev| <= MAX_ARRAY_LENGTH
    requires forall i :: 0 <= i < |prev| ==> prev[i] == LastPlacedAt(deps, indexMap, n - 1, i)
    requires TargetsBelow(deps, indexMap, n - 1, |prev|)
    requires i < |Materials(deps, Some(indexMap), n)|
    ensures Materials(deps, Some(indexMap), n)[i] == LastPlacedAt(deps, indexMap, n, i)
  {
    var m := Materials(deps, Some(indexMap), n);
    var name := deps.names[n - 1];
    var item := LoadedMaterial(deps.entries[name]);
    var target := TargetIndex(indexMap, name);
    var placed := item.Some? && target.Some? && target.value < MAX_ARRAY_LENGTH;
    assert m == Step(prev, name, deps.entries[name], Some(indexMap));
    if placed && target.value == i {
      assert m == PlaceAt(prev, target.value, item.value);
    } else if placed {
      assert m == PlaceAt(prev, target.value, item.value);
      if i >= |prev| {
        NothingPlacedBeyond(deps, indexMap, n - 1, i, |prev|);
      }
    } else {
      assert m == prev;
    }
  }

  /** Nothing among the first n dependencies targets an array index at or past bound. */
  lemma {:induction false} NothingPlacedBeyond(deps: Dependencies, indexMap: map<string, int>, n: nat, index: nat, bound: nat)
    requires n <= |deps.names| && bound <= index < MAX_ARRAY_LENGTH
    requires TargetsBelow(deps, indexMap, n, bound)
    ensures LastPlacedAt(deps, indexMap, n, index) == None
  {
    if n > 0 {
      NothingPlacedBeyond(deps, indexMap, n - 1, index, bound);
    }
  }

  /** A dependency that is not a loaded material leaves the materials as they were. */
  lemma IgnoredDependency(deps: Dependencies, indexMap: Option<map<string, int>>, n: nat)
    requires 0 < n <= |deps.names|
    requires var dep := deps.entries[deps.names[n - 1]];
      dep.None? || dep.value.kind != Some("material") || dep.value.item.None? || !dep.value.item.value.IsObject()
    ensures Materials(deps, indexMap, n) == Materials(deps, indexMap, n - 1)
  {}
}
