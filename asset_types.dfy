/**
 * The asset records the loader passes from processor to processor: an asset
 * has an optional kind, MIME type and URI, the item parsed from it, and for
 * composite assets the dependency assets it was assembled from.
 */
module AssetTypes {
  import opened Wrappers

  /** What an asset's `item` holds, as far as the parsers look at it. */
  datatype Item =
    | Geometry(geometryId: nat)
    | Material(materialId: nat)
    | Model(geom: Item, materials: seq<Option<Item>>)
    | Null
    | Primitive
  {
    /** `typeof item === "object" && item !== null` */
    predicate IsObject() { !Null? && !Primitive? }
  }

  /** The kind and item of a dependency asset, which the model parser reads and never writes. */
  datatype Dependency = Dependency(kind: Option<string>, item: Option<Item>)

  /**
   * A dependency dictionary: its own property names in iteration order and
   * the value of each (None for a property holding `undefined`).
   */
  datatype DependencyTable = DependencyTable(names: seq<string>, entries: map<string, Option<Dependency>>) {
    predicate WellFormed() {
      (forall i, j :: 0 <= i < j < |names| ==> names[i] != names[j])
      && (forall n <- entries :: n in names)
      && (forall i :: 0 <= i < |names| ==> names[i] in entries)
    }
  }

  type Dependencies = d: DependencyTable | d.WellFormed() witness DependencyTable([], map[])

  /** The metadata of a model asset. */
  datatype ModelMetadata = ModelMetadata(materialIndexMap: Option<map<string, int>>)

  /** An asset record; the processors fill in its kind and item in place. */
  class Asset {
    var kind: Option<string>
    const mimeType: Option<string>
    const uri: Option<string>
    var item: Option<Item>
    const dependencies: Option<Dependencies>
    const metadata: Option<ModelMetadata>

    constructor (kind: Option<string>, mimeType: Option<string>, uri: Option<string>,
                 dependencies: Option<Dependencies>, metadata: Option<ModelMetadata>)
      ensures this.kind == kind && this.mimeType == mimeType && this.uri == uri
      ensures this.dependencies == dependencies && this.metadata == metadata
      ensures item == None
    {
      this.kind := kind;
      this.mimeType := mimeType;
      this.uri := uri;
      this.dependencies := dependencies;
      this.metadata := metadata;
      item := None;
    }
  }
}
