/**
 * How the asset loader decides which parser handles an asset: a table of
 * parsers by asset kind, a file-extension to MIME-type table and a MIME-type
 * to asset-kind table, and the precedence by which an asset's kind is found
 * from its explicit kind, its MIME type or the extension of its URI.
 */
module AssetParser {
  import opened Wrappers
  import opened JsString
  import opened AssetTypes

  /** The outcome of adding an entry to a table: the new table, or the message of the failed assertion. */
  datatype TableUpdate = Updated(table: map<string, string>) | AssertionFailed(message: string)

  /**
   * `registerFileExtension(extension, mimeType)` on a table: both are
   * lower-cased but not trimmed; an empty one fails its assertion, the
   * extension being checked first.
   */
  function RegisterExtension(table: map<string, string>, extension: string, mimeType: string): (r: TableUpdate)
    ensures r.AssertionFailed? <==> extension == "" || mimeType == ""
    ensures r.Updated? ==> ToLower(extension) in r.table
  {
    var ext := ToLower(extension);
    var mime := ToLower(mimeType);
    if |ext| == 0 then AssertionFailed("registerFileExtension: empty file extension provided")
    else if |mime| == 0 then AssertionFailed("registerFileExtension: empty mime-type provided")
    else Updated(table[ext := mime])
  }

  /** `mimeTypeForFileExtension(extension)`: look up the lower-cased, trimmed extension. */
  function LookupMimeType(table: map<string, string>, extension: string): (r: Option<string>)
    ensures r.Some? <==> Trim(ToLower(extension)) in table
  {
    var ext := Trim(ToLower(extension));
    if ext in table then Some(table[ext]) else None
  }

  /**
   * `mapMimeTypeToAssetKind(mimeType, assetKind)` on a table: both are
   * lower-cased; an empty one fails its assertion, the MIME type first.
   */
  function MapMimeType(table: map<string, string>, mimeType: string, assetKind: string): (r: TableUpdate)
    ensures r.AssertionFailed? <==> mimeType == "" || assetKind == ""
    ensures r.Updated? ==> ToLower(mimeType) in r.table
  {
    var mime := ToLower(mimeType);
    var kind := ToLower(assetKind);
    if |mime| == 0 then AssertionFailed("mapMimeTypeToAssetKind: empty mime-type provided")
    else if |kind| == 0 then AssertionFailed("mapMimeTypeToAssetKind: empty asset kind provided")
    else Updated(table[mime := kind])
  }

  /** `assetKindForMimeType(mimeType)`: look up the lower-cased MIME type. */
  function KindForMimeType(table: map<string, string>, mimeType: string): (r: Option<string>)
    ensures r.Some? <==> ToLower(mimeType) in table
  {
    var mime := ToLower(mimeType);
    if mime in table then Some(table[mime]) else None
  }

  /**
   * `assetKindForAsset`: a non-empty explicit kind, lower-cased; else, for a
   * non-empty MIME type, that type's kind; else, for a non-empty URI whose
   * extension has a non-empty MIME type, that type's kind; else nothing.
   * `extensionOf` stands for the URI's file extension.
   */
  function KindForAsset(extensions: map<string, string>, kinds: map<string, string>,
                        kind: Option<string>, mimeType: Option<string>, uri: Option<string>,
                        extensionOf: string -> string): (r: Option<string>)
    ensures kind.Some? && kind.value != "" ==> r == Some(ToLower(kind.value))
  {
    if kind.Some? && |kind.value| > 0 then Some(ToLower(kind.value))
    else if mimeType.Some? && |mimeType.value| > 0 then KindForMimeType(kinds, mimeType.value)
    else if uri.Some? && |uri.value| > 0 then
      var mime := LookupMimeType(extensions, extensionOf(uri.value));
      if mime.Some? && mime.value != "" then KindForMimeType(kinds, mime.value) else None
    else None
  }

  /** What `assetParser` does with an asset. */
  datatype Decision<P> =
    | PassThrough
    | Dispatch(kind: string, parser: P)
    | Reject(reason: string)

  const CANNOT_DETERMINE_KIND := "Cannot determine asset kind, cannot parse."

  /** The message for a kind without a registered parser. */
  function NoParserMessage(kind: string): string {
    "No parser registered for asset kind \"" + kind + "\""
  }

  /**
   * The decision of `assetParser`: an asset that already has an item passes
   * through; otherwise the parser registered for the found kind handles it,
   * or it is rejected.
   */
  function Decide<P>(hasItem: bool, kind: Option<string>, parsers: map<string, P>): (d: Decision<P>)
    ensures d.PassThrough? <==> hasItem
    ensures d.Dispatch? <==> !hasItem && kind.Some? && kind.value in parsers
    ensures d.Dispatch? ==> d.kind == kind.value && d.parser == parsers[kind.value]
  {
    if hasItem then PassThrough
    else if kind.Some? then
      if kind.value in parsers then Dispatch(kind.value, parsers[kind.value])
      else Reject(NoParserMessage(kind.value))
    else Reject(CANNOT_DETERMINE_KIND)
  }

  /** The loader's three tables, which registration updates in place. */
  class AssetRegistry<P> {
    var parsers: map<string, P>
    var extensionMimeTypeMap: map<string, string>
    var mimeTypeAssetKindMap: map<string, string>

    constructor ()
      ensures parsers == map[] && extensionMimeTypeMap == map[] && mimeTypeAssetKindMap == map[]
    {
      parsers := map[];
      extensionMimeTypeMap := map[];
      mimeTypeAssetKindMap := map[];
    }

    /** Every asset kind in the kind table is lower case, as `mapMimeTypeToAssetKind` stores it. */
    predicate Valid()
      reads this
    {
      forall mime <- mimeTypeAssetKindMap :: IsLower(mimeTypeAssetKindMap[mime])
    }

    /** `registerParser(kind, parser)`: the parser for kind, replacing any earlier one. */
    method RegisterParser(kind: string, parser: P)
      modifies this
      ensures parsers == old(parsers)[kind := parser]
      ensures extensionMimeTypeMap == old(extensionMimeTypeMap) && mimeTypeAssetKindMap == old(mimeTypeAssetKindMap)
    {
      parsers := parsers[kind := parser];
    }

    /** `registerFileExtension(extension, mimeType)` */
    method RegisterFileExtension(extension: string, mimeType: string) returns (failure: Option<string>)
      modifies this
      ensures var r := RegisterExtension(old(extensionMimeTypeMap), extension, mimeType);
        (r.Updated? ==> failure == None && extensionMimeTypeMap == r.table)
        && (r.AssertionFailed? ==> failure == Some(r.message) && extensionMimeTypeMap == old(extensionMimeTypeMap))
      ensures parsers == old(parsers) && mimeTypeAssetKindMap == old(mimeTypeAssetKindMap)
    {
      var r := RegisterExtension(extensionMimeTypeMap, extension, mimeType);
      if r.AssertionFailed? {
        return Some(r.message);
      }
      extensionMimeTypeMap := r.table;
      return None;
    }

    /** `mapMimeTypeToAssetKind(mimeType, assetKind)` */
    method MapMimeTypeToAssetKind(mimeType: string, assetKind: string) returns (failure: Option<string>)
      requires Valid()
      modifies this
      ensures Valid()
      ensures var r := MapMimeType(old(mimeTypeAssetKindMap), mimeType, assetKind);
        (r.Updated? ==> failure == None && mimeTypeAssetKindMap == r.table)
        && (r.AssertionFailed? ==> failure == Some(r.message) && mimeTypeAssetKindMap == old(mimeTypeAssetKindMap))
      ensures parsers == old(parsers) && extensionMimeTypeMap == old(extensionMimeTypeMap)
    {
      var r := MapMimeType(mimeTypeAssetKindMap, mimeType, assetKind);
      if r.AssertionFailed? {
        return Some(r.message);
      }
      mimeTypeAssetKindMap := r.table;
      return None;
    }

    /**
     * `assetParser(asset)`: pass an asset that has an item through; otherwise
     * find its kind, store it in the asset, and dispatch to the kind's parser
     * or reject.
     */
    method AssetParser(asset: Asset, extensionOf: string -> string) returns (d: Decision<P>)
      modifies asset
      ensures var kind := KindForAsset(extensionMimeTypeMap, mimeTypeAssetKindMap,
                                       old(asset.kind), asset.mimeType, asset.uri, extensionOf);
        d == Decide(old(asset.item).Some?, kind, parsers)
        && asset.kind == (if old(asset.item).None? && kind.Some? then kind else old(asset.kind))
      ensures asset.item == old(asset.item)
    {
      if asset.item.Some? {
        return PassThrough;
      }
      var kind := KindForAsset(extensionMimeTypeMap, mimeTypeAssetKindMap, asset.kind, asset.mimeType, asset.uri, extensionOf);
      if kind.Some? {
        asset.kind := kind;
        if kind.value in parsers {
          return Dispatch(kind.value, parsers[kind.value]);
        }
        return Reject(NoParserMessage(kind.value));
      }
      return Reject(CANNOT_DETERMINE_KIND);
    }
  }

  /** Mapping a MIME type keeps every stored kind lower case. */
  lemma MapMimeTypeKeepsLower(table: map<string, string>, mimeType: string, assetKind: string)
    requires forall m <- table :: IsLower(table[m])
    requires MapMimeType(table, mimeType, assetKind).Updated?
    ensures var t := MapMimeType(table, mimeType, assetKind).table;
      forall m <- t :: IsLower(t[m])
  {}

  /** A non-empty explicit kind decides, whatever the MIME type and URI say. */
  lemma ExplicitKindWins(extensions: map<string, string>, kinds: map<string, string>, kind: string,
                         mimeType: Option<string>, uri: Option<string>, extensionOf: string -> string)
    requires kind != ""
    ensures KindForAsset(extensions, kinds, Some(kind), mimeType, uri, extensionOf) == Some(ToLower(kind))
    ensures KindForAsset(extensions, kinds, Some(kind), mimeType, uri, extensionOf)
      == KindForAsset(extensions, kinds, Some(kind), None, None, extensionOf)
  {}

  /**
   * Without an explicit kind, a non-empty MIME type decides, even when it has
   * no kind and the URI's extension would have one.
   */
  lemma MimeTypeBeforeURI(extensions: map<string, string>, kinds: map<string, string>, kind: Option<string>,
                          mimeType: string, uri: Option<string>, extensionOf: string -> string)
    requires kind.None? || kind.value == ""
    requires mimeType != ""
    ensures KindForAsset(extensions, kinds, kind, Some(mimeType), uri, extensionOf) == KindForMimeType(kinds, mimeType)
  {}

  /** With neither a kind nor a MIME type, the URI's extension decides through both tables. */
  lemma URIFallback(extensions: map<string, string>, kinds: map<string, string>, kind: Option<string>,
                    mimeType: Option<string>, uri: string, extensionOf: string -> string)
    requires kind.None? || kind.value == ""
    requires mimeType.None? || mimeType.value == ""
    requires uri != ""
    ensures var mime := LookupMimeType(extensions, extensionOf(uri));
      KindForAsset(extensions, kinds, kind, mimeType, Some(uri), extensionOf)
        == if mime.Some? && mime.value != "" then KindForMimeType(kinds, mime.value) else None
  {}

  /** With no kind, MIME type or URI, no kind is found. */
  lemma NothingToGoOn(extensions: map<string, string>, kinds: map<string, string>, kind: Option<string>,
                      mimeType: Option<string>, uri: Option<string>, extensionOf: string -> string)
    requires kind.None? || kind.value == ""
    requires mimeType.None? || mimeType.value == ""
    requires uri.None? || uri.value == ""
    ensures KindForAsset(extensions, kinds, kind, mimeType, uri, extensionOf) == None
  {}

  /**
   * Every kind found is lower case, so a parser registered under a kind with
   * an upper-case letter is never dispatched to.
   */
  lemma FoundKindIsLower<P>(extensions: map<string, string>, kinds: map<string, string>,
                            kind: Option<string>, mimeType: Option<string>, uri: Option<string>,
                            extensionOf: string -> string, hasItem: bool, parsers: map<string, P>)
    requires forall m <- kinds :: IsLower(kinds[m])
    ensures var k := KindForAsset(extensions, kinds, kind, mimeType, uri, extensionOf);
      (k.Some? ==> IsLower(k.value))
      && (Decide(hasItem, k, parsers).Dispatch? ==> IsLower(Decide(hasItem, k, parsers).kind))
  {
    var k := KindForAsset(extensions, kinds, kind, mimeType, uri, extensionOf);
    if kind.Some? && |kind.value| > 0 {
    } else if mimeType.Some? && |mimeType.value| > 0 {
      assert ToLower(mimeType.value) in kinds ==> k == Some(kinds[ToLower(mimeType.value)]);
    } else if uri.Some? && |uri.value| > 0 {
      var mime := LookupMimeType(extensions, extensionOf(uri.value));
      if mime.Some? && mime.value != "" {
        assert ToLower(mime.value) in kinds ==> k == Some(kinds[ToLower(mime.value)]);
      }
    }
  }

  /** An extension registered with white space at either end is never found: lookups trim. */
  lemma PaddedExtensionNeverFound(table: map<string, string>, extension: string, mimeType: string, query: string)
    requires RegisterExtension(table, extension, mimeType).Updated?
    requires IsJsWhitespace(extension[0]) || IsJsWhitespace(extension[|extension| - 1])
    ensures Trim(ToLower(query)) != ToLower(extension)
  {
    var l := ToLower(extension);
    LowerCharKeepsWhitespace(extension[0]);
    LowerCharKeepsWhitespace(extension[|extension| - 1]);
    assert IsJsWhitespace(l[0]) || IsJsWhitespace(l[|l| - 1]);
  }

  /** An extension registered without surrounding white space is found whatever the case of the query. */
  lemma LookupIgnoresCase(table: map<string, string>, extension: string, mimeType: string, query: string)
    requires RegisterExtension(table, extension, mimeType).Updated?
    requires !IsJsWhitespace(extension[0]) && !IsJsWhitespace(extension[|extension| - 1])
    requires ToLower(query) == ToLower(extension)
    ensures LookupMimeType(RegisterExtension(table, extension, mimeType).table, query) == Some(ToLower(mimeType))
  {
    var l := ToLower(extension);
    LowerCharKeepsWhitespace(extension[0]);
    LowerCharKeepsWhitespace(extension[|extension| - 1]);
    TrimOfTrimmed(l);
  }

  /** The rejection messages name the reason, and the kind when there is one. */
  lemma RejectionMessages<P>(kind: Option<string>, parsers: map<string, P>)
    ensures kind.None? ==> Decide(false, kind, parsers) == Reject(CANNOT_DETERMINE_KIND)
    ensures kind.Some? && kind.value !in parsers ==>
      Decide(false, kind, parsers) == Reject("No parser registered for asset kind \"" + kind.value + "\"")
  {}
}
