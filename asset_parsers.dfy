/**
 * The library-wide file-extension to MIME-type registry of the asset
 * parsers: both the extension and the MIME type are lower-cased and trimmed
 * on the way in, and the extension is lower-cased and trimmed on lookup.
 */
module AssetParsers {
  import opened Wrappers
  import opened JsString

  /** `s.toLowerCase().trim()` */
  function Normalize(s: string): (r: string)
    ensures IsLower(r)
  {
    Trim(ToLower(s))
  }

  /** Normalizing a normalized string changes nothing. */
  lemma NormalizeIdempotent(s: string)
    ensures Normalize(Normalize(s)) == Normalize(s)
  {
    var n := Normalize(s);
    ToLowerOfLower(n);
    TrimIdempotent(ToLower(s));
  }

  /** The outcome of a registration: the new table, or the message of the failed assertion. */
  datatype Registration = Registered(table: map<string, string>) | AssertionFailed(message: string)

  /**
   * `registerFileExtension(extension, mimeType)` on a table: an extension or a
   * MIME type that is empty once normalized fails its assertion (the
   * extension is checked first); otherwise the normalized extension maps to
   * the normalized MIME type.
   */
  function RegisterExtension(table: map<string, string>, extension: string, mimeType: string): (r: Registration)
    ensures r.AssertionFailed? <==> Normalize(extension) == "" || Normalize(mimeType) == ""
    ensures r.Registered? ==> Normalize(extension) in r.table
  {
    var ext := Normalize(extension);
    var mime := Normalize(mimeType);
    if |ext| == 0 then AssertionFailed("empty file extension provided")
    else if |mime| == 0 then AssertionFailed("empty mime-type provided")
    else Registered(table[ext := mime])
  }

  /** `mimeTypeForFileExtension(extension)` on a table. */
  function LookupExtension(table: map<string, string>, extension: string): (r: Option<string>)
    ensures r.Some? <==> Normalize(extension) in table
  {
    var ext := Normalize(extension);
    if ext in table then Some(table[ext]) else None
  }

  /** Every key and value of the table is normalized and non-empty, as registration keeps it. */
  predicate WellFormedTable(table: map<string, string>) {
    forall ext <- table :: ext != "" && Normalize(ext) == ext && table[ext] != "" && Normalize(table[ext]) == table[ext]
  }

  /** Registration keeps the table well formed. */
  lemma RegisterKeepsWellFormed(table: map<string, string>, extension: string, mimeType: string)
    requires WellFormedTable(table)
    requires RegisterExtension(table, extension, mimeType).Registered?
    ensures WellFormedTable(RegisterExtension(table, extension, mimeType).table)
  {
    var ext, mime := Normalize(extension), Normalize(mimeType);
    NormalizeIdempotent(extension);
    NormalizeIdempotent(mimeType);
    var t := RegisterExtension(table, extension, mimeType).table;
    assert t == table[ext := mime];
    forall k <- t
      ensures k != "" && Normalize(k) == k && t[k] != "" && Normalize(t[k]) == t[k]
    {
      if k != ext {
        assert k in table;
      }
    }
  }

  /** After a registration, every spelling of the extension that normalizes alike finds the normalized MIME type. */
  lemma LookupAfterRegister(table: map<string, string>, extension: string, mimeType: string, query: string)
    requires RegisterExtension(table, extension, mimeType).Registered?
    requires Normalize(query) == Normalize(extension)
    ensures LookupExtension(RegisterExtension(table, extension, mimeType).table, query) == Some(Normalize(mimeType))
  {}

  /** Registering overwrites only the normalized extension's entry. */
  lemma RegisterLeavesOthers(table: map<string, string>, extension: string, mimeType: string, query: string)
    requires RegisterExtension(table, extension, mimeType).Registered?
    requires Normalize(query) != Normalize(extension)
    ensures LookupExtension(RegisterExtension(table, extension, mimeType).table, query) == LookupExtension(table, query)
  {}

  /** A failed registration reports the extension first. */
  lemma RegisterFailureMessage(table: map<string, string>, extension: string, mimeType: string)
    ensures Normalize(extension) == "" ==>
      RegisterExtension(table, extension, mimeType) == AssertionFailed("empty file extension provided")
    ensures Normalize(extension) != "" && Normalize(mimeType) == "" ==>
      RegisterExtension(table, extension, mimeType) == AssertionFailed("empty mime-type provided")
  {}

  /** Registering (" PNG ", "Image/PNG") makes "png " find "image/png". */
  lemma RegisterExample(table: map<string, string>)
    ensures RegisterExtension(table, " PNG ", "Image/PNG").Registered?
    ensures LookupExtension(RegisterExtension(table, " PNG ", "Image/PNG").table, "png ") == Some("image/png")
  {
    NormalizeExamples();
  }

  lemma NormalizeExamples()
    ensures Normalize(" PNG ") == "png" && Normalize("png ") == "png"
    ensures Normalize("Image/PNG") == "image/png"
  {
    NormalizeSpacedUpper();
    NormalizeSpacedLower();
    NormalizeMimeType();
  }

  lemma NormalizeSpacedUpper()
    ensures Normalize(" PNG ") == "png"
  {
    var l := ToLower(" PNG ");
    assert l == " png ";
    TrimPadded(l, 1, 4);
  }

  lemma NormalizeSpacedLower()
    ensures Normalize("png ") == "png"
  {
    var l := ToLower("png ");
    assert l == "png ";
    TrimPadded(l, 0, 3);
  }

  lemma NormalizeMimeType()
    ensures Normalize("Image/PNG") == "image/png"
  {
    var l := ToLower("Image/PNG");
    assert l == "image/png";
    TrimPadded(l, 0, 9);
  }

  /** The registry's table, which registration updates in place. */
  class ExtensionRegistry {
    var extensionMimeTypeMap: map<string, string>

    constructor ()
      ensures extensionMimeTypeMap == map[]
    {
      extensionMimeTypeMap := map[];
    }

    /**
     * `registerFileExtension`: store the normalized pair, or report the failed
     * assertion and leave the table as it was.
     */
    method RegisterFileExtension(extension: string, mimeType: string) returns (failure: Option<string>)
      modifies this
      ensures var r := RegisterExtension(old(extensionMimeTypeMap), extension, mimeType);
        (r.Registered? ==> failure == None && extensionMimeTypeMap == r.table)
        && (r.AssertionFailed? ==> failure == Some(r.message) && extensionMimeTypeMap == old(extensionMimeTypeMap))
    {
      var r := RegisterExtension(extensionMimeTypeMap, extension, mimeType);
      if r.AssertionFailed? {
        return Some(r.message);
      }
      extensionMimeTypeMap := r.table;
      return None;
    }

    /** `mimeTypeForFileExtension`: the MIME type registered for the normalized extension. */
    function MimeTypeForFileExtension(extension: string): (r: Option<string>)
      reads this
      ensures r.Some? <==> Normalize(extension) in extensionMimeTypeMap
      ensures r.Some? ==> r.value == extensionMimeTypeMap[Normalize(extension)]
    {
      LookupExtension(extensionMimeTypeMap, extension)
    }
  }

  /** An extension nobody registered is not found. */
  lemma UnregisteredNotFound(extension: string)
    ensures LookupExtension(map[], extension) == None
  {}
}
