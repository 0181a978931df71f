/**
 * The document types the system accepts on upload and their MIME types: the table
 * `SUPPORTED_MIME_TYPES` and its inverse lookup `getFileType`.
 */
module FileStorageTypes {
  import opened Wrappers

  /** `SupportedFileType`: `"pdf"` or `"docx"`. */
  datatype SupportedFileType = Pdf | Docx

  /** The string a `SupportedFileType` stands for. */
  function TypeName(t: SupportedFileType): (name: string)
    ensures name == "pdf" <==> t == Pdf
    ensures name == "docx" <==> t == Docx
  {
    match t
    case Pdf => "pdf"
    case Docx => "docx"
  }

  const PdfMimeType: string := "application/pdf"
  const DocxMimeType: string := "application/vnd.openxmlformats-officedocument.wordprocessingml.document"

  /** `SUPPORTED_MIME_TYPES[t]`. */
  function SupportedMimeType(t: SupportedFileType): (m: string)
    ensures m == PdfMimeType <==> t == Pdf
    ensures m == DocxMimeType <==> t == Docx
  {
    match t
    case Pdf => PdfMimeType
    case Docx => DocxMimeType
  }

  /** `Object.entries(SUPPORTED_MIME_TYPES)`: the table's pairs in declaration order. */
  const Entries: seq<(SupportedFileType, string)> :=
    [(Pdf, SupportedMimeType(Pdf)), (Docx, SupportedMimeType(Docx))]

  /** The table lists every type once, each beside its own MIME type. */
  lemma EntriesListTable()
    ensures forall i :: 0 <= i < |Entries| ==> Entries[i].1 == SupportedMimeType(Entries[i].0)
    ensures forall t: SupportedFileType :: (t, SupportedMimeType(t)) in Entries
    ensures forall i, j :: 0 <= i < j < |Entries| ==> Entries[i].0 != Entries[j].0
  {
  }

  /** No two types share a MIME type, so the table can be read backwards. */
  lemma MimeTypesDistinct(a: SupportedFileType, b: SupportedFileType)
    ensures SupportedMimeType(a) == SupportedMimeType(b) <==> a == b
  {
    if a != b {
      assert |PdfMimeType| != |DocxMimeType|;
    }
  }

  /**
   * `getFileType(mimeType)`: walks the table's entries in order and returns the type of the
   * first whose MIME type equals `mimeType` exactly, or `null` when none does. The answer is
   * the table's inverse: a type comes back exactly when its MIME type was given.
   */
  method GetFileType(mimeType: string) returns (r: Option<SupportedFileType>)
    ensures r.Some? ==> SupportedMimeType(r.value) == mimeType
    ensures forall t :: SupportedMimeType(t) == mimeType ==> r == Some(t)
    ensures r.None? <==> forall t :: SupportedMimeType(t) != mimeType
  {
    var entries := Entries;
    var i := 0;
    while i < |entries|
      invariant 0 <= i <= |entries|
      invariant forall j :: 0 <= j < i ==> entries[j].1 != mimeType
    {
      var (fileType, mime) := entries[i];
      if mime == mimeType {
        MimeTypesDistinct(fileType, Pdf);
        MimeTypesDistinct(fileType, Docx);
        return Some(fileType);
      }
      i := i + 1;
    }
    assert entries[0].1 != mimeType && entries[1].1 != mimeType;
    return None;
  }
}
