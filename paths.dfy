/**
  Which input files are converted, `conversion_file_path_valid`: plain-text
  files (extension `txt`) and Markdown files (extension `md`). The extension
  is compared exactly, so `TXT` or `Md` are not converted.
 */
module Paths {
  import opened Wrappers

  /** The two kinds of input the converter understands. */
  datatype Format = PlainText | Markdown

  /** The file extension that marks each format. */
  function ExtensionOf(format: Format): string
  {
    match format
    case PlainText => "txt"
    case Markdown => "md"
  }

  /** The format an extension selects, if any: the inverse of `ExtensionOf`. */
  function FormatOf(extension: string): (r: Option<Format>)
    ensures r.Some? ==> ExtensionOf(r.value) == extension
    ensures r.None? ==> forall format: Format :: ExtensionOf(format) != extension
  {
    if extension == "txt" then Some(PlainText)
    else if extension == "md" then Some(Markdown)
    else None
  }

  /** `conversion_file_path_valid`, given the path's extension. */
  predicate ConversionFilePathValid(extension: string)
  {
    extension == "txt" || extension == "md"
  }

  /** A path is accepted exactly when its extension names one of the formats. */
  lemma ValidIffFormat(extension: string)
    ensures ConversionFilePathValid(extension) <==> FormatOf(extension).Some?
    ensures ConversionFilePathValid(extension) <==> exists format: Format :: ExtensionOf(format) == extension
  {
    if ConversionFilePathValid(extension) {
      assert ExtensionOf(FormatOf(extension).value) == extension;
    }
  }

  /** Every format's own extension is accepted and selects it again. */
  lemma FormatRoundTrip(format: Format)
    ensures FormatOf(ExtensionOf(format)) == Some(format)
    ensures ConversionFilePathValid(ExtensionOf(format))
  {
  }

  /** The source's extension tests (`sample.txt`, `sample.md`, `sample.exe`), with case and empty extensions. */
  lemma ExtensionExamples()
    ensures ConversionFilePathValid("txt") && ConversionFilePathValid("md")
    ensures !ConversionFilePathValid("exe")
    ensures !ConversionFilePathValid("TXT") && !ConversionFilePathValid("Md") && !ConversionFilePathValid("")
  {
  }
}
