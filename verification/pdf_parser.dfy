/** `extractDataFromText` of server/utils/pdfParser.js: the header fields of an
    academic transcript together with its list of curricular components, both
    read from the text a PDF library has already extracted. */
module PdfParser {
  import opened Text
  import opened Header
  import opened Scanner

  /** The object the extractor returns: the header fields and `componentes`. */
  datatype Historico = Historico(header: Header, componentes: seq<Component>)

  /** Header fields by pattern over the whole text; components by the scan over
      its trimmed, non-empty lines. Without the section marker anywhere in the
      text there are no components; otherwise they carry at most two distinct
      terms, each is well formed, and there are at most as many as six-line
      groups fit after a marker line. */
  method ExtractDataFromText(text: string) returns (data: Historico)
    ensures data.header == ExtractHeader(text)
    ensures data.componentes == Scan(Lines(text))
    ensures !Contains(text, SectionMarker) ==> data.componentes == []
    ensures |Periods(data.componentes)| <= 2
    ensures 6 * |data.componentes| <= |Lines(text)| + 4
    ensures forall k :: 0 <= k < |data.componentes| ==> WellFormed(data.componentes[k])
  {
    var lines := Lines(text);
    var componentes := ScanComponents(lines);
    ScanProperties(lines);
    if !Contains(text, SectionMarker) {
      forall m | 0 <= m < |lines|
        ensures !Contains(lines[m], SectionMarker)
      {
        if Contains(lines[m], SectionMarker) {
          ContainsTrans(text, lines[m], SectionMarker);
        }
      }
    }
    data := Historico(ExtractHeader(text), componentes);
  }
}
