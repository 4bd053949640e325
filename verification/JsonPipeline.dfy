/** The routines of the library chained on one tree. */
module JsonPipeline {
  import opened Common
  import opened JsonLiteral
  import opened JsonText
  import JsonBuffer
  import JsonLiteralParser
  import JsonMinify
  import JsonParser
  import JsonPieces
  import JsonPrinter
  import JsonRoundTrip

  /** A tree printed with formatting into a growing buffer, minified in place and parsed again: the parser
      gets exactly the unformatted text and gives the tree back. */
  method PrintMinifyParse(v: Value, prebuffer: nat) returns (text: string, r: JsonLiteralParser.Outcome<Value>)
    requires JsonRoundTrip.Storable(v) && prebuffer >= 1
    ensures text == Print(v, 0, false) && r == JsonLiteralParser.Got(JsonRoundTrip.AsParsed(v))
  {
    ghost var long, short := Print(v, 0, true), Print(v, 0, false);
    JsonPieces.PrintNulFree(v, 0, true);
    JsonPieces.PrintNulFree(v, 0, false);
    JsonMinify.MinifyUndoesFormatting(v);
    var out, start := JsonBuffer.PrintBuffered(v, prebuffer, true);
    JsonMinify.MinifyInPlace(out, |long|);
    var n := JsonPrinter.Strlen(out, short);
    text := out[..n];
    var end;
    JsonRoundTrip.DocumentRoundTrip(v, false, true);
    r, end := JsonParser.ParseDocumentAt(text, true);
  }
}
