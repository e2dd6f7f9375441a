/** Writing, reading and building in one contract. */
module JsonRoundTrip {
  import opened JsonEvents
  import opened JsonReaders
  import opened JsonGrammar
  import opened JsonLexer
  import opened Encodings
  import opened JsonWriters
  import opened JsonDocuments

  /**
   * A value written with either writer, read with either parser and built into a document is the same value,
   * and its text was read to the end.
   */
  method WriteReadBuild(v: Json, f: Format, c: Settings, iterative: bool) returns (built: Json)
    requires DoublesOk(c.double) && Agreeable(ReaderOf(c)) && FormatOk(f) && Writable(v)
    ensures built == v
  {
    hide EventsOf, PrintValue, ReaderOf, WriteAll, Writable;
    WriteThenRead(c, f, v);
    var writer := new Writer(f);
    EventsPrint(f, Output([], [], false), v);
    writer.Accept(v);
    var reader := new GenericReader(ReaderOf(c), writer.os);
    if iterative {
      reader.IterativeParse();
    } else {
      reader.Parse();
    }
    assert !reader.failed && reader.events == EventsOf(v) && reader.pos == |writer.os|;
    var document := new GenericDocument();
    document.Populate(reader.events, v);
    built := document.root;
  }
}
