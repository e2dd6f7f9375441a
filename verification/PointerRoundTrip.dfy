/** JSON Pointers as texts: parsed, used to make a place in a document, printed, and used to find it again. */
module PointerRoundTrip {
  import opened Options
  import opened JsonEvents
  import opened JsonGrammar
  import opened JsonLexer
  import opened Encodings
  import opened Texts
  import opened JsonPointers
  import opened PointerAccess

  lemma ParsedDashesPlain(tokens: seq<Token>)
    requires Canonical(tokens)
    ensures DashesPlain(tokens)
  {
    DashHasNoIndex();
  }

  lemma DashHasNoIndex()
    ensures IndexOf(DASH) == INVALID_INDEX
  {
    assert !IsDigit(DASH[0]);
  }

  /**
   * From text to text: what Create makes through a parsed pointer, Get finds through the printed one, in either form,
   * exactly when no '-' met an array; and Create's report is what Get says before.
   */
  lemma CreateThenGetByText(v: Json, source: Text, uri: bool)
    requires Bytes(source) && ParsePointer(source).Parsed? && (uri ==> Peek(source, 0) == HASH)
    ensures var tokens := ParsePointer(source).tokens;
            var c, printed := CreateAt(v, tokens), StringifyPointer(uri, NamesOf(tokens));
            && printed.Some? && ParsePointer(printed.value) == ParsePointer(source)
            && (DashFree(v, tokens) ==> Resolve(c.value, ParsePointer(printed.value).tokens) == Found(c.path))
            && (!DashFree(v, tokens) ==> Resolve(c.value, ParsePointer(printed.value).tokens).Unresolved?)
            && (c.existed <==> Resolve(v, tokens).Found?)
  {
    hide ParsePointer, StringifyPointer, IndexOf, CreateAt, Resolve, DashFree;
    var tokens := ParsePointer(source).tokens;
    ParseThenPrint(source, uri);
    ParsedIsCanonical(source);
    ParsedDashesPlain(tokens);
    CreateThenGet(v, tokens);
    CreateReports(v, tokens);
  }

  lemma ParsedIsCanonical(source: Text)
    requires Bytes(source) && ParsePointer(source).Parsed?
    ensures Canonical(ParsePointer(source).tokens)
  {
    hide TokensFrom, IndexOf;
    var uri := Peek(source, 0) == HASH;
    TokensGive(uri, source, if uri then 1 else 0, []);
  }
}
