/** The document parser, from the first token to the last. */
module JsonDocuments {
  import opened Json
  import opened JsonGrammar

  /** `strict_json` with the parser that needs no recursion. */
  method StrictJson(t: seq<Token>) returns (r: Result)
    ensures r == ParseDocument(t)
  {
    r := IterativeParse(t, SkipWs(t, 0));
    if r.Ok? && SkipWs(t, r.next) != |t| {
      r := Fail;
    }
  }
}
