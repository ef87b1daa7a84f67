/** `parse_file` (src/asm.rs): run the statement parser over the whole input
    and refuse any input it does not consume entirely. */
module AsmParse {
  import opened Strings
  import opened AsmStatements
  import Utf8

  /** What `many0(parse_statement)` returns: the unconsumed rest and the
      statements parsed, or a parser error. */
  datatype NomResult = NomOk(rest: string, stmts: seq<Statement>) | NomErr(message: string)

  datatype ParseError =
    | Leftovers(text: string)
    | LeftoversPrefix(text: string)
    | CouldNotParse(message: string)

  /** Leftovers are shown whole below this many bytes. */
  const LEFTOVER_LIMIT: nat := 1000
  /** Longer leftovers are shown as this many characters. */
  const PREFIX_CHARS: nat := 200

  function ParseFile(input: string, many0: string -> NomResult): (r: Result<seq<Statement>, ParseError>)
    ensures r.Ok? <==> many0(input).NomOk? && many0(input).rest == []
    ensures r.Ok? ==> r.value == many0(input).stmts
    ensures r.Err? && r.error.Leftovers? ==>
      many0(input).NomOk? && r.error.text == many0(input).rest && |Utf8.Encode(r.error.text)| < LEFTOVER_LIMIT
    ensures r.Err? && r.error.LeftoversPrefix? ==>
      many0(input).NomOk? && |Utf8.Encode(many0(input).rest)| >= LEFTOVER_LIMIT &&
      |r.error.text| == PREFIX_CHARS && StartsWith(many0(input).rest, r.error.text)
    ensures r.Err? && r.error.CouldNotParse? <==> many0(input).NomErr?
  {
    match many0(input)
    case NomOk(rest, stmts) =>
      if rest == [] then Ok(stmts)
      else if |Utf8.Encode(rest)| < LEFTOVER_LIMIT then Err(Leftovers(rest))
      else
        // at most four bytes per character: at least 250 characters, so the
        // 201st character that the prefix ends before always exists
        assert |rest| > PREFIX_CHARS;
        Err(LeftoversPrefix(rest[..PREFIX_CHARS]))
    case NomErr(message) => Err(CouldNotParse(message))
  }

  /** The text the error carries: leftovers are quoted as `Debug` writes
      them, the parser's own message is kept as it is. */
  function ParseErrorMessage(e: ParseError): string {
    match e
    case Leftovers(text) => "Didn't consume everything, leftovers: " + DebugStr(text)
    case LeftoversPrefix(text) => "Didn't consume everything, leftovers prefix: " + DebugStr(text)
    case CouldNotParse(message) => "Couldn't parse the .s file: " + message
  }
}
