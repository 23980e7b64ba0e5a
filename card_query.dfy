/**
 * Parsing of a card query `Name` or `Name|Set` and the choice among the three
 * card API endpoints (name only, name and set name, name and set code).
 */
module CardQuery {
  import opened Wrappers
  import opened Text
  import opened Cards

  /** The endpoint a query is sent to, with the arguments it is filled with. */
  datatype Endpoint =
    | NameOnly(name: string)
    | NameCode(name: string, code: string)
    | NameSet(name: string, setName: string)

  /** The configured URL templates and the library calls that fill them:
      `escape` is `url.QueryEscape`, `sprintf` is `fmt.Sprintf`, `get` is the
      HTTP request and JSON decoding, `None` on any failure. */
  datatype Api = Api(
    nameOnly: string,
    nameAndSet: string,
    nameAndCode: string,
    escape: string -> string,
    sprintf: (string, seq<string>) -> string,
    get: string -> Option<seq<Card>>)

  predicate IsAsciiAlnum(c: char) {
    '0' <= c <= '9' || 'A' <= c <= 'Z' || 'a' <= c <= 'z'
  }

  /** Whole-string match of `^[0-9A-Za-z]{2,3}$`. */
  predicate IsSetCode(s: string) {
    2 <= |s| <= 3 && forall i :: 0 <= i < |s| ==> IsAsciiAlnum(s[i])
  }

  /** `FindString` of the anchored set-code pattern: the whole string or "". */
  function FindSetCode(s: string): (code: string)
    ensures code == "" || code == s
    ensures code != "" <==> IsSetCode(s)
  {
    if IsSetCode(s) then s else ""
  }

  /** Splits the query on `|`: the card name is the first piece; exactly one
      `|` selects a set code (2-3 ASCII alphanumerics) or else a set name;
      no `|` or several select the name-only endpoint. */
  function ParseQuery(query: string): (ep: Endpoint)
    ensures HasPrefix(query, ep.name) && '|' !in ep.name
    ensures |ep.name| == |query| || query[|ep.name|] == '|'
    ensures Count(query, '|') == 1 ==>
      && |ep.name| < |query|
      && var suffix := query[|ep.name| + 1..];
         ep == if IsSetCode(suffix) then NameCode(ep.name, suffix) else NameSet(ep.name, suffix)
    ensures Count(query, '|') != 1 ==> ep.NameOnly?
    ensures ep.NameCode? ==> query == ep.name + "|" + ep.code
    ensures ep.NameSet? ==> query == ep.name + "|" + ep.setName
  {
    var parts := Split(query, '|');
    SplitHead(query, '|');
    if |parts| == 2 then
      var setCode := FindSetCode(parts[1]);
      if |setCode| > 0 then NameCode(parts[0], setCode) else NameSet(parts[0], parts[1])
    else
      NameOnly(parts[0])
  }

  /** The request URL: the card name and the set name are query-escaped, the
      set code is inserted as it is. */
  function Uri(api: Api, ep: Endpoint): string {
    match ep
    case NameOnly(name) => api.sprintf(api.nameOnly, [api.escape(name)])
    case NameCode(name, code) => api.sprintf(api.nameAndCode, [api.escape(name), code])
    case NameSet(name, setName) => api.sprintf(api.nameAndSet, [api.escape(name), api.escape(setName)])
  }
}
