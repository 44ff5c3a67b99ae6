/**
 * The values the statistics script reads: one row of `metadata.csv`, the
 * auxiliary JSON document a row may point to, and the location of that
 * document.
 */
module Records {

  datatype Option<T> = None | Some(value: T)

  /** One row of the metadata table, restricted to the columns the script
      reads. Every cell is a string, possibly empty. */
  datatype Row = Row(
    cordUid: string,
    sha: string,
    hasPmcXmlParse: string,
    hasPdfParse: string,
    fullTextFile: string,
    title: string,
    abstractText: string,
    pmcid: string)

  /** A JSON value as `json.load` returns it. */
  datatype Json =
    | JNull
    | JBool(b: bool)
    | JNumber(n: real)
    | JString(s: string)
    | JArray(items: seq<Json>)
    | JObject(members: map<string, Json>)

  /** Python truthiness of a loaded JSON value: `None`, `False`, zero and
      empty strings, lists and dicts are false, everything else is true. */
  predicate Truthy(j: Json) {
    match j
    case JNull => false
    case JBool(b) => b
    case JNumber(n) => n != 0.0
    case JString(s) => s != []
    case JArray(items) => items != []
    case JObject(members) => members != map[]
  }

  /** The `metadata` object of an auxiliary document: its `title` and
      `abstract` keys, each present or absent. */
  datatype Metadata = Metadata(title: Option<Json>, abstractText: Option<Json>)

  /** An auxiliary full-text document: an optional `metadata` object and an
      optional `body_text` value. */
  datatype AuxDoc = AuxDoc(metadata: Option<Metadata>, bodyText: Option<Json>)

  /** The outcome of opening and parsing one auxiliary file: a missing file,
      an unreadable one and malformed JSON are all `ParseFailed`. */
  datatype Parse = ParseFailed | Parsed(doc: AuxDoc)

  /** Where an auxiliary file lives, below the data directory:
      `<full_text_file>/pmc_json/<pmcid>.xml.json` or
      `<full_text_file>/pdf_json/<sha>.json`. */
  datatype AuxPath =
    | PmcJson(fullTextFile: string, pmcid: string)
    | PdfJson(fullTextFile: string, sha: string)
}
