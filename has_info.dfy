/**
 * `has_info`: whether a matched row has a title, an abstract and full text,
 * taking each from the row itself or from its auxiliary document.
 */
module FieldPresence {
  import opened Records

  /** The three presence flags, in the order `has_info` returns them. */
  datatype Info = Info(title: bool, abstractText: bool, fulltext: bool)

  /** What the row alone says: a non-empty cell counts; only an auxiliary
      document can supply full text. */
  function RowInfo(row: Row): Info {
    Info(row.title != [], row.abstractText != [], false)
  }

  /** What a parsed document says, key by key. */
  function DocInfo(doc: AuxDoc): Info {
    Info(
      doc.metadata.Some? && doc.metadata.value.title.Some? && Truthy(doc.metadata.value.title.value),
      doc.metadata.Some? && doc.metadata.value.abstractText.Some? && Truthy(doc.metadata.value.abstractText.value),
      doc.bodyText.Some? && Truthy(doc.bodyText.value))
  }

  function Or(a: Info, b: Info): Info {
    Info(a.title || b.title, a.abstractText || b.abstractText, a.fulltext || b.fulltext)
  }

  /** Pointwise implication: `b` reports at least what `a` reports. */
  predicate AtMost(a: Info, b: Info) {
    (a.title ==> b.title) && (a.abstractText ==> b.abstractText) && (a.fulltext ==> b.fulltext)
  }

  /** The document `has_info` gets to look at: none when there is no path or
      when the file at the path does not parse. */
  function LoadedDoc(filePath: Option<AuxPath>, load: AuxPath -> Parse): Option<AuxDoc> {
    match filePath
    case None => None
    case Some(p) =>
      match load(p)
      case ParseFailed => None
      case Parsed(doc) => Some(doc)
  }

  /** The specification of `has_info`: the row's flags, OR-ed with the flags
      of the document when one was loaded. */
  function Presence(row: Row, filePath: Option<AuxPath>, load: AuxPath -> Parse): Info {
    match LoadedDoc(filePath, load)
    case None => RowInfo(row)
    case Some(doc) => Or(RowInfo(row), DocInfo(doc))
  }

  /** `has_info(row, file_path)`, with the file system given as `load`: the
      outcome of `json.load(open(path))` for every path. The flags start from
      the row and are only ever raised by the document. */
  method HasInfo(row: Row, filePath: Option<AuxPath>, load: AuxPath -> Parse)
    returns (hasTitle: bool, hasAbstract: bool, hasFulltext: bool)
    ensures Info(hasTitle, hasAbstract, hasFulltext) == Presence(row, filePath, load)
  {
    hasTitle := false;
    hasAbstract := false;
    hasFulltext := false;

    if row.title != [] {
      hasTitle := true;
    }
    if row.abstractText != [] {
      hasAbstract := true;
    }

    if filePath.Some? {
      var fileData := load(filePath.value);
      if fileData.Parsed? {
        var doc := fileData.doc;
        if doc.metadata.Some? {
          var metadata := doc.metadata.value;
          if metadata.title.Some? && Truthy(metadata.title.value) {
            hasTitle := true;
          }
          if metadata.abstractText.Some? && Truthy(metadata.abstractText.value) {
            hasAbstract := true;
          }
        }
        if doc.bodyText.Some? && Truthy(doc.bodyText.value) {
          hasFulltext := true;
        }
      }
    }
  }

  /** A title or an abstract found in the row is never lost, whatever the
      auxiliary file holds and whether or not it parses. */
  lemma RowPresenceKept(row: Row, filePath: Option<AuxPath>, load: AuxPath -> Parse)
    ensures AtMost(RowInfo(row), Presence(row, filePath, load))
    ensures row.title != [] ==> Presence(row, filePath, load).title
    ensures row.abstractText != [] ==> Presence(row, filePath, load).abstractText
  {
  }

  /** With no path, or a file that does not parse, the flags are exactly the
      row's own and there is no full text. */
  lemma FallbackToRow(row: Row, filePath: Option<AuxPath>, load: AuxPath -> Parse)
    requires filePath.None? || load(filePath.value).ParseFailed?
    ensures Presence(row, filePath, load) == RowInfo(row)
    ensures !Presence(row, filePath, load).fulltext
  {
  }

  /** Full text is reported exactly when a parsed document has a truthy
      `body_text`. */
  lemma FulltextOnlyFromBody(row: Row, filePath: Option<AuxPath>, load: AuxPath -> Parse)
    ensures Presence(row, filePath, load).fulltext <==>
      filePath.Some? && load(filePath.value).Parsed? &&
      load(filePath.value).doc.bodyText.Some? && Truthy(load(filePath.value).doc.bodyText.value)
  {
  }

  /** OR-monotonicity: a title (abstract, full text) is found exactly when the
      row or the loaded document has one, so a file that parses can only add
      flags relative to one that fails. */
  lemma PresenceIsOr(row: Row, p: AuxPath, failing: AuxPath -> Parse, parsing: AuxPath -> Parse)
    requires failing(p).ParseFailed? && parsing(p).Parsed?
    ensures Presence(row, Some(p), parsing) == Or(RowInfo(row), DocInfo(parsing(p).doc))
    ensures AtMost(Presence(row, Some(p), failing), Presence(row, Some(p), parsing))
    ensures AtMost(DocInfo(parsing(p).doc), Presence(row, Some(p), parsing))
  {
  }
}
