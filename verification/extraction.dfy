/** `extract_json_from_text` in utils/worker_thread_chat_completion.py: the
    fixed order in which a reply text is searched for a JSON document. The
    two regular expressions and `json.loads` are parameters; only the
    fallback order is modelled. */
module Extraction {
  import opened Wrappers
  import opened Text
  import Json

  /** The searches the extractor relies on. `fenced(t)` is group 1 of the
      first fenced code block of `t`, `braced(t)` group 1 of the first
      brace-balanced object, and `parse(t)` is `json.loads(t)`, `None` when
      it raises. */
  datatype Extractors = Extractors(
    fenced: string -> Option<string>,
    braced: string -> Option<string>,
    parse: string -> Option<Json.Value>)

  /** Which candidate a parsed document came from. */
  datatype Source = FencedBlock | BracedObject | WholeText

  /** What the extractor hands back: `None` for an empty text, a parsed
      document, or the text itself when nothing parses. */
  datatype Extraction =
    | NoText
    | Parsed(source: Source, doc: Json.Value)
    | RawText(text: string)
  {
    /** The Python value the caller receives. */
    function Value(): Json.Value {
      match this
      case NoText => Json.Null
      case Parsed(_, v) => v
      case RawText(s) => Json.Str(s)
    }
  }

  /** The parse of a candidate found by `search`, after stripping it. */
  function Attempt(search: string -> Option<string>, parse: string -> Option<Json.Value>, text: string): Option<Json.Value> {
    match search(text)
    case None => None
    case Some(g) => parse(Strip(g))
  }

  function Extract(x: Extractors, text: string): (r: Extraction)
    ensures r.NoText? <==> text == []
    ensures r.RawText? ==> r.text == text
    ensures r.Parsed? && r.source == FencedBlock ==> Attempt(x.fenced, x.parse, text) == Some(r.doc)
    ensures r.Parsed? && r.source == BracedObject ==> Attempt(x.braced, x.parse, text) == Some(r.doc)
    ensures r.Parsed? && r.source == WholeText ==> x.parse(text) == Some(r.doc)
  {
    if text == [] then NoText
    else match Attempt(x.fenced, x.parse, text)
      case Some(v) => Parsed(FencedBlock, v)
      case None =>
        match Attempt(x.braced, x.parse, text)
        case Some(v) => Parsed(BracedObject, v)
        case None =>
          match x.parse(text)
          case Some(v) => Parsed(WholeText, v)
          case None => RawText(text)
  }

  /** A fenced block that parses wins over every other candidate. */
  lemma FencedFirst(x: Extractors, text: string, v: Json.Value)
    requires text != []
    requires Attempt(x.fenced, x.parse, text) == Some(v)
    ensures Extract(x, text) == Parsed(FencedBlock, v)
  {
  }

  /** A braced object is used exactly when the text is non-empty, no fenced
      block parses and the object does. */
  lemma BracedSecond(x: Extractors, text: string, v: Json.Value)
    ensures Extract(x, text) == Parsed(BracedObject, v) <==>
            text != [] && Attempt(x.fenced, x.parse, text) == None && Attempt(x.braced, x.parse, text) == Some(v)
  {
  }

  /** The whole text is parsed only after both searches came to nothing. */
  lemma WholeThird(x: Extractors, text: string, v: Json.Value)
    ensures Extract(x, text) == Parsed(WholeText, v) <==>
            text != [] && Attempt(x.fenced, x.parse, text) == None
            && Attempt(x.braced, x.parse, text) == None && x.parse(text) == Some(v)
  {
  }

  /** The raw text comes back exactly when it is non-empty and all three
      candidates fail to parse. */
  lemma RawTextLast(x: Extractors, text: string)
    ensures Extract(x, text).RawText? <==>
            text != [] && Attempt(x.fenced, x.parse, text) == None
            && Attempt(x.braced, x.parse, text) == None && x.parse(text) == None
  {
  }

  /** A raw-text fallback is always a truthy `str`. */
  lemma RawTextIsTruthyString(x: Extractors, text: string)
    requires Extract(x, text).RawText?
    ensures Extract(x, text).Value() == Json.Str(text)
    ensures Json.Truthy(Extract(x, text).Value())
  {
  }
}
