/** The field extractor of the indexer: `parse_document`, which pulls four
    fields out of the text of a TREC document with one regular-expression
    search each, and the combined `contents` field that `index_document`
    builds from two of them. */
module Indexer {
  import opened Wrappers
  import opened Text
  import opened Regex
  import opened TagSpec
  import opened TagMatch

  /** The four fields `parse_document` returns, in its order. */
  datatype Field = DocNoTag | HtTag | HeaderTag | TextTag

  function OpenTag(f: Field): string {
    match f
    case DocNoTag => "<DOCNO>"
    case HtTag => "<HT>"
    case HeaderTag => "<HEADER>"
    case TextTag => "<TEXT>"
  }

  function CloseTag(f: Field): string {
    match f
    case DocNoTag => "</DOCNO>"
    case HtTag => "</HT>"
    case HeaderTag => "</HEADER>"
    case TextTag => "</TEXT>"
  }

  /** DOCNO and HT are searched with `<TAG>\s*(.*?)\s*</TAG>` and no flags;
      HEADER and TEXT with `<TAG>(.*?)</TAG>` and DOTALL. */
  function ShapeOf(f: Field): Shape {
    if f == DocNoTag || f == HtTag then Trimmed else Verbatim
  }

  /** The value used when the search finds nothing. */
  function DefaultOf(f: Field): string {
    if f == DocNoTag || f == HtTag then "UNKNOWN" else ""
  }

  function FieldPattern(f: Field): Pattern {
    PatternFor(OpenTag(f), CloseTag(f), ShapeOf(f))
  }

  /** `m.group(1) if m else default` for `m = re.search(pattern, content)`. */
  function Extract(content: string, f: Field): string {
    SearchGroup(FieldPattern(f), content).GetOr(DefaultOf(f))
  }

  /** The tuple `(doc_no, ht, header, text)`. */
  datatype ParsedDocument = ParsedDocument(docNo: string, ht: string, header: string, text: string)

  function FieldOf(d: ParsedDocument, f: Field): string {
    match f
    case DocNoTag => d.docNo
    case HtTag => d.ht
    case HeaderTag => d.header
    case TextTag => d.text
  }

  /** `parse_document`: each field is searched for on its own over the whole
      content. */
  function ParseDocument(content: string): ParsedDocument {
    ParsedDocument(Extract(content, DocNoTag), Extract(content, HtTag),
                   Extract(content, HeaderTag), Extract(content, TextTag))
  }

  /** The `contents` field: the header, one space, then the text. */
  function Contents(d: ParsedDocument): (r: string)
    ensures |r| == |d.header| + 1 + |d.text|
    ensures r[..|d.header|] == d.header && r[|d.header|] == ' ' && r[|d.header| + 1..] == d.text
  {
    d.header + " " + d.text
  }

  /** Every closing tag begins with `<`, which is not whitespace. */
  lemma CloseTagReady(f: Field)
    ensures TagReady(CloseTag(f))
  {
    assert CloseTag(f)[0] == '<';
  }

  /** A found field is the value of the first admitted pair of its tags:
      `m.group(1)` for the match `re.search` returns. */
  lemma FieldFound(content: string, f: Field, i: nat, j: nat)
    requires FirstAdmitted(content, OpenTag(f), CloseTag(f), ShapeOf(f), i, j)
    ensures FieldOf(ParseDocument(content), f) == Value(content, OpenTag(f), CloseTag(f), ShapeOf(f), i, j)
  {
    CloseTagReady(f);
    FindFirst(content, OpenTag(f), CloseTag(f), ShapeOf(f), i, j);
  }

  /** A field whose tags admit no pair takes its default: "UNKNOWN" for
      DOCNO and HT, the empty string for HEADER and TEXT. */
  lemma FieldDefault(content: string, f: Field)
    requires forall i: nat, j: nat :: !Admits(content, OpenTag(f), CloseTag(f), ShapeOf(f), i, j)
    ensures FieldOf(ParseDocument(content), f) == DefaultOf(f)
  {
    CloseTagReady(f);
    FindNone(content, OpenTag(f), CloseTag(f), ShapeOf(f));
  }

  /** The search for a field succeeds exactly when its tags admit a pair. */
  lemma FieldMatched(content: string, f: Field)
    ensures SearchGroup(FieldPattern(f), content).Some?
        <==> exists i: nat, j: nat :: Admits(content, OpenTag(f), CloseTag(f), ShapeOf(f), i, j)
  {
    CloseTagReady(f);
    if i: nat, j: nat :| Admits(content, OpenTag(f), CloseTag(f), ShapeOf(f), i, j) {
      FirstAdmittedExists(content, OpenTag(f), CloseTag(f), ShapeOf(f), i, j);
      var i': nat, j': nat :| FirstAdmitted(content, OpenTag(f), CloseTag(f), ShapeOf(f), i', j');
      FindFirst(content, OpenTag(f), CloseTag(f), ShapeOf(f), i', j');
    } else {
      FindNone(content, OpenTag(f), CloseTag(f), ShapeOf(f));
    }
  }

  /** HEADER and TEXT: the characters between the first opening tag and the
      first closing tag after it, newlines kept and nothing trimmed. */
  lemma VerbatimFieldBetweenFirstTags(content: string, f: Field, i: nat, j: nat)
    requires ShapeOf(f) == Verbatim
    requires StartsAt(content, i, OpenTag(f)) && StartsAt(content, j, CloseTag(f))
    requires i + |OpenTag(f)| <= j
    requires forall i': nat :: i' < i ==> !StartsAt(content, i', OpenTag(f))
    requires forall j' :: i + |OpenTag(f)| <= j' < j ==> !StartsAt(content, j', CloseTag(f))
    ensures FieldOf(ParseDocument(content), f) == content[i + |OpenTag(f)|..j]
  {
    VerbatimFirstIff(content, OpenTag(f), CloseTag(f), i, j);
    FieldFound(content, f, i, j);
  }

  /** No field ever contains its own closing tag. */
  lemma FieldHasNoClose(content: string, f: Field)
    ensures forall k :: !StartsAt(FieldOf(ParseDocument(content), f), k, CloseTag(f))
  {
    var o, c, shape := OpenTag(f), CloseTag(f), ShapeOf(f);
    CloseTagReady(f);
    FieldMatched(content, f);
    if i: nat, j: nat :| Admits(content, o, c, shape, i, j) {
      FirstAdmittedExists(content, o, c, shape, i, j);
      var i': nat, j': nat :| FirstAdmitted(content, o, c, shape, i', j');
      FieldFound(content, f, i', j');
      ValueHasNoClose(content, o, c, shape, i', j');
    } else {
      FieldDefault(content, f);
      DefaultHasNoClose(f);
    }
  }

  lemma DefaultHasNoClose(f: Field)
    ensures forall k :: !StartsAt(DefaultOf(f), k, CloseTag(f))
  {
    assert '<' !in DefaultOf(f);
    NoTagWithout(DefaultOf(f), CloseTag(f));
  }

  /** A string that lacks the first character of `c` does not contain `c`. */
  lemma NoTagWithout(v: string, c: string)
    requires |c| > 0 && c[0] !in v
    ensures forall k :: !StartsAt(v, k, c)
  {
  }

  /** DOCNO and HT lie on one line and carry no surrounding whitespace. */
  lemma TrimmedFieldClean(content: string, f: Field)
    requires ShapeOf(f) == Trimmed
    ensures var v := FieldOf(ParseDocument(content), f);
            '\n' !in v && (v == [] || (!IsSpace(v[0]) && !IsSpace(v[|v| - 1])))
  {
    var o, c := OpenTag(f), CloseTag(f);
    if i: nat, j: nat :| Admits(content, o, c, Trimmed, i, j) {
      FirstAdmittedExists(content, o, c, Trimmed, i, j);
      var i': nat, j': nat :| FirstAdmitted(content, o, c, Trimmed, i', j');
      TrimmedFieldCleanAt(content, f, i', j');
    } else {
      FieldDefault(content, f);
      DefaultClean(f);
    }
  }

  /** "UNKNOWN" is itself a clean one-line value. */
  lemma DefaultClean(f: Field)
    requires ShapeOf(f) == Trimmed
    ensures var v := DefaultOf(f);
            '\n' !in v && (v == [] || (!IsSpace(v[0]) && !IsSpace(v[|v| - 1])))
  {
    assert DefaultOf(f) == "UNKNOWN";
  }

  lemma TrimmedFieldCleanAt(content: string, f: Field, i: nat, j: nat)
    requires ShapeOf(f) == Trimmed
    requires FirstAdmitted(content, OpenTag(f), CloseTag(f), Trimmed, i, j)
    ensures var v := FieldOf(ParseDocument(content), f);
            '\n' !in v && (v == [] || (!IsSpace(v[0]) && !IsSpace(v[|v| - 1])))
  {
    FieldFound(content, f, i, j);
    TrimmedValueClean(content, OpenTag(f), CloseTag(f), i, j);
  }

  /** Text after a match of a field does not change the field. */
  lemma FieldIgnoresSuffix(s: string, t: string, f: Field, i: nat, j: nat)
    requires Admits(s, OpenTag(f), CloseTag(f), ShapeOf(f), i, j)
    ensures FieldOf(ParseDocument(s + t), f) == FieldOf(ParseDocument(s), f)
  {
    CloseTagReady(f);
    SearchAppend(s, t, OpenTag(f), CloseTag(f), ShapeOf(f), i, j);
  }

  /** Text in front in which no opening tag of a field begins, not even one
      that runs on into the rest, does not change that field, whatever the
      rest of the document holds. */
  lemma FieldIgnoresPrefix(p: string, s: string, f: Field)
    requires forall k :: 0 <= k < |p| ==> !StartsAt(p + s, k, OpenTag(f))
    ensures FieldOf(ParseDocument(p + s), f) == FieldOf(ParseDocument(s), f)
  {
    CloseTagReady(f);
    assert (p + s)[|p|..] == s;
    SearchSuffix(p + s, s, |p|, OpenTag(f), CloseTag(f), ShapeOf(f));
  }
}
