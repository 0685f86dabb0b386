/** The parsed dictionary page, reduced to what the extension reads from it,
    and the text-extraction rule that main.py and the cache builder share. */
module Page {
  import opened Builtins

  /** A child of a definition paragraph: a bare text node, or a markup element
      with its tag name and its `get_text()`. */
  datatype Child = TextNode(text: string) | Element(name: string, text: string)

  /** One suggestion row (`div.n1`): the link's first text and the note after it. */
  datatype SuggestionRow = SuggestionRow(displayName: string, note: string)

  /** One definition paragraph (`p.j`): its `id`, the texts of the `abbr`
      elements found inside it in document order, and its direct children. */
  datatype DefinitionBlock = DefinitionBlock(id: string, abbrTexts: seq<string>, children: seq<Child>)

  /** The page: its suggestion rows and its definition paragraphs, in document order. */
  datatype Page = Page(suggestions: seq<SuggestionRow>, definitions: seq<DefinitionBlock>)

  /** What one definition contributes: its grammatical abbreviations, its
      text, and the anchor that links to it. */
  datatype DefinitionRecord = DefinitionRecord(abbrs: string, definition: string, htmlCode: string)

  /** Text nodes always contribute; elements contribute unless they are `span` or `abbr`. */
  predicate Contributes(c: Child) {
    c.TextNode? || c.name !in {"span", "abbr"}
  }

  /** The text of a definition paragraph: the contributing children's texts, concatenated in order. */
  function ExtractText(children: seq<Child>): (text: string)
    ensures (forall i :: 0 <= i < |children| ==> !Contributes(children[i])) ==> text == ""
    ensures |children| > 0 && Contributes(children[0]) ==>
              |children[0].text| <= |text| && text[..|children[0].text|] == children[0].text
  {
    if |children| == 0 then ""
    else (if Contributes(children[0]) then children[0].text else "") + ExtractText(children[1..])
  }

  /** Extraction distributes over concatenation of child lists. */
  lemma {:induction false} ExtractTextAppend(xs: seq<Child>, ys: seq<Child>)
    ensures ExtractText(xs + ys) == ExtractText(xs) + ExtractText(ys)
    decreases |xs|
  {
    if |xs| == 0 {
      assert xs + ys == ys;
    } else {
      assert (xs + ys)[0] == xs[0];
      assert (xs + ys)[1..] == xs[1..] + ys;
      ExtractTextAppend(xs[1..], ys);
    }
  }

  /** A `span` or `abbr` child contributes nothing, wherever it stands; any
      other child contributes exactly its text. */
  lemma ExtractTextChild(xs: seq<Child>, c: Child, ys: seq<Child>)
    ensures ExtractText(xs + [c] + ys)
         == ExtractText(xs) + (if Contributes(c) then c.text else "") + ExtractText(ys)
  {
    ExtractTextAppend(xs + [c], ys);
    ExtractTextAppend(xs, [c]);
  }

  /** The record of one definition paragraph: the abbreviation texts joined
      by single spaces, the stripped extracted text, and the paragraph's `id`. */
  function ExtractRecord(b: DefinitionBlock): (r: DefinitionRecord)
    ensures r.htmlCode == b.id
    ensures r.abbrs == Join(b.abbrTexts)
    ensures |b.abbrTexts| == 0 ==> r.abbrs == ""
    ensures Trimmed(r.definition)
    ensures EdgeTrimmedFrom(ExtractText(b.children), r.definition)
  {
    DefinitionRecord(Join(b.abbrTexts), Strip(ExtractText(b.children)), b.id)
  }

  /** The abbreviations string splits back into the abbreviation texts, when
      there is at least one and none holds a space. */
  lemma RecordAbbrsRoundTrip(b: DefinitionBlock)
    requires |b.abbrTexts| >= 1 && AllSpaceFree(b.abbrTexts)
    ensures Split(ExtractRecord(b).abbrs) == b.abbrTexts
  {
    SplitJoin(b.abbrTexts);
  }
}
