/** `get_all_word_data` of the offline cache builder: one record per
    definition paragraph of a page, using the same extraction as main.py. */
module TopWords {
  import opened Builtins
  import opened Page
  import opened Items
  import opened Wrappers
  import Rae

  /** Every definition paragraph of the page becomes one record, in document
      order and without any limit; a page without definitions gives no records. */
  function GetAllWordData(page: Page): (records: seq<DefinitionRecord>)
    ensures |records| == |page.definitions|
    ensures forall i :: 0 <= i < |records| ==> records[i].htmlCode == page.definitions[i].id
    ensures forall i :: 0 <= i < |records| ==> Trimmed(records[i].definition)
    ensures forall i :: 0 <= i < |records| ==>
              && records[i].abbrs == Join(page.definitions[i].abbrTexts)
              && records[i].definition == Strip(ExtractText(page.definitions[i].children))
  {
    seq(|page.definitions|, i requires 0 <= i < |page.definitions| => ExtractRecord(page.definitions[i]))
  }

  /** The rows main.py builds for a page agree with the cache records built
      from it: the same abbreviations in the title, the same text copied, the
      same anchor linked. */
  lemma DefinitionRowsMatchRecords(page: Page, maxShownDefinitions: int, word: string)
    requires |page.definitions| >= 1
    ensures var rows := Rae.HandleMultipleDefs(page.definitions, maxShownDefinitions, word).value;
      var records := GetAllWordData(page);
      forall i :: 0 <= i < |rows| ==>
        && rows[i].name == word + " [" + records[i].abbrs + "]"
        && rows[i].onEnter == CopyToClipboard(records[i].definition)
        && rows[i].onAltEnter == Some(OpenUrl(Rae.BASE_URL + "/" + word + "#" + records[i].htmlCode))
  {
  }
}
