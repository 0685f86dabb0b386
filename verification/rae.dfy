/** The result builders of the `RAE` extension class: the empty-word prompt,
    the suggestion list for a word with no exact entry, and one row per
    definition for a word that has one. */
module Rae {
  import opened Wrappers
  import opened Builtins
  import opened Chunkize
  import opened Page
  import opened Items

  const BASE_URL := "https://dle.rae.es"
  const CHARACTERS_PER_LINE := 80

  /** The exception a builder raises when its part of the page is empty. */
  datatype Error = RuntimeError(message: string)

  const NO_SUGGESTIONS_MESSAGE :=
    "Attempted to handle the approx result case, but the soup doesn't have any <a> tags with 'data-acc'=='LISTA APROX'."
  const NO_DEFINITIONS_MESSAGE := "The provided soup has no <p> tags with 'class'=='j'"

  /** The single row shown when no word was typed. */
  function EmptyWordItems(): (items: seq<Item>)
    ensures |items| == 1
    ensures items[0].name == "Palabra vac\U{ED}a"
    ensures items[0].description == "Ingrese una palabra para buscar en el diccionario."
    ensures items[0].onEnter == HideWindow && items[0].onAltEnter.None?
  {
    [Item(ICON, "Palabra vac\U{ED}a", "Ingrese una palabra para buscar en el diccionario.",
          HideWindow, None)]
  }

  // ---------------------------------------------------------------------------
  // Suggestions

  function Names(rows: seq<SuggestionRow>): (names: set<string>)
  {
    set i | 0 <= i < |rows| :: rows[i].displayName
  }

  lemma NamesCons(rows: seq<SuggestionRow>)
    requires |rows| > 0
    ensures Names(rows) == {rows[0].displayName} + Names(rows[1..])
  {
    assert forall i :: 1 <= i < |rows| ==> rows[i] == rows[1..][i - 1];
  }

  predicate DistinctNames(rows: seq<SuggestionRow>)
  {
    forall i, j :: 0 <= i < j < |rows| ==> rows[i].displayName != rows[j].displayName
  }

  /** The `seen`-set loop: keeps a row unless its display name was already
      seen, adding each kept name to `seen`. */
  function DedupFrom(rows: seq<SuggestionRow>, seen: set<string>): (r: seq<SuggestionRow>)
    ensures forall i :: 0 <= i < |r| ==> r[i] in rows && r[i].displayName !in seen
    ensures DistinctNames(r)
    ensures Names(r) == Names(rows) - seen
    decreases |rows|
  {
    if |rows| == 0 then []
    else
      NamesCons(rows);
      if rows[0].displayName in seen then DedupFrom(rows[1..], seen)
      else
        var rest := DedupFrom(rows[1..], seen + {rows[0].displayName});
        NamesCons([rows[0]] + rest);
        assert ([rows[0]] + rest)[1..] == rest;
        [rows[0]] + rest
  }

  /** The `seen`-set loop started with nothing seen: every display name of
      `rows` appears exactly once, on a row taken from `rows`. */
  function Dedup(rows: seq<SuggestionRow>): (r: seq<SuggestionRow>)
    ensures forall i :: 0 <= i < |r| ==> r[i] in rows
    ensures DistinctNames(r)
    ensures Names(r) == Names(rows)
    ensures |r| <= |rows|
  {
    DedupFromNoLonger(rows, {});
    DedupFrom(rows, {})
  }

  /** Reference definition, built from the back: the last row survives exactly
      when no earlier row has its display name. */
  function FirstOccurrences(rows: seq<SuggestionRow>): (firsts: seq<SuggestionRow>)
    ensures |firsts| <= |rows|
  {
    if |rows| == 0 then []
    else
      var init := rows[..|rows| - 1];
      var last := rows[|rows| - 1];
      FirstOccurrences(init) + (if last.displayName in Names(init) then [] else [last])
  }

  lemma {:induction false} DedupFromSnoc(xs: seq<SuggestionRow>, x: SuggestionRow, seen: set<string>)
    ensures DedupFrom(xs + [x], seen)
         == DedupFrom(xs, seen) + (if x.displayName in seen + Names(xs) then [] else [x])
    decreases |xs|
  {
    if |xs| == 0 {
      assert xs + [x] == [x];
      assert Names(xs) == {};
    } else {
      var y, ys := xs[0], xs[1..];
      var tail := if x.displayName in seen + Names(xs) then [] else [x];
      assert (xs + [x])[0] == y;
      assert (xs + [x])[1..] == ys + [x];
      NamesCons(xs);
      if y.displayName in seen {
        DedupFromSnoc(ys, x, seen);
        assert seen + Names(xs) == seen + Names(ys);
      } else {
        var seen' := seen + {y.displayName};
        DedupFromSnoc(ys, x, seen');
        assert seen' + Names(ys) == seen + Names(xs);
        calc {
          DedupFrom(xs + [x], seen);
          [y] + DedupFrom(ys + [x], seen');
          [y] + (DedupFrom(ys, seen') + tail);
          ([y] + DedupFrom(ys, seen')) + tail;
          DedupFrom(xs, seen) + tail;
        }
      }
    }
  }

  /** The `seen`-set loop keeps exactly the first occurrence of each display name, in order. */
  lemma {:induction false} DedupIsFirstOccurrences(rows: seq<SuggestionRow>)
    ensures Dedup(rows) == FirstOccurrences(rows)
    decreases |rows|
  {
    if |rows| > 0 {
      var init := rows[..|rows| - 1];
      var last := rows[|rows| - 1];
      assert rows == init + [last];
      DedupIsFirstOccurrences(init);
      DedupFromSnoc(init, last, {});
    }
  }

  /** The row for one suggestion: "name ꞏ note" with the note stripped, and
      Enter replaces the query with the keyword followed by the name. */
  function SuggestionItem(kw: string, row: SuggestionRow): (item: Item)
    ensures var head := row.displayName + " \U{A78F} ";
      && |head| <= |item.name| && item.name[..|head|] == head
      && Trimmed(item.name[|head|..])
      && EdgeTrimmedFrom(row.note, item.name[|head|..])
    ensures item.description == "Sugerencia RAE"
    ensures item.onEnter == SetUserQuery(kw + " " + row.displayName) && item.onAltEnter.None?
  {
    Item(ICON, row.displayName + " \U{A78F} " + Strip(row.note), "Sugerencia RAE",
         SetUserQuery(kw + " " + row.displayName), None)
  }

  /** One suggestion row per kept row, in order. */
  function SuggestionItems(kw: string, rows: seq<SuggestionRow>): (items: seq<Item>)
    ensures |items| == |rows|
  {
    seq(|rows|, i requires 0 <= i < |rows| => SuggestionItem(kw, rows[i]))
  }

  /** `handle_approx_results`: fails when the page has no suggestion rows;
      otherwise cuts the raw rows to the limit first and then drops repeated
      display names. */
  function HandleApproxResults(rows: seq<SuggestionRow>, maxSuggestedItems: int, kw: string)
    : (r: Result<seq<Item>, Error>)
    ensures r.Failure? <==> |rows| == 0
    ensures r.Failure? ==> r.error == RuntimeError(NO_SUGGESTIONS_MESSAGE)
    ensures r.Success? ==>
              r.value == SuggestionItems(kw, FirstOccurrences(SliceTo(rows, maxSuggestedItems)))
    ensures r.Success? && 0 <= maxSuggestedItems ==> |r.value| <= maxSuggestedItems
    ensures r.Success? ==> forall i, j :: 0 <= i < j < |r.value| ==> r.value[i].onEnter != r.value[j].onEnter
  {
    if |rows| == 0 then Failure(RuntimeError(NO_SUGGESTIONS_MESSAGE))
    else
      var shown := Dedup(SliceTo(rows, maxSuggestedItems));
      DedupIsFirstOccurrences(SliceTo(rows, maxSuggestedItems));
      QueriesDistinct(kw, shown);
      Success(SuggestionItems(kw, shown))
  }

  lemma QueriesDistinct(kw: string, rows: seq<SuggestionRow>)
    requires DistinctNames(rows)
    ensures forall i, j :: 0 <= i < j < |rows| ==>
              SuggestionItem(kw, rows[i]).onEnter != SuggestionItem(kw, rows[j]).onEnter
  {
    forall i, j | 0 <= i < j < |rows|
      ensures SuggestionItem(kw, rows[i]).onEnter != SuggestionItem(kw, rows[j]).onEnter
    {
      var p := kw + " ";
      assert (p + rows[i].displayName)[|p|..] == rows[i].displayName;
      assert (p + rows[j].displayName)[|p|..] == rows[j].displayName;
    }
  }

  lemma {:induction false} DedupFromNoLonger(rows: seq<SuggestionRow>, seen: set<string>)
    ensures |DedupFrom(rows, seen)| <= |rows|
    decreases |rows|
  {
    if |rows| > 0 {
      DedupFromNoLonger(rows[1..], seen);
      DedupFromNoLonger(rows[1..], seen + {rows[0].displayName});
    }
  }

  /** Repeated display names collapse to the first one's row, in input order:
      of two rows named "a" the first one's note is shown. */
  lemma ApproxDedupExample(rows: seq<SuggestionRow>, kw: string)
    requires rows == [SuggestionRow("a", "1"), SuggestionRow("a", "2"), SuggestionRow("b", "3")]
    ensures var r := HandleApproxResults(rows, 10, kw);
      r.Success? && |r.value| == 2
      && r.value[0].name == rows[0].displayName + " \U{A78F} " + rows[0].note
      && r.value[1].name == rows[2].displayName + " \U{A78F} " + rows[2].note
  {
    ExampleFirstOccurrences(rows);
    var r := HandleApproxResults(rows, 10, kw);
    var shown := [rows[0], rows[2]];
    assert r.value == SuggestionItems(kw, shown);
    assert r.value[0] == SuggestionItem(kw, rows[0]);
    assert r.value[1] == SuggestionItem(kw, rows[2]);
    SuggestionNameOfTrimmedNote(kw, rows[0]);
    SuggestionNameOfTrimmedNote(kw, rows[2]);
  }

  lemma ExampleFirstOccurrences(rows: seq<SuggestionRow>)
    requires rows == [SuggestionRow("a", "1"), SuggestionRow("a", "2"), SuggestionRow("b", "3")]
    ensures SliceTo(rows, 10) == rows
    ensures FirstOccurrences(rows) == [rows[0], rows[2]]
    ensures Trimmed(rows[0].note) && Trimmed(rows[2].note)
  {
    var a1, a2, b3 := rows[0], rows[1], rows[2];
    assert rows[1..] == [a2, b3] && [a2, b3][1..] == [b3] && [b3][1..] == [];
    var none: set<string> := {};
    assert none + {"a"} == {"a"};
    assert DedupFrom([b3], {"a"}) == [b3];
    assert DedupFrom([a2, b3], {"a"}) == [b3];
    assert Dedup(rows) == [a1, b3];
    DedupIsFirstOccurrences(rows);
  }

  /** A note without surrounding whitespace appears in the title unchanged. */
  lemma SuggestionNameOfTrimmedNote(kw: string, row: SuggestionRow)
    requires Trimmed(row.note)
    ensures SuggestionItem(kw, row).name == row.displayName + " \U{A78F} " + row.note
  {
  }

  /** The limit is applied to the raw rows, so duplicates inside it use up
      places: two rows allowed, both named "a", give a single item. */
  lemma ApproxLimitBeforeDedupExample(kw: string)
    ensures var r := HandleApproxResults(
              [SuggestionRow("a", "1"), SuggestionRow("a", "2"), SuggestionRow("b", "3")], 2, kw);
      r.Success? && |r.value| == 1
  {
    var rows := [SuggestionRow("a", "1"), SuggestionRow("a", "2"), SuggestionRow("b", "3")];
    var cut := rows[..2];
    assert SliceTo(rows, 2) == cut;
    assert cut[1..] == [SuggestionRow("a", "2")] && cut[1..][1..] == [];
    var none: set<string> := {};
    assert none + {"a"} == {"a"};
    assert DedupFrom(cut[1..], {"a"}) == [];
    assert Dedup(cut) == [SuggestionRow("a", "1")];
  }

  // ---------------------------------------------------------------------------
  // Definitions

  /** `lines` reflow `text` as `chunkize_sentence` means to: they rejoin with
      single spaces to `text`, each fits the width or is a single word, and
      each but the last is full, in that the next line's first word would not
      fit after it. */
  predicate Reflows(lines: seq<string>, text: string, width: int)
  {
    && Join(lines) == text
    && (forall i :: 0 <= i < |lines| ==> |lines[i]| <= width || SpaceFree(lines[i]))
    && (forall i :: 0 <= i < |lines| - 1 ==> |lines[i]| + 1 + |Split(lines[i + 1])[0]| > width)
  }

  /** The row for one definition paragraph: "word [abbrs]", the definition
      reflowed into lines of at most 80 characters (an over-long word alone on
      its line), Enter copies the definition, Alt+Enter opens its anchor. */
  function DefinitionItem(word: string, b: DefinitionBlock): (item: Item)
    ensures exists lines: seq<string> ::
              && item.description == JoinWith("\n", lines)
              && Reflows(lines, ExtractRecord(b).definition, CHARACTERS_PER_LINE)
  {
    var rec := ExtractRecord(b);
    var lines := Wrap(Split(rec.definition), CHARACTERS_PER_LINE);
    ReflowKeepsText(rec.definition);
    Item(ICON, word + " [" + rec.abbrs + "]", JoinWith("\n", lines),
         CopyToClipboard(rec.definition),
         Some(OpenUrl(BASE_URL + "/" + word + "#" + rec.htmlCode)))
  }

  /** The greedy wrap reflows any text: it keeps its words and spacing, leaves
      no line wider than the width except a single long word, and fills every
      line but the last. */
  lemma ReflowKeepsText(text: string)
    ensures Reflows(Wrap(Split(text), CHARACTERS_PER_LINE), text, CHARACTERS_PER_LINE)
  {
    var tokens := Split(text);
    var lines := Wrap(tokens, CHARACTERS_PER_LINE);
    WrapRoundTrip(tokens, CHARACTERS_PER_LINE);
    JoinSplit(text);
    WrapLinesFit(tokens, CHARACTERS_PER_LINE);
    WrapGreedy(tokens, CHARACTERS_PER_LINE);
    forall i | 0 <= i < |lines| && |lines[i]| > CHARACTERS_PER_LINE
      ensures SpaceFree(lines[i])
    {
      var j :| 0 <= j < |tokens| && tokens[j] == lines[i];
    }
  }

  /** `handle_multiple_defs`: fails when the page has no definition paragraphs;
      otherwise one row per paragraph, up to the limit, in document order. */
  function HandleMultipleDefs(blocks: seq<DefinitionBlock>, maxShownDefinitions: int, word: string)
    : (r: Result<seq<Item>, Error>)
    ensures r.Failure? <==> |blocks| == 0
    ensures r.Failure? ==> r.error == RuntimeError(NO_DEFINITIONS_MESSAGE)
    ensures r.Success? ==> |r.value| == |SliceTo(blocks, maxShownDefinitions)|
    ensures r.Success? && 0 <= maxShownDefinitions ==>
              |r.value| == if maxShownDefinitions < |blocks| then maxShownDefinitions else |blocks|
    ensures r.Success? ==> forall i :: 0 <= i < |r.value| ==>
              && r.value[i].name == word + " [" + Join(blocks[i].abbrTexts) + "]"
              && r.value[i].onEnter == CopyToClipboard(Strip(ExtractText(blocks[i].children)))
              && r.value[i].onAltEnter == Some(OpenUrl(BASE_URL + "/" + word + "#" + blocks[i].id))
    ensures r.Success? ==> forall i :: 0 <= i < |r.value| ==> r.value[i] == DefinitionItem(word, blocks[i])
  {
    if |blocks| == 0 then Failure(RuntimeError(NO_DEFINITIONS_MESSAGE))
    else
      var shown := SliceTo(blocks, maxShownDefinitions);
      Success(seq(|shown|, i requires 0 <= i < |shown| => DefinitionItem(word, shown[i])))
  }
}
