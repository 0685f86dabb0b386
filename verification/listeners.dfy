/** The three event listeners: the keyword query that picks a builder, and the
    two preference events that update the extension's preference map. */
module Listeners {
  import opened Wrappers
  import opened Builtins
  import opened Page
  import opened Items
  import opened Rae

  // ---------------------------------------------------------------------------
  // Keyword query

  /** `KeywordQueryEventListener.on_event`. The page behind `BASE_URL/word`
      comes from `fetch`; the two limits and the keyword are the already
      converted preference values. With no word the fixed prompt is shown and
      nothing is fetched; otherwise suggestions are tried first and the
      definitions are built only when the suggestion builder raises. */
  function OnKeywordQuery(word: Option<string>, fetch: string -> Page,
                          maxSuggestedItems: int, maxShownDefinitions: int, kw: string)
    : (r: Result<seq<Item>, Error>)
    ensures word.None? ==> r == Success(EmptyWordItems())
    ensures word.None? ==> |r.value| == 1 && r.value[0].name == "Palabra vac\U{ED}a"
                           && r.value[0].onEnter == HideWindow
                           && r.value[0].onAltEnter.None?
    ensures word.Some? ==>
              var page := fetch(BASE_URL + "/" + word.value);
              && (|page.suggestions| > 0 ==>
                    r == HandleApproxResults(page.suggestions, maxSuggestedItems, kw))
              && (|page.suggestions| == 0 ==>
                    r == HandleMultipleDefs(page.definitions, maxShownDefinitions, word.value))
    ensures r.Failure? <==>
              word.Some? && |fetch(BASE_URL + "/" + word.value).suggestions| == 0
                         && |fetch(BASE_URL + "/" + word.value).definitions| == 0
  {
    match word
    case None => Success(EmptyWordItems())
    case Some(w) =>
      var page := fetch(BASE_URL + "/" + w);
      var approx := HandleApproxResults(page.suggestions, maxSuggestedItems, kw);
      if approx.Success? then approx
      else HandleMultipleDefs(page.definitions, maxShownDefinitions, w)
  }

  /** With positive limits, a query never answers with an empty list: it is
      the prompt, at least one suggestion, at least one definition, or an error. */
  lemma QueryResultNonEmpty(word: Option<string>, fetch: string -> Page,
                            maxSuggestedItems: int, maxShownDefinitions: int, kw: string)
    requires maxSuggestedItems >= 1 && maxShownDefinitions >= 1
    ensures var r := OnKeywordQuery(word, fetch, maxSuggestedItems, maxShownDefinitions, kw);
      r.Success? ==> |r.value| >= 1
  {
    if word.Some? {
      var page := fetch(BASE_URL + "/" + word.value);
      var rows := page.suggestions;
      if |rows| > 0 {
        var cut := SliceTo(rows, maxSuggestedItems);
        assert cut[0] == rows[0];
        FirstOccurrencesNonEmpty(cut);
      }
    }
  }

  lemma {:induction false} FirstOccurrencesNonEmpty(rows: seq<SuggestionRow>)
    requires |rows| >= 1
    ensures |FirstOccurrences(rows)| >= 1
    decreases |rows|
  {
    var init := rows[..|rows| - 1];
    if |init| >= 1 {
      FirstOccurrencesNonEmpty(init);
    } else {
      assert Names(init) == {};
    }
  }

  // ---------------------------------------------------------------------------
  // Preferences

  /** A stored preference: the text the UI saved, or the integer that a
      numeric update stores after conversion. */
  datatype PrefValue = Text(s: string) | Number(n: int)

  type Preferences = map<string, PrefValue>

  const NUMERIC_PREFERENCES: set<string> := {"max_suggested_items", "max_shown_definitions"}
  const RESET_KEY := "reset_to_default"
  const RESET_VALUE := "Reset"

  /** The preference update the UI sends when the user saves. */
  datatype UpdateEvent = UpdateEvent(id: string, oldValue: string, newValue: string)

  /** The reset reads every default key before overwriting it (`KeyError`);
      `float()` and `int()` reject text they cannot parse (`ValueError`). */
  datatype PrefError = KeyError | ValueError

  /** Every key other than `id` keeps its entry. */
  predicate OnlyKeyChanged(before: Preferences, after: Preferences, id: string)
  {
    && after.Keys == before.Keys + {id}
    && forall k :: k in before && k != id ==> after[k] == before[k]
  }

  /** `PreferencesUpdateListener.on_event`. `isIntegral` stands for
      `float(v).is_integer()` and `toInt` for `int(v)`; each gives `None` where
      Python raises `ValueError`. `int()` accepts only integer literals, so an
      integral decimal such as "4.0" passes the first and fails the second.
      A numeric preference takes the new value when it is integral and falls
      back to the old value otherwise; the reset switch set to "Reset"
      restores every default; any other event stores the new text. */
  function OnPreferencesUpdate(prefs: Preferences, event: UpdateEvent, defaults: Preferences,
                               isIntegral: string -> Option<bool>, toInt: string -> Option<int>)
    : (r: Result<Preferences, PrefError>)
    ensures event.id in NUMERIC_PREFERENCES ==>
              var source := if isIntegral(event.newValue) == Some(true) then event.newValue
                            else event.oldValue;
              && (r.Success? <==> isIntegral(event.newValue).Some? && toInt(source).Some?)
              && (r.Failure? ==> r.error == ValueError)
              && (r.Success? ==>
                    && OnlyKeyChanged(prefs, r.value, event.id)
                    && r.value[event.id] == Number(toInt(source).value))
    ensures event.id !in NUMERIC_PREFERENCES && event.id == RESET_KEY && event.newValue == RESET_VALUE ==>
              && (r.Failure? <==> !(defaults.Keys <= prefs.Keys))
              && (r.Failure? ==> r.error == KeyError)
              && (r.Success? ==>
                    && r.value.Keys == prefs.Keys
                    && (forall k :: k in defaults ==> r.value[k] == defaults[k])
                    && (forall k :: k in prefs && k !in defaults ==> r.value[k] == prefs[k]))
    ensures event.id !in NUMERIC_PREFERENCES && !(event.id == RESET_KEY && event.newValue == RESET_VALUE) ==>
              && r.Success?
              && OnlyKeyChanged(prefs, r.value, event.id)
              && r.value[event.id] == Text(event.newValue)
  {
    if event.id in NUMERIC_PREFERENCES then
      match isIntegral(event.newValue)
      case None => Failure(ValueError)
      case Some(integral) =>
        var parsed := toInt(if integral then event.newValue else event.oldValue);
        if parsed.None? then Failure(ValueError)
        else Success(prefs[event.id := Number(parsed.value)])
    else if event.id == RESET_KEY && event.newValue == RESET_VALUE then
      if defaults.Keys <= prefs.Keys then Success(prefs + defaults) else Failure(KeyError)
    else
      Success(prefs[event.id := Text(event.newValue)])
  }

  /** An integral decimal such as "4.0" passes the `is_integer()` check but is
      then rejected by `int()`, so saving it raises instead of storing 4. */
  lemma IntegralDecimalRaises(prefs: Preferences, event: UpdateEvent, defaults: Preferences,
                              isIntegral: string -> Option<bool>, toInt: string -> Option<int>)
    requires event.id in NUMERIC_PREFERENCES
    requires isIntegral(event.newValue) == Some(true) && toInt(event.newValue).None?
    ensures OnPreferencesUpdate(prefs, event, defaults, isIntegral, toInt) == Failure(ValueError)
  {
  }

  /** Saving the same event twice leaves the preferences as saving it once. */
  lemma UpdateIdempotent(prefs: Preferences, event: UpdateEvent, defaults: Preferences,
                         isIntegral: string -> Option<bool>, toInt: string -> Option<int>)
    requires OnPreferencesUpdate(prefs, event, defaults, isIntegral, toInt).Success?
    ensures var once := OnPreferencesUpdate(prefs, event, defaults, isIntegral, toInt).value;
      OnPreferencesUpdate(once, event, defaults, isIntegral, toInt) == Success(once)
  {
    var once := OnPreferencesUpdate(prefs, event, defaults, isIntegral, toInt).value;
    var twice := OnPreferencesUpdate(once, event, defaults, isIntegral, toInt);
    assert twice.Success?;
    assert twice.value.Keys == once.Keys;
    assert forall k :: k in once ==> twice.value[k] == once[k];
    assert twice.value == once;
  }

  /** `PreferencesEventListener.on_event`, run once at start-up: the saved
      preferences override the current ones and the reset switch goes back to "-". */
  function OnPreferences(prefs: Preferences, saved: Preferences): (r: Preferences)
    ensures r.Keys == prefs.Keys + saved.Keys + {RESET_KEY}
    ensures r[RESET_KEY] == Text("-")
    ensures forall k :: k in saved && k != RESET_KEY ==> r[k] == saved[k]
    ensures forall k :: k in prefs && k !in saved && k != RESET_KEY ==> r[k] == prefs[k]
  {
    (prefs + saved)[RESET_KEY := Text("-")]
  }

  /** Replaying the start-up event changes nothing more. */
  lemma StartupIdempotent(prefs: Preferences, saved: Preferences)
    ensures OnPreferences(OnPreferences(prefs, saved), saved) == OnPreferences(prefs, saved)
  {
    var once := OnPreferences(prefs, saved);
    var twice := OnPreferences(once, saved);
    assert twice.Keys == once.Keys;
  }
}
