/** The `SindhiTranslator` object's state and its `translateText` transition,
    together with the API-key rule of `setApiKey` and `loadSettings`.

    `translateText` awaits its strategy, so it is modelled in two halves:
    `Begin` (the guards, up to raising the busy flag) and `Finish` (what
    happens once the awaited result is known, down to the `finally` block).
    `TranslateText` is the two run back to back. A call that arrives between
    the halves meets the busy flag raised by `Begin`. */
module Translator {
  import opened JsString
  import opened Phrasebook
  import opened History
  import opened Remote

  /** The fields `translateText` reads and writes. */
  datatype State = State(apiKey: Option<string>, isTranslating: bool, history: seq<HistoryItem>)

  /** The state the constructor sets up before `loadSettings` runs. */
  function Initial(): (st: State)
    ensures st.apiKey.None? && !st.isTranslating && st.history == []
  {
    State(None, false, [])
  }

  datatype Strategy = RemoteApi | LocalPhrasebook

  /** The remote service is used exactly when the key is truthy. */
  function SelectStrategy(apiKey: Option<string>): (s: Strategy)
    ensures s == RemoteApi <==> Truthy(apiKey)
  {
    if Truthy(apiKey) then RemoteApi else LocalPhrasebook
  }

  /** What the first half of a call decided. */
  datatype Start =
    | Warned                                  // empty input: a warning, nothing else
    | Dropped                                 // a translation is already running
    | Started(text: string, strategy: Strategy)

  /** The guards of `translateText`: trim the input, warn on empty input,
      drop the call while another is running, otherwise pick the strategy and
      raise the busy flag. */
  function Begin(st: State, input: string): (r: (Start, State))
    ensures Trim(input) == [] <==> r.0 == Warned
    ensures r.0 == Dropped <==> Trim(input) != [] && st.isTranslating
    ensures !r.0.Started? ==> r.1 == st
    ensures r.0.Started? ==>
      && r.0.text == Trim(input)
      && r.0.strategy == SelectStrategy(st.apiKey)
      && r.1 == st.(isTranslating := true)
  {
    var text := Trim(input);
    if text == [] then (Warned, st)
    else if st.isTranslating then (Dropped, st)
    else (Started(text, SelectStrategy(st.apiKey)), st.(isTranslating := true))
  }

  /** The awaited strategy: the remote reply goes through `Classify`; the
      phrasebook never fails. */
  function RunStrategy(strategy: Strategy, text: string, reply: Reply): (o: Outcome)
    ensures strategy == LocalPhrasebook ==> o == Success(MockTranslation(text))
    ensures strategy == RemoteApi ==> o == Classify(reply)
  {
    match strategy
    case RemoteApi => Classify(reply)
    case LocalPhrasebook => Success(MockTranslation(text))
  }

  /** The second half: record a success in the history, then release the busy
      flag whatever happened. */
  function Finish(st: State, text: string, outcome: Outcome, now: int): (r: State)
    ensures !r.isTranslating && r.apiKey == st.apiKey
    ensures outcome.Success? ==>
      r.history == AddToHistory(st.history, text, outcome.translation, now)
    ensures outcome.Failed? ==> r.history == st.history
  {
    var history := if outcome.Success? then
      AddToHistory(st.history, text, outcome.translation, now)
    else st.history;
    st.(isTranslating := false, history := history)
  }

  /** What a whole call reports to the user. */
  datatype Report =
    | EmptyInput
    | Ignored
    | Translated(translation: string)
    | Error(failure: Failure)

  /** `translateText` from start to end; `reply` is what the remote service
      would answer and `now` is the clock reading for the history entry. */
  function TranslateText(st: State, input: string, reply: Reply, now: int): (r: (State, Report))
    ensures Trim(input) == [] ==> r == (st, EmptyInput)
    ensures Trim(input) != [] && st.isTranslating ==> r == (st, Ignored)
    ensures Trim(input) != [] && !st.isTranslating ==>
      && !r.0.isTranslating
      && r.0.apiKey == st.apiKey
      && (r.1.Translated? ==>
            r.0.history == AddToHistory(st.history, Trim(input), r.1.translation, now))
      && (r.1.Error? ==> r.0.history == st.history && Truthy(st.apiKey))
      && (!Truthy(st.apiKey) ==> r.1 == Translated(MockTranslation(Trim(input))))
      && (Truthy(st.apiKey) ==> (r.1.Translated? <==> Readable(reply)))
      && (Truthy(st.apiKey) ==> r.1 == (if Classify(reply).Success? then
            Translated(Classify(reply).translation) else Error(Classify(reply).failure)))
  {
    var (start, busy) := Begin(st, input);
    match start
    case Warned => (st, EmptyInput)
    case Dropped => (st, Ignored)
    case Started(text, strategy) =>
      var outcome := RunStrategy(strategy, text, reply);
      var report := if outcome.Success? then Translated(outcome.translation) else Error(outcome.failure);
      (Finish(busy, text, outcome, now), report)
  }

  /** A second call that arrives while the first is still awaiting its
      strategy is dropped and changes nothing; the first then completes as if
      the second had never come. */
  lemma OverlappingCallDropped(st: State, first: string, second: string, reply: Reply, now: int)
    requires Trim(first) != [] && !st.isTranslating
    ensures var (s1, busy) := Begin(st, first);
      var (st2, r2) := TranslateText(busy, second, reply, now);
      && st2 == busy
      && (r2 == Ignored || r2 == EmptyInput)
      && Finish(st2, s1.text, RunStrategy(s1.strategy, s1.text, reply), now)
         == TranslateText(st, first, reply, now).0
  {
  }

  /** Without a key the call always succeeds, and the history gains the
      trimmed input with a non-empty phrasebook answer at its head. */
  lemma OfflineAlwaysRecords(st: State, input: string, reply: Reply, now: int)
    requires Trim(input) != [] && !st.isTranslating && !Truthy(st.apiKey)
    ensures var (after, report) := TranslateText(st, input, reply, now);
      && report.Translated?
      && report.translation != ""
      && after.history[0] == HistoryItem(Trim(input), report.translation, now)
  {
  }

  /** A failed remote call leaves the whole state as it was before the call. */
  lemma FailureRestoresState(st: State, input: string, reply: Reply, now: int)
    requires Trim(input) != [] && !st.isTranslating && Truthy(st.apiKey)
    requires !Readable(reply)
    ensures TranslateText(st, input, reply, now) == (st, Error(Classify(reply).failure))
  {
  }

  /** A store write that `setApiKey` performs on the browser storage. */
  datatype KeyWrite = StoreKey(key: string) | RemoveKey

  /** `setApiKey`: the field takes the new value as given, and the stored copy
      is written when the value is truthy and removed otherwise. */
  function SetApiKey(st: State, apiKey: Option<string>): (r: (State, KeyWrite))
    ensures r.0 == st.(apiKey := apiKey)
    ensures r.1 == RemoveKey <==> !Truthy(apiKey)
    ensures r.1.StoreKey? ==> Some(r.1.key) == apiKey
  {
    (st.(apiKey := apiKey), if Truthy(apiKey) then StoreKey(apiKey.value) else RemoveKey)
  }

  /** The stored key after a write. */
  function ApplyWrite(stored: Option<string>, w: KeyWrite): (r: Option<string>)
    ensures w.StoreKey? ==> r == Some(w.key)
    ensures w.RemoveKey? ==> r.None?
  {
    match w
    case StoreKey(k) => Some(k)
    case RemoveKey => None
  }

  /** What `loadSettings` finds under the history entry. */
  datatype StoredHistory = NotStored | Corrupt | Stored(items: seq<HistoryItem>)

  /** `loadSettings`: a truthy stored key replaces the field; a stored history
      that parses replaces the history as it is, without any cut. */
  function LoadSettings(st: State, savedKey: Option<string>, savedHistory: StoredHistory): (r: State)
    ensures r.isTranslating == st.isTranslating
    ensures r.apiKey == (if Truthy(savedKey) then savedKey else st.apiKey)
    ensures savedHistory.Stored? ==> r.history == savedHistory.items
    ensures !savedHistory.Stored? ==> r.history == st.history
  {
    var key := if Truthy(savedKey) then savedKey else st.apiKey;
    var history := if savedHistory.Stored? then savedHistory.items else st.history;
    st.(apiKey := key, history := history)
  }

  /** A key set through `setApiKey` survives a reload into a fresh instance
      with the same choice of strategy: a truthy key comes back as it was, and
      an empty or absent one comes back absent. */
  lemma KeySurvivesReload(st: State, apiKey: Option<string>, stored: Option<string>, savedHistory: StoredHistory)
    ensures var (after, w) := SetApiKey(st, apiKey);
      var reloaded := LoadSettings(Initial(), ApplyWrite(stored, w), savedHistory);
      && reloaded.apiKey == (if Truthy(apiKey) then apiKey else None)
      && SelectStrategy(reloaded.apiKey) == SelectStrategy(after.apiKey)
  {
  }

  /** A loaded history may exceed the ten entries `addToHistory` keeps; the
      first insertion after loading cuts it back. */
  lemma LoadedHistoryUnbounded(items: seq<HistoryItem>, x: HistoryItem)
    requires |items| > MaxEntries
    ensures |LoadSettings(Initial(), None, Stored(items)).history| > MaxEntries
    ensures |AddToHistory(LoadSettings(Initial(), None, Stored(items)).history,
                          x.original, x.translated, x.timestamp)| == MaxEntries
  {
  }
}
