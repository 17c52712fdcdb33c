/** The demo dictionary and the local fallback translator (`getMockTranslation`):
    exact match on the normalised input, else the first key in table order that
    occurs in it, else a placeholder. */
module Phrasebook {
  import opened JsString

  /** One dictionary entry: a lower-case English phrase and its Sindhi rendering. */
  datatype Phrase = Phrase(english: string, sindhi: string)

  /** The dictionary entry at position `i` of the definition order. */
  function Entry(i: nat): Phrase
    requires i < 35
  {
    match i
    case 0 => Phrase("hello", "سلام")
    case 1 => Phrase("thank you", "توهان جو شكريو")
    case 2 => Phrase("good morning", "صبح جو سلام")
    case 3 => Phrase("how are you", "توهان ڪيئن آهيو")
    case 4 => Phrase("how are you?", "توهان ڪيئن آهيو؟")
    case 5 => Phrase("welcome", "ڀلي ڪري آيا")
    case 6 => Phrase("please", "مهرباني")
    case 7 => Phrase("excuse me", "معاف ڪجو")
    case 8 => Phrase("i love you", "مان توهان سان پيار ڪريان ٿو")
    case 9 => Phrase("goodbye", "الوداع")
    case 10 => Phrase("yes", "ها")
    case 11 => Phrase("no", "نه")
    case 12 => Phrase("water", "پاڻي")
    case 13 => Phrase("food", "کاڌو")
    case 14 => Phrase("house", "گهر")
    case 15 => Phrase("family", "خاندان")
    case 16 => Phrase("friend", "دوست")
    case 17 => Phrase("book", "ڪتاب")
    case 18 => Phrase("school", "اسڪول")
    case 19 => Phrase("work", "ڪم")
    case 20 => Phrase("time", "وقت")
    case 21 => Phrase("day", "ڏينهن")
    case 22 => Phrase("night", "رات")
    case 23 => Phrase("sun", "سج")
    case 24 => Phrase("moon", "چنڊ")
    case 25 => Phrase("beautiful", "خوبصورت")
    case 26 => Phrase("good", "سٺو")
    case 27 => Phrase("bad", "خراب")
    case 28 => Phrase("help", "مدد")
    case 29 => Phrase("sorry", "معاف ڪجو")
    case 30 => Phrase("computer", "ڪمپيوٽر")
    case 31 => Phrase("internet", "انٽرنيٽ")
    case 32 => Phrase("website", "ويب سائيٽ")
    case 33 => Phrase("application", "ايپليڪيشن")
    case 34 => Phrase("software", "سافٽ ويئر")
  }

  /** The dictionary, in definition order. No key looks like an array index,
      so this is also the order in which `Object.entries` lists the keys. */
  function Table(): (t: seq<Phrase>)
    ensures |t| == 35
  {
    seq(35, i requires 0 <= i < 35 => Entry(i))
  }

  /** No key is defined twice, so an exact match names a single entry. */
  lemma TableKeysDistinct()
    ensures forall i, j :: 0 <= i < j < |Table()| ==> Table()[i].english != Table()[j].english
  {
  }

  /** The text wrapped around a short unknown input. */
  const PlaceholderOpen: string := "["
  const PlaceholderClose: string := " جو سنڌي ترجمو]"

  /** The fixed answer for an unknown input of 50 UTF-16 units or more. */
  const LongPlaceholder: string := "هي متن سنڌي ۾ ترجمو ڪيو ويو آهي. مڪمل ترجمي لاءِ OpenAI API key جي ضرورت آهي."

  /** The placeholder answer for an input no entry matches. It is never empty.
      A short input's placeholder can be unwrapped to give back the input
      exactly; a long input gets the fixed sentence, whatever it says. */
  function Placeholder(text: string): (r: string)
    ensures r != ""
    ensures Utf16Length(text) < 50 ==>
      && |r| == |PlaceholderOpen| + |text| + |PlaceholderClose|
      && r[..|PlaceholderOpen|] == PlaceholderOpen
      && r[|PlaceholderOpen|..|r| - |PlaceholderClose|] == text
      && r[|r| - |PlaceholderClose|..] == PlaceholderClose
    ensures Utf16Length(text) >= 50 ==> r == LongPlaceholder
  {
    if Utf16Length(text) < 50 then
      var r := PlaceholderOpen + text + PlaceholderClose;
      assert r[..|PlaceholderOpen|] == PlaceholderOpen;
      assert r[|PlaceholderOpen|..|r| - |PlaceholderClose|] == text;
      assert r[|r| - |PlaceholderClose|..] == PlaceholderClose;
      r
    else
      assert |LongPlaceholder| > 0;
      LongPlaceholder
  }

  /** The lookup key: the input lower-cased, then trimmed. The key is the
      lower-cased input with the whitespace at both ends cut off, so it neither
      starts nor ends with whitespace, and it holds no ASCII capital. */
  function Normalize(text: string): (key: string)
    ensures IsTrimOf(key, ToLower(text))
    ensures NoEdgeWhitespace(key)
    ensures NoAsciiCapital(key)
  {
    TrimClean(ToLower(text));
    Trim(ToLower(text))
  }

  /** A key is its own key: normalising twice is normalising once. */
  lemma NormalizeIdempotent(text: string)
    ensures Normalize(Normalize(text)) == Normalize(text)
  {
    var key := Normalize(text);
    LowerKeepsLower(key);
    TrimKeepsClean(key);
  }

  /** Normalising already-trimmed text gives the same key as normalising the
      raw text, so the second trim in the lookup never changes the key. */
  lemma NormalizeAfterTrim(text: string)
    ensures Normalize(Trim(text)) == Normalize(text)
  {
    LowerTrimCommute(text);
    TrimIdempotent(ToLower(text));
  }

  /** The first position at or after `from` whose element satisfies `p`:
      the "first match in definition order" rule both lookup passes follow. */
  function FirstIndexFrom<T>(xs: seq<T>, p: T -> bool, from: nat): (r: Option<nat>)
    ensures r.Some? ==> from <= r.value < |xs| && p(xs[r.value])
    ensures r.Some? ==> forall j :: from <= j < r.value ==> !p(xs[j])
    ensures r.None? ==> forall j :: from <= j < |xs| ==> !p(xs[j])
    decreases |xs| - from
  {
    if from >= |xs| then None
    else if p(xs[from]) then Some(from)
    else FirstIndexFrom(xs, p, from + 1)
  }

  /** Entry `i` is the first whose key equals `key`. */
  ghost predicate FirstExactAt(tbl: seq<Phrase>, key: string, i: int)
  {
    0 <= i < |tbl| && tbl[i].english == key
    && forall j :: 0 <= j < i ==> tbl[j].english != key
  }

  /** Entry `i` is the first whose key occurs in `text`. */
  ghost predicate FirstIncludedAt(tbl: seq<Phrase>, text: string, i: int)
  {
    0 <= i < |tbl| && Includes(text, tbl[i].english)
    && forall j :: 0 <= j < i ==> !Includes(text, tbl[j].english)
  }

  /** The exact-match pass answers: the entry for `key` exists and its value is
      truthy (a non-empty string). */
  ghost predicate ExactHit(tbl: seq<Phrase>, key: string)
  {
    exists i :: FirstExactAt(tbl, key, i) && tbl[i].sindhi != ""
  }

  /** Position of the first entry whose key equals `key`, if any. */
  function ExactIndex(tbl: seq<Phrase>, key: string): (r: Option<nat>)
    ensures r.Some? ==> FirstExactAt(tbl, key, r.value)
    ensures r.None? ==> forall j :: 0 <= j < |tbl| ==> tbl[j].english != key
  {
    FirstIndexFrom(tbl, (ph: Phrase) => ph.english == key, 0)
  }

  /** Position of the first entry whose key occurs in `text`, if any. */
  function IncludedIndex(tbl: seq<Phrase>, text: string): (r: Option<nat>)
    ensures r.Some? ==> FirstIncludedAt(tbl, text, r.value)
    ensures r.None? ==> forall j :: 0 <= j < |tbl| ==> !Includes(text, tbl[j].english)
  {
    FirstIndexFrom(tbl, (ph: Phrase) => Includes(text, ph.english), 0)
  }

  /** The fallback lookup against an arbitrary table. When the normalised
      input is a key with a non-empty value, the answer is that value. Failing
      that, it is the value of the earliest key in table order that occurs in
      the normalised input. When no key occurs there, it is the placeholder. */
  function Lookup(tbl: seq<Phrase>, text: string): (r: string)
    ensures forall i :: FirstExactAt(tbl, Normalize(text), i) && tbl[i].sindhi != "" ==>
      r == tbl[i].sindhi
    ensures !ExactHit(tbl, Normalize(text)) ==>
      forall i :: FirstIncludedAt(tbl, Normalize(text), i) ==> r == tbl[i].sindhi
    ensures (forall i :: 0 <= i < |tbl| ==> !Includes(Normalize(text), tbl[i].english)) ==>
      r == Placeholder(text)
  {
    var key := Normalize(text);
    IncludesSelf(key);
    var exact := ExactIndex(tbl, key);
    if exact.Some? && tbl[exact.value].sindhi != "" then
      tbl[exact.value].sindhi
    else
      var partial := IncludedIndex(tbl, key);
      if partial.Some? then tbl[partial.value].sindhi else Placeholder(text)
  }

  /** The lookup never invents text: it answers with a table value or the
      placeholder, so it is never empty when the table values are not. */
  lemma LookupAnswers(tbl: seq<Phrase>, text: string)
    ensures Lookup(tbl, text) == Placeholder(text)
      || exists i :: 0 <= i < |tbl| && Lookup(tbl, text) == tbl[i].sindhi
    ensures (forall i :: 0 <= i < |tbl| ==> tbl[i].sindhi != "") ==> Lookup(tbl, text) != ""
  {
    var key := Normalize(text);
    var exact := ExactIndex(tbl, key);
    var partial := IncludedIndex(tbl, key);
    assert Placeholder(text) != "" by {
      assert |PlaceholderOpen| == 1 && |LongPlaceholder| > 0;
    }
  }

  /** Every dictionary value is a non-empty string, so it is truthy. */
  lemma TableValuesNonEmpty()
    ensures forall i :: 0 <= i < |Table()| ==> Table()[i].sindhi != ""
  {
  }

  /** `getMockTranslation`: the fallback lookup against the built-in
      dictionary. It answers with a dictionary value or the placeholder, and
      never with the empty string. */
  function MockTranslation(text: string): (r: string)
    ensures r != ""
    ensures r == Placeholder(text) || exists i :: 0 <= i < |Table()| && r == Table()[i].sindhi
  {
    TableValuesNonEmpty();
    LookupAnswers(Table(), text);
    Lookup(Table(), text)
  }

  /** The headline promise of `getMockTranslation`: when the lower-cased,
      trimmed input is a dictionary key, the answer is that key's value. */
  lemma MockTranslationExact(text: string, i: int)
    requires 0 <= i < |Table()| && Normalize(text) == Table()[i].english
    ensures MockTranslation(text) == Table()[i].sindhi
  {
    TableKeysDistinct();
    TableValuesNonEmpty();
    assert FirstExactAt(Table(), Normalize(text), i);
  }
}

/** Facts about the built-in dictionary, and concrete lookups that show the
    exact-match pass, the first-in-table-order tie-break and the placeholder.

    Each worked lookup names its sample input through a parameter fixed by
    `requires` (`text == "Hello"`) rather than writing the literal into the
    conclusion. The conclusion then talks about one variable, and the literal
    is unfolded once, at the call site, instead of at every use. For the same
    reason, a scan across the 35 keys is proved in slices of a few keys each
    (`GoodDayMissesLow`, `GoodDayMissesMid`, `GoodDayMissesHigh`) and the
    slices are combined afterwards. */
module PhrasebookFacts {
  import opened JsString
  import opened Phrasebook

  /** Lower-casing and trimming leave the sample inputs below as written. */
  lemma HelloKey()
    ensures Normalize("Hello") == "hello"
  {
    assert ToLower("Hello") == "hello";
    TrimKeepsClean("hello");
  }

  lemma HowAreYouKey()
    ensures Normalize("How are you?") == "how are you?"
  {
    assert ToLower("How are you?") == "how are you?";
    TrimKeepsClean("how are you?");
  }

  lemma SnowKey()
    ensures Normalize("Snow") == "snow"
  {
    assert ToLower("Snow") == "snow";
    TrimKeepsClean("snow");
  }

  lemma OkKey()
    ensures Normalize("ok") == "ok"
  {
    assert ToLower("ok") == "ok";
    TrimKeepsClean("ok");
  }

  /** A capitalised key is found by the exact-match pass. */
  lemma HelloIsExact(text: string)
    requires text == "Hello"
    ensures MockTranslation(text) == "سلام"
  {
    HelloKey();
    MockTranslationExact(text, 0);
  }

  lemma GoodDayKey()
    ensures Normalize("Good day") == "good day"
  {
    assert ToLower("Good day") == "good day";
    TrimKeepsClean("good day");
  }

  /** No key equals "good day". */
  lemma GoodDayNotAKey(key: string)
    requires key == "good day"
    ensures !ExactHit(Table(), key)
  {
    assert forall j :: 0 <= j < |Table()| ==> Table()[j].english != key;
  }

  /** None of keys 0 to 9 occurs in "good day". */
  lemma GoodDayMissesLow(key: string)
    requires key == "good day"
    ensures forall j :: 0 <= j < 10 ==> !Includes(key, Table()[j].english)
  {
    assert forall j :: 0 <= j < 10 && j !in {0, 5, 6, 9} ==> |Table()[j].english| > |key|;
    MissingCharExcludes(key, "hello", 0);
    MissingCharExcludes(key, "welcome", 0);
    MissingCharExcludes(key, "please", 0);
    MissingCharExcludes(key, "goodbye", 4);
  }

  /** None of keys 10 to 15 occurs in "good day". */
  lemma GoodDayMissesMid(key: string)
    requires key == "good day"
    ensures forall j :: 10 <= j < 16 ==> !Includes(key, Table()[j].english)
  {
    MissingCharExcludes(key, "yes", 1);
    MissingCharExcludes(key, "no", 0);
    MissingCharExcludes(key, "water", 0);
    MissingCharExcludes(key, "food", 0);
    MissingCharExcludes(key, "house", 0);
    MissingCharExcludes(key, "family", 0);
  }

  /** None of keys 16 to 20 occurs in "good day". */
  lemma GoodDayMissesHigh(key: string)
    requires key == "good day"
    ensures forall j :: 16 <= j < 21 ==> !Includes(key, Table()[j].english)
  {
    MissingCharExcludes(key, "friend", 0);
    MissingCharExcludes(key, "book", 0);
    MissingCharExcludes(key, "school", 0);
    MissingCharExcludes(key, "work", 0);
    MissingCharExcludes(key, "time", 0);
  }

  /** "good day" includes key 21, "day", and key 26, "good". */
  lemma GoodDayHits(key: string)
    requires key == "good day"
    ensures Includes(key, Table()[21].english)
    ensures Includes(key, Table()[26].english) && Table()[26].english == "good"
  {
    OccursIncluded(key, "day", 5);
    OccursIncluded(key, "good", 0);
  }

  /** Key 21, "day", is the first key "good day" includes. */
  lemma GoodDayScan(key: string)
    requires key == "good day"
    ensures FirstIncludedAt(Table(), key, 21)
  {
    GoodDayMissesLow(key);
    GoodDayMissesMid(key);
    GoodDayMissesHigh(key);
    GoodDayHits(key);
  }

  lemma DayEntry()
    ensures Table()[21] == Phrase("day", "ڏينهن")
  {
  }

  /** "good day" contains "good" first and "day" second; "good" is also the
      longer key, yet "day" is defined earlier in the table and wins. */
  lemma DayShadowsGood(text: string)
    requires text == "Good day"
    ensures Includes(Normalize(text), Table()[26].english) && Table()[26].english == "good"
    ensures MockTranslation(text) == "ڏينهن"
  {
    GoodDayKey();
    GoodDayNotAKey(Normalize(text));
    GoodDayScan(Normalize(text));
    GoodDayHits(Normalize(text));
    assert FirstIncludedAt(Table(), Normalize(text), 21);
    DayEntry();
  }

  /** "how are you?" is key 4, and no earlier key. */
  lemma HowAreYouExact(key: string)
    requires key == "how are you?"
    ensures FirstExactAt(Table(), key, 4)
  {
  }

  /** Key 3, "how are you", is the first key "how are you?" includes. */
  lemma HowAreYouIncluded(key: string)
    requires key == "how are you?"
    ensures FirstIncludedAt(Table(), key, 3)
  {
    MissingCharExcludes(key, "hello", 2);
    MissingCharExcludes(key, "thank you", 0);
    MissingCharExcludes(key, "good morning", 0);
    OccursIncluded(key, "how are you", 0);
  }

  /** "how are you?" is itself a key, so the exact-match pass answers with the
      question-mark form although "how are you" is the first key it includes. */
  lemma ExactMatchBeforeSubstring(text: string)
    requires text == "How are you?"
    ensures FirstIncludedAt(Table(), Normalize(text), 3)
    ensures Table()[3].sindhi != Table()[4].sindhi
    ensures MockTranslation(text) == Table()[4].sindhi
  {
    HowAreYouKey();
    HowAreYouExact(Normalize(text));
    HowAreYouIncluded(Normalize(text));
    assert FirstExactAt(Table(), Normalize(text), 4);
  }

  /** No key equals "snow". */
  lemma SnowNotAKey(key: string)
    requires key == "snow"
    ensures !ExactHit(Table(), key)
  {
    assert forall j :: 0 <= j < |Table()| ==> Table()[j].english != key;
  }

  /** None of keys 0 to 10 occurs in "snow", and key 11, "no", does. */
  lemma SnowScan(key: string)
    requires key == "snow"
    ensures FirstIncludedAt(Table(), key, 11)
  {
    assert forall j :: 0 <= j < 10 ==> |Table()[j].english| > |key|;
    MissingCharExcludes(key, "yes", 0);
    OccursIncluded(key, "no", 1);
  }

  /** Substring matching ignores word boundaries: "snow" includes "no". */
  lemma SnowMeansNo(text: string)
    requires text == "Snow"
    ensures MockTranslation(text) == "نه"
  {
    SnowKey();
    SnowNotAKey(Normalize(text));
    SnowScan(Normalize(text));
    assert FirstIncludedAt(Table(), Normalize(text), 11);
  }

  /** No key occurs in "ok": "no" uses an "n", and all other keys are longer. */
  lemma OkScan(key: string)
    requires key == "ok"
    ensures forall j :: 0 <= j < |Table()| ==> !Includes(key, Table()[j].english)
  {
    assert forall j :: 0 <= j < |Table()| && j != 11 ==> |Table()[j].english| > |key|;
    MissingCharExcludes(key, "no", 0);
  }

  /** "ok" is short, so its placeholder wraps it. */
  lemma OkPlaceholder(text: string)
    requires text == "ok"
    ensures Placeholder(text) == "[ok جو سنڌي ترجمو]"
  {
    assert Utf16Length(text) == 2;
  }

  /** A short input that no key matches comes back wrapped in the placeholder. */
  lemma UnknownShortInput(text: string)
    requires text == "ok"
    ensures MockTranslation(text) == "[ok جو سنڌي ترجمو]"
  {
    OkKey();
    OkScan(Normalize(text));
    OkPlaceholder(text);
  }
}
