/** The translation history (`addToHistory`): newest entry first, cut down to
    the ten most recent after every insertion. */
module History {

  /** One remembered translation; `timestamp` is the clock reading (in
      milliseconds) taken when the entry was added. */
  datatype HistoryItem = HistoryItem(original: string, translated: string, timestamp: int)

  /** The most entries `addToHistory` keeps. */
  const MaxEntries: nat := 10

  function Min(a: int, b: int): int
  {
    if a < b then a else b
  }

  /** `addToHistory`: put the new entry at the head, then keep the first
      `MaxEntries` entries. The clock reading is a parameter. */
  function AddToHistory(history: seq<HistoryItem>, original: string, translated: string, now: int)
    : (h: seq<HistoryItem>)
    ensures |h| == Min(|history| + 1, MaxEntries)
    ensures h[0] == HistoryItem(original, translated, now)
    ensures h[1..] == history[..Min(|history|, MaxEntries - 1)]
  {
    var grown := [HistoryItem(original, translated, now)] + history;
    if |grown| > MaxEntries then grown[..MaxEntries] else grown
  }

  /** The first `MaxEntries` entries of `s`: the reference definition of the
      cut that `addToHistory` applies. */
  function Newest(s: seq<HistoryItem>): (r: seq<HistoryItem>)
    ensures |r| == Min(|s|, MaxEntries)
    ensures r == s[..|r|]
  {
    if |s| > MaxEntries then s[..MaxEntries] else s
  }

  function Reverse<T>(s: seq<T>): (r: seq<T>)
    ensures |r| == |s|
    ensures forall k :: 0 <= k < |s| ==> r[k] == s[|s| - 1 - k]
  {
    if s == [] then [] else Reverse(s[1..]) + [s[0]]
  }

  /** Adding the entries `items`, first to last, one call at a time. */
  function AddAll(history: seq<HistoryItem>, items: seq<HistoryItem>): seq<HistoryItem>
    decreases |items|
  {
    if items == [] then history
    else
      var x := items[0];
      AddAll(AddToHistory(history, x.original, x.translated, x.timestamp), items[1..])
  }

  /** One insertion is the new entry prepended, then cut. */
  lemma AddIsNewest(history: seq<HistoryItem>, x: HistoryItem)
    ensures AddToHistory(history, x.original, x.translated, x.timestamp) == Newest([x] + history)
  {
    var h := AddToHistory(history, x.original, x.translated, x.timestamp);
    var n := Newest([x] + history);
    assert |h| == |n|;
    forall k | 0 <= k < |h|
      ensures h[k] == n[k]
    {
      if k > 0 {
        assert h[k] == h[1..][k - 1];
      }
    }
  }

  /** Cutting the tail before prepending changes nothing once the whole is cut. */
  lemma NewestOfPrefixed(a: seq<HistoryItem>, b: seq<HistoryItem>)
    ensures Newest(a + Newest(b)) == Newest(a + b)
  {
    var l := Newest(a + Newest(b));
    var r := Newest(a + b);
    assert |l| == |r|;
    forall k | 0 <= k < |l|
      ensures l[k] == r[k]
    {
      if k >= |a| {
        assert (a + Newest(b))[k] == Newest(b)[k - |a|];
      }
    }
  }

  /** After a run of insertions the history holds the inserted entries newest
      first, followed by the old history, cut to `MaxEntries`. (With no
      insertion at all, a history loaded longer than `MaxEntries` stays long.) */
  lemma {:induction false} AddAllNewestFirst(history: seq<HistoryItem>, items: seq<HistoryItem>)
    requires items != [] || |history| <= MaxEntries
    ensures AddAll(history, items) == Newest(Reverse(items) + history)
    decreases |items|
  {
    if items == [] {
      assert Reverse(items) + history == history;
    } else {
      var x := items[0];
      var rest := items[1..];
      var h1 := AddToHistory(history, x.original, x.translated, x.timestamp);
      calc {
        AddAll(history, items);
        AddAll(h1, rest);
        { AddAllNewestFirst(h1, rest); }
        Newest(Reverse(rest) + h1);
        { AddIsNewest(history, x); }
        Newest(Reverse(rest) + Newest([x] + history));
        { NewestOfPrefixed(Reverse(rest), [x] + history); }
        Newest(Reverse(rest) + ([x] + history));
        { assert Reverse(items) == Reverse(rest) + [x];
          assert Reverse(rest) + ([x] + history) == Reverse(items) + history; }
        Newest(Reverse(items) + history);
      }
    }
  }

  /** Ten or more insertions leave exactly the ten latest, newest first, and
      nothing of the history that came before. */
  lemma LatestTenRemain(history: seq<HistoryItem>, items: seq<HistoryItem>)
    requires |items| >= MaxEntries
    ensures |AddAll(history, items)| == MaxEntries
    ensures forall k :: 0 <= k < MaxEntries ==> AddAll(history, items)[k] == items[|items| - 1 - k]
  {
    AddAllNewestFirst(history, items);
    var all := Reverse(items) + history;
    assert forall k :: 0 <= k < MaxEntries ==> all[k] == Reverse(items)[k];
  }
}
