/** The few JavaScript string and value operations the translator relies on:
    `String.prototype.trim`, `toLowerCase` (ASCII letters only), `includes`,
    the UTF-16 `length` of a string, and truthiness of an optional string. */
module JsString {

  /** A JavaScript value that is either a string or absent (`null`/`undefined`). */
  datatype Option<T> = None | Some(value: T)

  /** A JavaScript string is truthy when it is present and not empty. */
  predicate Truthy(v: Option<string>)
  {
    v.Some? && v.value != ""
  }

  /** The characters `trim` removes: the ECMAScript WhiteSpace production
      (TAB, VT, FF, SP, NBSP, ZWNBSP and the Unicode space separators) and the
      LineTerminator production (LF, CR, LS, PS). */
  predicate IsWhitespace(c: char)
  {
    || c == '\t' || c == '\n' || c == '\U{000B}' || c == '\U{000C}' || c == '\r'
    || c == ' ' || c == '\U{00A0}' || c == '\U{1680}'
    || ('\U{2000}' <= c <= '\U{200A}')
    || c == '\U{2028}' || c == '\U{2029}' || c == '\U{202F}' || c == '\U{205F}'
    || c == '\U{3000}' || c == '\U{FEFF}'
  }

  ghost predicate AllWhitespace(s: string)
  {
    forall k :: 0 <= k < |s| ==> IsWhitespace(s[k])
  }

  /** Neither end of `s` is a whitespace character. */
  ghost predicate NoEdgeWhitespace(s: string)
  {
    s == [] || (!IsWhitespace(s[0]) && !IsWhitespace(s[|s| - 1]))
  }

  /** Cutting `s` at `i` and `j` keeps `s[i..j]`: only whitespace lies outside
      the cut, and the part kept neither starts nor ends with whitespace. */
  ghost predicate TrimmedAt(s: string, i: int, j: int)
  {
    && 0 <= i <= j <= |s|
    && (forall k :: 0 <= k < i ==> IsWhitespace(s[k]))
    && (forall k :: j <= k < |s| ==> IsWhitespace(s[k]))
    && (i < j ==> !IsWhitespace(s[i]) && !IsWhitespace(s[j - 1]))
  }

  /** `r` is what is left of `s` once the whitespace at both ends is cut off.
      This is the reference definition `Trim` is proved against. */
  ghost predicate IsTrimOf(r: string, s: string)
  {
    exists i, j :: TrimmedAt(s, i, j) && r == s[i..j]
  }

  /** The first position at or after `from` that does not hold whitespace. */
  function SkipLeading(s: string, from: nat): (i: nat)
    requires from <= |s|
    ensures from <= i <= |s|
    ensures forall k :: from <= k < i ==> IsWhitespace(s[k])
    ensures i < |s| ==> !IsWhitespace(s[i])
    decreases |s| - from
  {
    if from < |s| && IsWhitespace(s[from]) then SkipLeading(s, from + 1) else from
  }

  /** The end of the last character of `s[lo..hi]` that is not whitespace,
      or `lo` when there is none. */
  function SkipTrailing(s: string, lo: nat, hi: nat): (j: nat)
    requires lo <= hi <= |s|
    ensures lo <= j <= hi
    ensures forall k :: j <= k < hi ==> IsWhitespace(s[k])
    ensures lo < j ==> !IsWhitespace(s[j - 1])
    decreases hi
  {
    if lo < hi && IsWhitespace(s[hi - 1]) then SkipTrailing(s, lo, hi - 1) else hi
  }

  /** `String.prototype.trim`. */
  function Trim(s: string): (r: string)
    ensures IsTrimOf(r, s)
  {
    var i := SkipLeading(s, 0);
    var j := SkipTrailing(s, i, |s|);
    assert TrimmedAt(s, i, j);
    s[i..j]
  }

  /** A string has at most one trimmed form, so `IsTrimOf` pins `Trim` down. */
  lemma TrimUnique(r: string, s: string)
    requires IsTrimOf(r, s)
    ensures r == Trim(s)
  {
    var i, j :| TrimmedAt(s, i, j) && r == s[i..j];
    var t := Trim(s);
    var i', j' :| TrimmedAt(s, i', j') && t == s[i'..j'];
    if i < j {
      assert i' <= i && j <= j';
      assert i' < j';
      assert i <= i' && j' <= j;
    }
  }

  /** A string without whitespace at its ends is its own trimmed form. */
  lemma TrimKeepsClean(s: string)
    requires NoEdgeWhitespace(s)
    ensures Trim(s) == s
  {
    assert s[0..|s|] == s;
    assert TrimmedAt(s, 0, |s|);
    TrimUnique(s, s);
  }

  /** Trimming twice is trimming once. */
  lemma TrimIdempotent(s: string)
    ensures Trim(Trim(s)) == Trim(s)
  {
    var t := Trim(s);
    var i, j :| TrimmedAt(s, i, j) && t == s[i..j];
    assert NoEdgeWhitespace(t);
    TrimKeepsClean(t);
  }

  /** A string trims to the empty string exactly when it is all whitespace. */
  lemma TrimEmptyIff(s: string)
    ensures Trim(s) == [] <==> AllWhitespace(s)
  {
    if AllWhitespace(s) {
      assert TrimmedAt(s, 0, 0) && s[0..0] == [];
      TrimUnique([], s);
    } else {
      var t := Trim(s);
      var i, j :| TrimmedAt(s, i, j) && t == s[i..j];
    }
  }

  /** `toLowerCase`, restricted to the ASCII letters. */
  function LowerChar(c: char): char
  {
    if IsAsciiCapital(c) then (c as int + 32) as char else c
  }

  predicate IsAsciiCapital(c: char)
  {
    'A' <= c <= 'Z'
  }

  ghost predicate NoAsciiCapital(s: string)
  {
    forall k :: 0 <= k < |s| ==> !IsAsciiCapital(s[k])
  }

  /** The result has the length of `s` and holds no ASCII capital. Each
      capital of `s` becomes its lower-case letter, 32 code points further on,
      and every other character stays as it is. */
  function ToLower(s: string): (r: string)
    ensures |r| == |s|
    ensures NoAsciiCapital(r)
    ensures forall k :: 0 <= k < |s| && IsAsciiCapital(s[k]) ==> r[k] as int == s[k] as int + 32
    ensures forall k :: 0 <= k < |s| && !IsAsciiCapital(s[k]) ==> r[k] == s[k]
  {
    seq(|s|, k requires 0 <= k < |s| => LowerChar(s[k]))
  }

  /** Lower-casing text without capitals leaves it as it is. */
  lemma LowerKeepsLower(s: string)
    requires NoAsciiCapital(s)
    ensures ToLower(s) == s
  {
  }

  /** The trimmed form of a string has no whitespace at its ends, and no ASCII
      capital unless the string had one. */
  lemma TrimClean(s: string)
    ensures NoEdgeWhitespace(Trim(s))
    ensures NoAsciiCapital(s) ==> NoAsciiCapital(Trim(s))
  {
    var t := Trim(s);
    var i, j :| TrimmedAt(s, i, j) && t == s[i..j];
    assert forall k :: 0 <= k < |t| ==> t[k] == s[i + k];
  }

  /** Lower-casing neither creates nor removes whitespace. */
  lemma LowerCharKeepsWhitespace(c: char)
    ensures IsWhitespace(LowerChar(c)) <==> IsWhitespace(c)
  {
  }

  lemma LowerSlice(s: string, i: int, j: int)
    requires 0 <= i <= j <= |s|
    ensures ToLower(s[i..j]) == ToLower(s)[i..j]
  {
    forall k | 0 <= k < j - i
      ensures ToLower(s[i..j])[k] == ToLower(s)[i..j][k]
    {
      assert s[i..j][k] == s[i + k];
    }
  }

  lemma LowerTrimmedAt(s: string, i: int, j: int)
    requires TrimmedAt(s, i, j)
    ensures TrimmedAt(ToLower(s), i, j)
  {
    var l := ToLower(s);
    forall k | 0 <= k < |s|
      ensures IsWhitespace(l[k]) <==> IsWhitespace(s[k])
    {
      LowerCharKeepsWhitespace(s[k]);
    }
  }

  /** Lower-casing and trimming commute. */
  lemma LowerTrimCommute(s: string)
    ensures ToLower(Trim(s)) == Trim(ToLower(s))
  {
    var t := Trim(s);
    var i, j :| TrimmedAt(s, i, j) && t == s[i..j];
    LowerSlice(s, i, j);
    LowerTrimmedAt(s, i, j);
    TrimUnique(ToLower(s)[i..j], ToLower(s));
  }

  /** `k` occurs in `s` starting at position `i`. */
  ghost predicate OccursAt(s: string, k: string, i: int)
  {
    0 <= i && i + |k| <= |s| && s[i..i + |k|] == k
  }

  /** An occurrence in `s[1..]` is an occurrence in `s`, one position on. */
  lemma OccursShiftUp(s: string, k: string)
    requires |s| > 0
    ensures (exists i :: OccursAt(s[1..], k, i)) ==> exists i :: OccursAt(s, k, i)
  {
    if exists i :: OccursAt(s[1..], k, i) {
      var i :| OccursAt(s[1..], k, i);
      assert s[1..][i..i + |k|] == s[i + 1..i + 1 + |k|];
      assert OccursAt(s, k, i + 1);
    }
  }

  /** When `k` is not a prefix of `s`, an occurrence in `s` is an occurrence
      in `s[1..]`, one position back. */
  lemma OccursShiftDown(s: string, k: string)
    requires |k| <= |s| && s[..|k|] != k
    ensures (exists i :: OccursAt(s, k, i)) ==> exists i :: OccursAt(s[1..], k, i)
  {
    if exists i :: OccursAt(s, k, i) {
      var i :| OccursAt(s, k, i);
      assert i != 0;
      assert s[1..][i - 1..i - 1 + |k|] == s[i..i + |k|];
      assert OccursAt(s[1..], k, i - 1);
    }
  }

  /** `s.includes(k)`: scans `s` left to right for an occurrence of `k`, and
      answers yes exactly when `k` occurs somewhere in `s`. */
  function Includes(s: string, k: string): (r: bool)
    ensures r <==> exists i :: OccursAt(s, k, i)
    decreases |s|
  {
    if |k| > |s| then false
    else if s[..|k|] == k then
      assert OccursAt(s, k, 0);
      true
    else
      OccursShiftUp(s, k);
      OccursShiftDown(s, k);
      Includes(s[1..], k)
  }

  /** An occurrence at a known position makes the scan answer yes. */
  lemma OccursIncluded(s: string, k: string, i: int)
    requires OccursAt(s, k, i)
    ensures Includes(s, k)
  {
  }

  /** Every string includes the empty string, and itself. */
  lemma IncludesSelf(s: string)
    ensures Includes(s, "") && Includes(s, s)
  {
  }

  /** A key that uses a character absent from `s` is not included in `s`. */
  lemma MissingCharExcludes(s: string, k: string, m: int)
    requires 0 <= m < |k| && k[m] !in s
    ensures !Includes(s, k)
  {
  }

  /** JavaScript's `length`: the number of UTF-16 code units, where a
      character outside the Basic Multilingual Plane takes two. */
  function Utf16Length(s: string): (n: nat)
    ensures |s| <= n <= 2 * |s|
    ensures (forall k :: 0 <= k < |s| ==> (s[k] as int) < 0x1_0000) ==> n == |s|
  {
    if s == [] then 0
    else (if (s[0] as int) < 0x1_0000 then 1 else 2) + Utf16Length(s[1..])
  }

  /** A single character takes one code unit inside the Basic Multilingual
      Plane and a surrogate pair, two units, outside it. */
  lemma Utf16Char(c: char)
    ensures Utf16Length([c]) == if (c as int) < 0x1_0000 then 1 else 2
  {
    assert [c][1..] == [];
  }

  /** The length of a concatenation is the sum of the lengths; with
      `Utf16Char`, this fixes the length of every string. */
  lemma {:induction false} Utf16Concat(a: string, b: string)
    ensures Utf16Length(a + b) == Utf16Length(a) + Utf16Length(b)
    decreases |a|
  {
    if a == [] {
      assert a + b == b;
    } else {
      assert (a + b)[1..] == a[1..] + b;
      Utf16Concat(a[1..], b);
    }
  }
}
