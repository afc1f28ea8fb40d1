/** The ECMAScript string built-ins the note components call:
    `toLowerCase`, `includes`, `substring` and `trim`. A JavaScript string is
    a sequence of code units; here it is a `seq<char>`. */
module JsString {

  /** The code points `String.prototype.trim` strips: the WhiteSpace and
      LineTerminator productions of ECMA-262 (tab, line feed, vertical tab,
      form feed, carriage return, space, no-break space, the byte-order mark,
      the Unicode space separators, line and paragraph separator). */
  predicate IsWhiteSpace(c: char) {
    var n := c as int;
    || n == 0x09 || n == 0x0A || n == 0x0B || n == 0x0C || n == 0x0D || n == 0x20
    || n == 0xA0 || n == 0x1680 || (0x2000 <= n <= 0x200A)
    || n == 0x2028 || n == 0x2029 || n == 0x202F || n == 0x205F || n == 0x3000
    || n == 0xFEFF
  }

  /** Lower-casing restricted to ASCII: 'A'..'Z' map to 'a'..'z', every other
      character is left alone. */
  function LowerChar(c: char): (d: char)
    ensures 'A' <= c <= 'Z' ==> 'a' <= d <= 'z' && d as int == c as int + 32
    ensures !('A' <= c <= 'Z') ==> d == c
  {
    if 'A' <= c <= 'Z' then (c as int + 32) as char else c
  }

  /** `s.toLowerCase()`, ASCII only. */
  function ToLowerCase(s: string): (r: string)
    ensures |r| == |s|
    ensures forall i :: 0 <= i < |s| ==> r[i] == LowerChar(s[i])
  {
    if s == [] then [] else [LowerChar(s[0])] + ToLowerCase(s[1..])
  }

  /** Lower-casing twice is lower-casing once: what makes a search on
      lower-cased text insensitive to the case of the search term. */
  lemma ToLowerCaseIdempotent(s: string)
    ensures ToLowerCase(ToLowerCase(s)) == ToLowerCase(s)
    ensures forall i :: 0 <= i < |s| ==> !('A' <= ToLowerCase(s)[i] <= 'Z')
  {
    var r := ToLowerCase(s);
    assert forall i :: 0 <= i < |s| ==> LowerChar(r[i]) == r[i];
    assert ToLowerCase(r) == r;
  }

  /** `needle` occurs in `hay` starting at position `i`. */
  ghost predicate OccursAt(needle: string, hay: string, i: int) {
    0 <= i <= |hay| - |needle| && hay[i..i + |needle|] == needle
  }

  /** What `hay.includes(needle)` means: the needle occurs at some position. */
  ghost predicate OccursIn(needle: string, hay: string) {
    exists i :: OccursAt(needle, hay, i)
  }

  /** The empty string occurs in every string (`s.includes('')` is true). */
  lemma EmptyOccursEverywhere(hay: string)
    ensures OccursIn([], hay)
  {
    assert OccursAt([], hay, 0);
  }

  /** Only the empty string occurs in the empty string, and it occurs
      everywhere else too. */
  lemma OnlyEmptyOccursInEmpty(needle: string, hay: string)
    ensures OccursIn(needle, []) ==> needle == [] && OccursIn(needle, hay)
  {
    if OccursIn(needle, []) {
      EmptyOccursEverywhere(hay);
    }
  }

  lemma OccursInTail(needle: string, hay: string)
    requires |hay| > 0
    ensures OccursIn(needle, hay[1..]) ==> OccursIn(needle, hay)
    ensures OccursIn(needle, hay) && !OccursAt(needle, hay, 0) ==> OccursIn(needle, hay[1..])
  {
    var n := |needle|;
    if OccursIn(needle, hay[1..]) {
      var i :| OccursAt(needle, hay[1..], i);
      assert hay[1..][i..i + n] == hay[i + 1..i + 1 + n];
      assert OccursAt(needle, hay, i + 1);
    }
    if OccursIn(needle, hay) && !OccursAt(needle, hay, 0) {
      var i :| OccursAt(needle, hay, i);
      assert i != 0;
      assert hay[1..][i - 1..i - 1 + n] == hay[i..i + n];
      assert OccursAt(needle, hay[1..], i - 1);
    }
  }

  /** `hay.includes(needle)`: compare at position 0, then search the rest. */
  function Includes(hay: string, needle: string): (b: bool)
    ensures b <==> OccursIn(needle, hay)
    decreases |hay|
  {
    if |needle| > |hay| then false
    else if hay[..|needle|] == needle then (assert OccursAt(needle, hay, 0); true)
    else (OccursInTail(needle, hay); Includes(hay[1..], needle))
  }

  /** Number of white-space characters at the front of `s`. */
  function LeadingWhiteSpace(s: string): (k: nat)
    ensures k <= |s|
    ensures forall i :: 0 <= i < k ==> IsWhiteSpace(s[i])
    ensures k < |s| ==> !IsWhiteSpace(s[k])
  {
    if s == [] || !IsWhiteSpace(s[0]) then 0 else 1 + LeadingWhiteSpace(s[1..])
  }

  /** Where the run of white-space characters at the end of `s` starts. */
  function TrailingWhiteSpace(s: string): (k: nat)
    ensures k <= |s|
    ensures forall i :: k <= i < |s| ==> IsWhiteSpace(s[i])
    ensures 0 < k ==> !IsWhiteSpace(s[k - 1])
  {
    if s == [] || !IsWhiteSpace(s[|s| - 1]) then |s| else TrailingWhiteSpace(s[..|s| - 1])
  }

  /** `s[i..j]` is what trimming `s` leaves: everything outside it is white
      space, and a non-empty `s[i..j]` starts and ends with other characters. */
  ghost predicate TrimmedAt(s: string, i: int, j: int) {
    && 0 <= i <= j <= |s|
    && (forall k :: 0 <= k < i ==> IsWhiteSpace(s[k]))
    && (forall k :: j <= k < |s| ==> IsWhiteSpace(s[k]))
    && (i < j ==> !IsWhiteSpace(s[i]) && !IsWhiteSpace(s[j - 1]))
  }

  /** Where trimming `s` starts: after its leading white space. */
  function TrimStart(s: string): (i: nat)
    ensures i <= |s|
  {
    LeadingWhiteSpace(s)
  }

  /** Where trimming `s` ends: before its trailing white space, and never
      before TrimStart(s). */
  function TrimEnd(s: string): (j: nat)
    ensures TrimStart(s) <= j <= |s|
  {
    TrimStart(s) + TrailingWhiteSpace(s[TrimStart(s)..])
  }

  /** `s.trim()`: strip leading, then trailing white space. */
  function Trim(s: string): (r: string)
    ensures TrimmedAt(s, TrimStart(s), TrimEnd(s)) && r == s[TrimStart(s)..TrimEnd(s)]
    ensures |r| <= |s|
    ensures r == [] || (!IsWhiteSpace(r[0]) && !IsWhiteSpace(r[|r| - 1]))
  {
    s[TrimStart(s)..TrimEnd(s)]
  }

  /** Trimming has exactly one possible outcome: whichever indices satisfy
      TrimmedAt, they cut out the same text. */
  lemma TrimmedAtUnique(s: string, i: int, j: int, i': int, j': int)
    requires TrimmedAt(s, i, j) && TrimmedAt(s, i', j')
    ensures s[i..j] == s[i'..j']
  {
    if i < j && i' < j' {
      assert i == i';
      assert j == j';
    }
  }

  /** The trimmed text is empty exactly when `s` is all white space. */
  lemma TrimEmptyIffAllWhiteSpace(s: string)
    ensures Trim(s) == [] <==> forall k :: 0 <= k < |s| ==> IsWhiteSpace(s[k])
  {
  }
}
