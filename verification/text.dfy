/**
 * The pieces of Python's string library that the normalisers use:
 * str.isspace (also what the regex class `\s` matches), str.strip,
 * str.lower, str.upper on the letters that can reach it, and the
 * substring test `key in text`.
 */
module Text {

  /** Python's str.isspace() for one character (the Unicode whitespace set). */
  predicate IsSpace(c: char) {
    || c == ' '
    || ('\t' <= c <= '\r')
    || ('\U{1C}' <= c <= '\U{1F}')
    || c == '\U{85}' || c == '\U{A0}' || c == '\U{1680}'
    || ('\U{2000}' <= c <= '\U{200A}')
    || c == '\U{2028}' || c == '\U{2029}' || c == '\U{202F}' || c == '\U{205F}' || c == '\U{3000}'
  }

  predicate IsAsciiLetter(c: char) {
    ('a' <= c <= 'z') || ('A' <= c <= 'Z')
  }

  /** No whitespace at either end, as after strip(). */
  predicate Trimmed(s: string) {
    s != [] ==> !IsSpace(s[0]) && !IsSpace(s[|s| - 1])
  }

  /** The first position at or after i that does not hold whitespace (|s| if none). */
  function SkipSpaces(s: string, i: nat): (r: nat)
    requires i <= |s|
    ensures i <= r <= |s| && (r < |s| ==> !IsSpace(s[r]))
    ensures forall k :: i <= k < r ==> IsSpace(s[k])
    decreases |s| - i
  {
    if i < |s| && IsSpace(s[i]) then SkipSpaces(s, i + 1) else i
  }

  /** The end of s[lo..j] once its trailing whitespace is dropped. */
  function SkipSpacesBack(s: string, lo: nat, j: nat): (r: nat)
    requires lo <= j <= |s|
    ensures lo <= r <= j && (r > lo ==> !IsSpace(s[r - 1]))
    ensures forall k :: r <= k < j ==> IsSpace(s[k])
    decreases j
  {
    if j > lo && IsSpace(s[j - 1]) then SkipSpacesBack(s, lo, j - 1) else j
  }

  /** Where strip() starts cutting out its result. */
  function StripStart(s: string): nat
    ensures StripStart(s) <= |s|
  {
    SkipSpaces(s, 0)
  }

  /** str.strip(): the piece of s between its leading and its trailing whitespace. */
  function Strip(s: string): (r: string)
    ensures |r| <= |s|
  {
    s[StripStart(s)..SkipSpacesBack(s, StripStart(s), |s|)]
  }

  /** strip() cuts a contiguous piece out of its input and drops only whitespace around it. */
  lemma StripPiece(s: string)
    ensures StripStart(s) + |Strip(s)| <= |s|
    ensures forall i :: 0 <= i < |Strip(s)| ==> Strip(s)[i] == s[StripStart(s) + i]
    ensures forall i :: 0 <= i < StripStart(s) ==> IsSpace(s[i])
    ensures forall i :: StripStart(s) + |Strip(s)| <= i < |s| ==> IsSpace(s[i])
  {
  }

  /** strip() leaves no whitespace at either end. */
  lemma StripTrimmed(s: string)
    ensures Trimmed(Strip(s))
  {
  }

  /**
   * strip() leaves no whitespace at either end, keeps only characters of its
   * input, and is empty exactly when the input is blank.
   */
  lemma StripSpec(s: string)
    ensures Trimmed(Strip(s))
    ensures Strip(s) == [] <==> forall i :: 0 <= i < |s| ==> IsSpace(s[i])
    ensures forall i :: 0 <= i < |Strip(s)| ==> Strip(s)[i] in s
  {
    StripTrimmed(s);
    StripPiece(s);
    var r := Strip(s);
    var a := StripStart(s);
    if r != [] {
      assert r[0] == s[a];
    }
    forall i | 0 <= i < |r| ensures r[i] in s {
      assert r[i] == s[a + i];
    }
  }

  /** A string that already has no whitespace at either end is left alone by strip(). */
  lemma StripStripped(s: string)
    requires Trimmed(s)
    ensures Strip(s) == s
  {
  }

  /** str.lower() on one character: ASCII capitals and the Latin-1 capitals À..Þ (not ×). */
  function LowerChar(c: char): char {
    if 'A' <= c <= 'Z' || ('\U{C0}' <= c <= '\U{DE}' && c != '\U{D7}') then
      (c as int + 32) as char
    else
      c
  }

  /** str.upper() on one character; only ASCII letters reach it in this model. */
  function UpperChar(c: char): char {
    if 'a' <= c <= 'z' then (c as int - 32) as char else c
  }

  /** str.lower() */
  function Lower(s: string): (r: string)
    ensures |r| == |s|
  {
    seq(|s|, i requires 0 <= i < |s| => LowerChar(s[i]))
  }

  /** str.upper() */
  function Upper(s: string): (r: string)
    ensures |r| == |s|
  {
    seq(|s|, i requires 0 <= i < |s| => UpperChar(s[i]))
  }

  /** `key` occurs in `text` starting at position `i`. */
  predicate OccursAt(text: string, key: string, i: int) {
    0 <= i <= |text| - |key| && text[i..i + |key|] == key
  }

  /** Python's `key in text` for strings: `key` occurs contiguously in `text`. */
  predicate Contains(text: string, key: string) {
    exists i | 0 <= i <= |text| - |key| :: OccursAt(text, key, i)
  }

  /** A key that has a character the text lacks does not occur in the text. */
  lemma AbsentChar(text: string, key: string, c: char)
    requires c in key && c !in text
    ensures !Contains(text, key)
  {
  }

  /**
   * A key whose k-th character occurs in the text only at position p, and
   * which does not occur where that placement would put it, does not occur.
   */
  lemma OnlyPlacement(text: string, key: string, k: nat, p: nat)
    requires k < |key| && p < |text| && text[p] == key[k]
    requires key[k] !in text[..p] && key[k] !in text[p + 1..]
    requires !OccursAt(text, key, p - k)
    ensures !Contains(text, key)
  {
  }

  /** A key found at some position of the text is contained in it. */
  lemma ContainsWitness(text: string, key: string, i: nat)
    requires i + |key| <= |text| && text[i..i + |key|] == key
    ensures Contains(text, key)
  {
    assert OccursAt(text, key, i);
  }

  /** lower() only ever changes letters, never whitespace. */
  lemma LowerKeepsSpace(c: char)
    ensures IsSpace(LowerChar(c)) <==> IsSpace(c)
  {
  }

  /** lower() is idempotent: a lower-cased string has nothing left to lower. */
  lemma LowerIdempotent(s: string)
    ensures Lower(Lower(s)) == Lower(s)
  {
  }

  /** Lower-casing a stripped string leaves it stripped. */
  lemma LowerKeepsStripped(s: string)
    requires Strip(s) == s
    ensures Strip(Lower(s)) == Lower(s)
  {
    StripSpec(s);
    if s != [] {
      LowerKeepsSpace(s[0]);
      LowerKeepsSpace(s[|s| - 1]);
    }
    StripStripped(Lower(s));
  }
}
