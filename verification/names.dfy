/**
 * The name cleaner `limpiar_nombre`: a missing cell becomes the empty name;
 * otherwise every `(...)` annotation is cut out, accents are stripped, every
 * character that is not an ASCII letter or whitespace is dropped, and what is
 * left is trimmed and upper-cased.
 */
module Names {
  import opened Util
  import opened Text

  // Step 1: annotations, a `(` through the first `)` after it.

  /** The position of the first `)` at or after `from`. */
  function FirstClose(s: string, from: nat): (r: nat)
    requires from <= |s| && ')' in s[from..]
    ensures from <= r < |s| && s[r] == ')'
    ensures forall k :: from <= k < r ==> s[k] != ')'
    decreases |s| - from
  {
    if s[from] == ')' then from
    else
      assert s[from..] == [s[from]] + s[from + 1..];
      FirstClose(s, from + 1)
  }

  /**
   * Scanning left to right, a `(` that has a `)` somewhere after it starts a
   * match that runs through the first such `)` and is deleted; a `(` with no
   * `)` after it is an ordinary character.
   */
  function DropAnnotations(s: string): (r: string)
    ensures |r| <= |s|
    decreases |s|
  {
    if s == [] then []
    else if s[0] == '(' && ')' in s[1..] then
      DropAnnotations(s[FirstClose(s, 1) + 1..])
    else
      [s[0]] + DropAnnotations(s[1..])
  }

  /** A character absent from the text is absent from what is left of it. */
  lemma {:induction false} DropAnnotationsOmits(s: string, c: char)
    requires c !in s
    ensures c !in DropAnnotations(s)
    decreases |s|
  {
    if s == [] {
    } else if s[0] == '(' && ')' in s[1..] {
      var k := FirstClose(s, 1) + 1;
      var rest := s[k..];
      forall i | 0 <= i < |rest| ensures rest[i] != c {
        assert rest[i] == s[k + i];
      }
      DropAnnotationsOmits(rest, c);
    } else {
      forall i | 0 <= i < |s| - 1 ensures s[1..][i] != c {
        assert s[1..][i] == s[i + 1];
      }
      DropAnnotationsOmits(s[1..], c);
    }
  }

  /** A text with no `)` has no closed annotation and passes through unchanged, unclosed `(` included. */
  lemma {:induction false} DropAnnotationsUnclosed(s: string)
    requires ')' !in s
    ensures DropAnnotations(s) == s
    decreases |s|
  {
    if s != [] {
      assert ')' !in s[1..] by {
        forall i | 0 <= i < |s| - 1 ensures s[1..][i] != ')' {
          assert s[1..][i] == s[i + 1];
        }
      }
      DropAnnotationsUnclosed(s[1..]);
      assert s == [s[0]] + s[1..];
    }
  }

  /** No `(` in the text has a `)` somewhere after it. */
  predicate NoClosedPair(r: string) {
    forall i, j :: 0 <= i < j < |r| && r[i] == '(' ==> r[j] != ')'
  }

  /** No closed annotation survives: every `(` left in the result has no `)` after it. */
  lemma {:induction false} DropAnnotationsLeavesNoPair(s: string)
    ensures NoClosedPair(DropAnnotations(s))
    decreases |s|
  {
    if s == [] {
    } else if s[0] == '(' && ')' in s[1..] {
      var rest := s[FirstClose(s, 1) + 1..];
      assert DropAnnotations(s) == DropAnnotations(rest);
      DropAnnotationsLeavesNoPair(rest);
    } else {
      var tail := DropAnnotations(s[1..]);
      DropAnnotationsLeavesNoPair(s[1..]);
      assert NoClosedPair(tail);
      var r := [s[0]] + tail;
      assert DropAnnotations(s) == r;
      if s[0] == '(' {
        DropAnnotationsOmits(s[1..], ')');
      }
      forall i, j | 0 <= i < j < |r| && r[i] == '(' ensures r[j] != ')' {
        assert r[j] == tail[j - 1];
        if i > 0 {
          assert r[i] == tail[i - 1];
        }
      }
    }
  }

  /** A first character other than `(` is kept as it is. */
  lemma DropPlainHead(s: string)
    requires s != [] && s[0] != '('
    ensures DropAnnotations(s) == [s[0]] + DropAnnotations(s[1..])
  {
  }

  /** A prefix without `(` is passed through untouched. */
  lemma {:induction false} DropAnnotationsPlainPrefix(pre: string, post: string)
    requires '(' !in pre
    ensures DropAnnotations(pre + post) == pre + DropAnnotations(post)
    decreases |pre|
  {
    if pre == [] {
      assert pre + post == post;
    } else {
      var s := pre + post;
      var rest := DropAnnotations(pre[1..] + post);
      assert s[0] == pre[0] && s[1..] == pre[1..] + post;
      DropPlainHead(s);
      assert DropAnnotations(s) == [pre[0]] + rest;
      DropAnnotationsPlainPrefix(pre[1..], post);
      assert rest == pre[1..] + DropAnnotations(post);
      assert [pre[0]] + pre[1..] == pre;
    }
  }

  /** FirstClose is the one `)` that has no other `)` between `from` and itself. */
  lemma FirstCloseAt(s: string, from: nat, k: nat)
    requires from <= k < |s| && s[k] == ')'
    requires forall m :: from <= m < k ==> s[m] != ')'
    ensures ')' in s[from..] && FirstClose(s, from) == k
  {
    assert s[from..][k - from] == ')';
  }

  /** A text that opens with a closed annotation loses exactly that annotation. */
  lemma DropLeadingAnnotation(inner: string, post: string)
    requires ')' !in inner
    ensures DropAnnotations(['('] + inner + [')'] + post) == DropAnnotations(post)
  {
    var tail := ['('] + inner + [')'] + post;
    var close := |inner| + 1;
    forall m | 1 <= m < close ensures tail[m] != ')' {
      assert tail[m] == inner[m - 1];
    }
    FirstCloseAt(tail, 1, close);
    assert tail[close + 1..] == post;
  }

  /**
   * A closed annotation after a prefix without `(` disappears together with
   * everything inside it.
   */
  lemma AnnotationVanishes(pre: string, inner: string, post: string)
    requires '(' !in pre && ')' !in inner
    ensures DropAnnotations(pre + ['('] + inner + [')'] + post) == pre + DropAnnotations(post)
  {
    var tail := ['('] + inner + [')'] + post;
    assert pre + ['('] + inner + [')'] + post == pre + tail;
    DropAnnotationsPlainPrefix(pre, tail);
    DropLeadingAnnotation(inner, post);
  }

  // Step 2: accents, as NFD decomposition followed by deleting the combining marks.

  /** A combining diacritical mark (U+0300..U+036F), category Mn. */
  predicate IsCombining(c: char) {
    '\U{300}' <= c <= '\U{36F}'
  }

  /**
   * The first character of the canonical decomposition of a Latin-1 letter:
   * À..Å ⇒ A, Ç ⇒ C, È..Ë ⇒ E, Ì..Ï ⇒ I, Ñ ⇒ N, Ò..Ö ⇒ O, Ù..Ü ⇒ U, Ý ⇒ Y and
   * the same for the small letters (and ÿ ⇒ y); every other character is its
   * own decomposition here.
   */
  function BaseLetter(c: char): (r: char)
    ensures r == c || IsAsciiLetter(r)
    ensures IsAsciiLetter(c) || IsSpace(c) || IsCombining(c) ==> r == c
  {
    if '\U{C0}' <= c <= '\U{C5}' then 'A'
    else if c == '\U{C7}' then 'C'
    else if '\U{C8}' <= c <= '\U{CB}' then 'E'
    else if '\U{CC}' <= c <= '\U{CF}' then 'I'
    else if c == '\U{D1}' then 'N'
    else if '\U{D2}' <= c <= '\U{D6}' then 'O'
    else if '\U{D9}' <= c <= '\U{DC}' then 'U'
    else if c == '\U{DD}' then 'Y'
    else if '\U{E0}' <= c <= '\U{E5}' then 'a'
    else if c == '\U{E7}' then 'c'
    else if '\U{E8}' <= c <= '\U{EB}' then 'e'
    else if '\U{EC}' <= c <= '\U{EF}' then 'i'
    else if c == '\U{F1}' then 'n'
    else if '\U{F2}' <= c <= '\U{F6}' then 'o'
    else if '\U{F9}' <= c <= '\U{FC}' then 'u'
    else if c == '\U{FD}' || c == '\U{FF}' then 'y'
    else c
  }

  /** The accent-free text: every character replaced by its base letter and every combining mark deleted. */
  function StripAccents(s: string): (r: string)
    ensures |r| <= |s|
    decreases |s|
  {
    if s == [] then []
    else if IsCombining(s[0]) then StripAccents(s[1..])
    else [BaseLetter(s[0])] + StripAccents(s[1..])
  }

  /** No combining mark and no accented letter. */
  predicate AccentFree(r: string) {
    forall i :: 0 <= i < |r| ==> !IsCombining(r[i]) && BaseLetter(r[i]) == r[i]
  }

  /** Nothing in the result carries an accent any more. */
  lemma {:induction false} StripAccentsLeavesNone(s: string)
    ensures AccentFree(StripAccents(s))
    decreases |s|
  {
    if s != [] {
      StripAccentsLeavesNone(s[1..]);
      var rest := StripAccents(s[1..]);
      assert AccentFree(rest);
      if !IsCombining(s[0]) {
        var b := BaseLetter(s[0]);
        assert !IsCombining(b) && BaseLetter(b) == b;
        var r := [b] + rest;
        forall i | 0 <= i < |r| ensures !IsCombining(r[i]) && BaseLetter(r[i]) == r[i] {
          if i > 0 {
            assert r[i] == rest[i - 1];
          }
        }
      }
    }
  }

  /** Accent-free text is left as it is. */
  lemma {:induction false} StripAccentsKeepsPlain(s: string)
    requires LettersAndSpace(s)
    ensures StripAccents(s) == s
    decreases |s|
  {
    if s != [] {
      StripAccentsKeepsPlain(s[1..]);
    }
  }

  /** Accent stripping works character by character. */
  lemma {:induction false} StripAccentsAppend(a: string, b: string)
    ensures StripAccents(a + b) == StripAccents(a) + StripAccents(b)
    decreases |a|
  {
    if a == [] {
      assert a + b == b;
    } else {
      assert (a + b)[0] == a[0] && (a + b)[1..] == a[1..] + b;
      StripAccentsAppend(a[1..], b);
    }
  }

  /** re.sub(r'[^a-zA-Z\s]', '', s): keeps exactly the ASCII letters and the whitespace. */
  function KeepLettersAndSpace(s: string): (r: string)
    ensures LettersAndSpace(r)
    ensures forall c :: IsAsciiLetter(c) || IsSpace(c) ==> multiset(r)[c] == multiset(s)[c]
    decreases |s|
  {
    if s == [] then []
    else
      var rest := KeepLettersAndSpace(s[1..]);
      assert s == [s[0]] + s[1..];
      if IsAsciiLetter(s[0]) || IsSpace(s[0]) then [s[0]] + rest else rest
  }

  /** On letters and whitespace, upper() yields a capital or leaves the whitespace. */
  lemma UpperLetterOrSpace(c: char)
    requires IsAsciiLetter(c) || IsSpace(c)
    ensures 'A' <= UpperChar(c) <= 'Z' || IsSpace(UpperChar(c))
    ensures IsSpace(UpperChar(c)) <==> IsSpace(c)
  {
  }

  /** A string of letters and whitespace keeps being one when characters are only kept or dropped. */
  predicate LettersAndSpace(s: string) {
    forall i :: 0 <= i < |s| ==> IsAsciiLetter(s[i]) || IsSpace(s[i])
  }

  /** A string of capitals and whitespace: the shape of every cleaned name. */
  predicate CapitalsAndSpace(s: string) {
    forall i :: 0 <= i < |s| ==> 'A' <= s[i] <= 'Z' || IsSpace(s[i])
  }

  /**
   * limpiar_nombre: only capitals A-Z and whitespace come out, with no
   * whitespace at either end, and a missing cell becomes "".
   */
  function CleanName(cell: Option<string>): (r: string)
    ensures CapitalsAndSpace(r) && Trimmed(r)
    ensures cell.None? ==> r == []
  {
    match cell
    case None => []
    case Some(text) => CleanText(text)
  }

  /** The cleaner on a present cell: the four rewrites in their order. */
  function CleanText(text: string): (r: string)
    ensures CapitalsAndSpace(r) && Trimmed(r)
  {
    var kept := KeepLettersAndSpace(StripAccents(DropAnnotations(text)));
    StripKeepsLetters(kept);
    UpperShape(Strip(kept));
    Upper(Strip(kept))
  }

  /** Trimming a string of letters and whitespace leaves letters and whitespace, with none at the ends. */
  lemma StripKeepsLetters(s: string)
    requires LettersAndSpace(s)
    ensures LettersAndSpace(Strip(s))
    ensures Trimmed(Strip(s))
  {
    StripSpec(s);
    var t := Strip(s);
    forall i | 0 <= i < |t| ensures IsAsciiLetter(t[i]) || IsSpace(t[i]) {
      assert t[i] in s;
    }
  }

  /** Upper-casing letters and whitespace gives capitals and whitespace, and keeps the ends non-blank. */
  lemma UpperShape(t: string)
    requires LettersAndSpace(t)
    requires Trimmed(t)
    ensures CapitalsAndSpace(Upper(t))
    ensures Trimmed(Upper(t))
  {
    var r := Upper(t);
    forall i | 0 <= i < |r| ensures 'A' <= r[i] <= 'Z' || IsSpace(r[i]) {
      UpperLetterOrSpace(t[i]);
    }
    if t != [] {
      UpperLetterOrSpace(t[0]);
      UpperLetterOrSpace(t[|t| - 1]);
    }
  }

  /** A cleaned name is a fixed point of every step of the cleaner. */
  lemma CleanTextFixes(r: string)
    requires CapitalsAndSpace(r) && Trimmed(r)
    ensures CleanText(r) == r
  {
    CapitalsAreLetters(r);
    NoAnnotations(r);
    StripAccentsKeepsPlain(r);
    KeepAllLetters(r);
    StripStripped(r);
    UpperFixesCapitals(r);
  }

  lemma CapitalsAreLetters(r: string)
    requires CapitalsAndSpace(r)
    ensures LettersAndSpace(r)
  {
  }

  /** Letters and whitespace contain no `(`, so there is nothing to cut out. */
  lemma NoAnnotations(r: string)
    requires LettersAndSpace(r)
    ensures DropAnnotations(r) == r
  {
    assert '(' !in r;
    DropAnnotationsPlainPrefix(r, []);
    assert r + [] == r;
  }

  /** upper() has nothing to change in capitals and whitespace. */
  lemma UpperFixesCapitals(r: string)
    requires CapitalsAndSpace(r)
    ensures Upper(r) == r
  {
  }

  /** Cleaning an already cleaned name changes nothing. */
  lemma CleanNameIdempotent(cell: Option<string>)
    ensures CleanName(Some(CleanName(cell))) == CleanName(cell)
  {
    CleanTextFixes(CleanName(cell));
  }

  /**
   * The filter works character by character and keeps the order: filtering
   * a concatenation is concatenating the filtered parts.
   */
  lemma {:induction false} KeepLettersAndSpaceAppend(a: string, b: string)
    ensures KeepLettersAndSpace(a + b) == KeepLettersAndSpace(a) + KeepLettersAndSpace(b)
    decreases |a|
  {
    if a == [] {
      assert a + b == b;
    } else {
      assert (a + b)[1..] == a[1..] + b;
      KeepLettersAndSpaceAppend(a[1..], b);
    }
  }

  /** A single character is kept exactly when it is an ASCII letter or whitespace. */
  lemma KeepLettersAndSpaceSingle(c: char)
    ensures KeepLettersAndSpace([c]) == if IsAsciiLetter(c) || IsSpace(c) then [c] else []
  {
    assert [c][1..] == [];
  }

  /** Filtering a string of letters and whitespace keeps it whole. */
  lemma {:induction false} KeepAllLetters(s: string)
    requires LettersAndSpace(s)
    ensures KeepLettersAndSpace(s) == s
    decreases |s|
  {
    if s != [] {
      KeepAllLetters(s[1..]);
    }
  }

  /**
   * What limpiar_nombre promises about annotations: a closed `(...)` after a
   * prefix without `(` contributes nothing to the cleaned name.
   */
  lemma AnnotationIgnored(pre: string, inner: string, post: string)
    requires '(' !in pre && ')' !in inner
    ensures CleanName(Some(pre + ['('] + inner + [')'] + post)) == CleanName(Some(pre + post))
  {
    AnnotationVanishes(pre, inner, post);
    DropAnnotationsPlainPrefix(pre, post);
  }

  /** A worked case: the annotation and the accents go, and the rest is upper-cased. */
  lemma CleanNameNunez(raw: string)
    requires raw == "N\U{FA}\U{F1}ez (3)"
    ensures CleanName(Some(raw)) == "NUNEZ"
  {
    var dropped := "N\U{FA}\U{F1}ez ";
    NunezAnnotationDropped(raw, dropped);
    var plain := "Nunez ";
    NunezAccentsStripped(dropped, plain);
    KeepAllLetters(plain);
    NunezTrimmedUpper(plain);
  }

  /** The first step of the worked case: the "(3)" annotation is cut out. */
  lemma NunezAnnotationDropped(raw: string, dropped: string)
    requires raw == "N\U{FA}\U{F1}ez (3)"
    requires dropped == "N\U{FA}\U{F1}ez "
    ensures DropAnnotations(raw) == dropped
  {
    assert raw == dropped + ['('] + "3" + [')'] + [];
    assert '(' !in dropped;
    assert ')' !in "3";
    AnnotationVanishes(dropped, "3", []);
    assert dropped + [] == dropped;
  }

  /** The second step: ú and ñ lose their accents. */
  lemma NunezAccentsStripped(dropped: string, plain: string)
    requires dropped == "N\U{FA}\U{F1}ez "
    requires plain == "Nunez "
    ensures StripAccents(dropped) == plain && LettersAndSpace(plain)
  {
    var head, tail := ['N', '\U{FA}', '\U{F1}'], "ez ";
    NunezHeadStripped();
    NunezTailKept(tail);
    assert dropped == head + tail;
    StripAccentsAppend(head, tail);
    assert plain == ['N', 'u', 'n'] + tail;
  }

  /** ú and ñ become u and n. */
  lemma NunezHeadStripped()
    ensures StripAccents(['N', '\U{FA}', '\U{F1}']) == ['N', 'u', 'n']
  {
  }

  /** Plain letters and spaces have no accents to lose. */
  lemma NunezTailKept(tail: string)
    requires tail == "ez "
    ensures StripAccents(tail) == tail && LettersAndSpace(tail)
  {
    assert LettersAndSpace(tail);
    StripAccentsKeepsPlain(tail);
  }

  /** The last step: the trailing space is trimmed and the letters are upper-cased. */
  lemma NunezTrimmedUpper(plain: string)
    requires plain == "Nunez "
    ensures Upper(Strip(plain)) == "NUNEZ"
  {
    assert SkipSpaces(plain, 0) == 0;
    assert SkipSpacesBack(plain, 0, |plain|) == 5;
    assert plain[0..5] == "Nunez";
  }
}
