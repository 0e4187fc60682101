/**
  The search-text normaliser of `GeoHelper::getSearch` (script.php:153-162):
  punctuation runs become one space, whitespace runs become one space, the
  non-breaking-space forms become a space, tags are stripped, the ends are
  trimmed.
*/
module Text {

  /** The Unicode classes `\w` and `\d` of the regular-expression engine and the
      per-character lower-casing of the string library. Nothing is assumed of
      them beyond `Valid`. */
  datatype CharClasses = CharClasses(isWord: char -> bool, isDigit: char -> bool, lower: char -> char)
  {
    /** Under Unicode rules neither `\w` nor `\d` holds of whitespace, NUL,
        the non-breaking space, `<` or `&`. */
    predicate Valid() {
      forall c :: IsNonWord(c) ==> !isWord(c) && !isDigit(c)
    }

    /** The characters the punctuation filter `[\d\w\- ]` keeps. */
    predicate Kept(c: char) {
      isDigit(c) || isWord(c) || c == '-' || c == ' '
    }

    /** The kept characters other than the space: those words are made of. */
    predicate InWord(c: char) {
      Kept(c) && c != ' '
    }
  }

  const Nbsp: char := '\U{00A0}'

  predicate IsNonWord(c: char) {
    c == ' ' || c == '\t' || c == '\n' || c == '\U{000B}' || c == '\U{000C}' || c == '\r'
    || c == '\0' || c == Nbsp || c == '<' || c == '&'
  }

  /** `\s` without the Unicode flag: the ASCII whitespace characters. */
  predicate IsSpace(c: char) {
    c == ' ' || c == '\t' || c == '\n' || c == '\U{000B}' || c == '\U{000C}' || c == '\r'
  }

  /** The characters `trim` removes by default. */
  predicate IsTrimmed(c: char) {
    c == ' ' || c == '\t' || c == '\n' || c == '\r' || c == '\0' || c == '\U{000B}'
  }

  /** A kept character that is whitespace, trimmed or markup is a plain space. */
  lemma KeptIsPlain(cc: CharClasses, c: char)
    requires cc.Valid() && cc.Kept(c)
    ensures IsSpace(c) ==> c == ' '
    ensures IsTrimmed(c) ==> c == ' '
    ensures c != '<' && c != '\0' && c != Nbsp && c != '&'
  {
  }

  /** No two neighbouring characters are both spaces. */
  predicate SingleSpaced(t: string) {
    forall i :: 0 <= i < |t| - 1 ==> t[i] != ' ' || t[i + 1] != ' '
  }

  /** What the normaliser produces: kept characters only, single spaces, no
      space at either end. */
  predicate Normalized(cc: CharClasses, t: string) {
    && (forall i :: 0 <= i < |t| ==> cc.Kept(t[i]))
    && SingleSpaced(t)
    && (t != [] ==> t[0] != ' ' && t[|t| - 1] != ' ')
  }

  /** The word characters, digits and hyphens of `s`, in order: what the
      normaliser must never lose. */
  function Solid(cc: CharClasses, s: string): string
    decreases |s|
  {
    if s == [] then []
    else (if cc.InWord(s[0]) then [s[0]] else []) + Solid(cc, s[1..])
  }

  /** The characters of `s` that are not whitespace, in order. */
  function NonSpace(s: string): string
    decreases |s|
  {
    if s == [] then []
    else (if IsSpace(s[0]) then [] else [s[0]]) + NonSpace(s[1..])
  }

  /** `preg_replace("/[^\d\w\- ]+/ui", ' ', s)`: every maximal run of characters
      outside the kept class becomes one space; `inRun` says a run is open. */
  function StripPunctuation(cc: CharClasses, s: string, inRun: bool): (r: string)
    ensures forall i :: 0 <= i < |r| ==> cc.Kept(r[i])
    ensures Solid(cc, r) == Solid(cc, s)
    decreases |s|
  {
    if s == [] then []
    else if cc.Kept(s[0]) then [s[0]] + StripPunctuation(cc, s[1..], false)
    else if inRun then StripPunctuation(cc, s[1..], true)
    else [' '] + StripPunctuation(cc, s[1..], true)
  }

  /** `preg_replace('/\s+/i', ' ', s)`: every maximal whitespace run becomes one
      space; `inRun` says a run is open. */
  function CollapseWhitespace(s: string, inRun: bool): (r: string)
    ensures forall i :: 0 <= i < |r| ==> r[i] == ' ' || (!IsSpace(r[i]) && r[i] in s)
    ensures NonSpace(r) == NonSpace(s)
    ensures SingleSpaced(r)
    ensures inRun && r != [] ==> r[0] != ' '
    decreases |s|
  {
    if s == [] then []
    else if !IsSpace(s[0]) then [s[0]] + CollapseWhitespace(s[1..], false)
    else if inRun then CollapseWhitespace(s[1..], true)
    else [' '] + CollapseWhitespace(s[1..], true)
  }

  /** `str_replace(pat, rep, s)`: occurrences of `pat` are replaced left to
      right without overlap. */
  function ReplaceAll(s: string, pat: string, rep: string): (r: string)
    requires pat != []
    ensures forall c :: c in r ==> c in s || c in rep
    ensures |pat| == 1 && pat[0] !in rep ==> pat[0] !in r
    decreases |s|
  {
    if |s| < |pat| then s
    else if pat <= s then rep + ReplaceAll(s[|pat|..], pat, rep)
    else [s[0]] + ReplaceAll(s[1..], pat, rep)
  }

  /** `str_replace([NBSP, '&nbsp;', '&amp;nbsp;'], ' ', s)`: the three searches
      are applied one after the other to the whole string. */
  function ReplaceNbsp(s: string): (r: string)
    ensures Nbsp !in r
    ensures forall c :: c in r ==> c in s || c == ' '
  {
    ReplaceAll(ReplaceAll(ReplaceAll(s, [Nbsp], " "), "&nbsp;", " "), "&amp;nbsp;", " ")
  }

  /** A string in which `strip_tags` finds neither a tag opening nor a NUL. */
  predicate TagFree(s: string) {
    '<' !in s && '\0' !in s
  }

  /** `strip_tags` on a string without `<` and NUL, where it removes nothing. */
  function StripTags(s: string): string
    requires TagFree(s)
  {
    s
  }

  /** Every character of `x` is one `trim` removes. */
  predicate AllTrimmed(x: string) {
    forall i :: 0 <= i < |x| ==> IsTrimmed(x[i])
  }

  /** `ltrim(s)`: drops the leading trimmed characters, and only those. */
  function TrimLeft(s: string): (r: string)
    ensures |r| <= |s| && r == s[|s| - |r|..]
    ensures r != [] ==> !IsTrimmed(r[0])
    ensures s != [] && !IsTrimmed(s[0]) ==> r == s
    decreases |s|
  {
    if s != [] && IsTrimmed(s[0]) then
      TrimLeft(s[1..])
    else s
  }

  /** `rtrim(s)`: drops the trailing trimmed characters, and only those. */
  function TrimRight(s: string): (r: string)
    ensures |r| <= |s| && r == s[..|r|]
    ensures r != [] ==> !IsTrimmed(r[|r| - 1])
    ensures s != [] && !IsTrimmed(s[|s| - 1]) ==> r == s
    decreases |s|
  {
    if s != [] && IsTrimmed(s[|s| - 1]) then
      TrimRight(s[..|s| - 1])
    else s
  }

  /** `trim(s)`: the longest middle part of `s` with no trimmed character at
      either end; everything cut off on either side is a trimmed character. */
  function Trim(s: string): (r: string)
    ensures |r| <= |TrimLeft(s)| && r == TrimLeft(s)[..|r|]
    ensures r != [] ==> !IsTrimmed(r[0]) && !IsTrimmed(r[|r| - 1])
    ensures s != [] && !IsTrimmed(s[0]) && !IsTrimmed(s[|s| - 1]) ==> r == s
  {
    var l := TrimLeft(s);
    var r := TrimRight(l);
    assert r != [] ==> r[0] == l[0];
    r
  }

  /** `ltrim` cuts off trimmed characters only. */
  lemma {:induction false} TrimLeftCutsOnlyTrimmed(s: string)
    ensures AllTrimmed(s[..|s| - |TrimLeft(s)|])
    decreases |s|
  {
    if s != [] && IsTrimmed(s[0]) {
      var n := |s| - |TrimLeft(s)|;
      TrimLeftCutsOnlyTrimmed(s[1..]);
      assert s[..n] == [s[0]] + s[1..][..n - 1];
    }
  }

  /** `rtrim` cuts off trimmed characters only. */
  lemma {:induction false} TrimRightCutsOnlyTrimmed(s: string)
    ensures AllTrimmed(s[|TrimRight(s)|..])
    decreases |s|
  {
    if s != [] && IsTrimmed(s[|s| - 1]) {
      var n := |TrimRight(s)|;
      TrimRightCutsOnlyTrimmed(s[..|s| - 1]);
      assert s[n..] == s[..|s| - 1][n..] + [s[|s| - 1]];
    }
  }

  /** What `trim` cuts off at either end consists of trimmed characters only. */
  lemma TrimCutsOnlyTrimmed(s: string)
    ensures AllTrimmed(s[..|s| - |TrimLeft(s)|])
    ensures AllTrimmed(s[|s| - |TrimLeft(s)| + |Trim(s)|..])
  {
    var l := TrimLeft(s);
    var r := TrimRight(l);
    TrimLeftCutsOnlyTrimmed(s);
    TrimRightCutsOnlyTrimmed(l);
    assert l[|r|..] == s[|s| - |l| + |r|..];
  }

  /** Lines 155 and 156 of `getSearch`. */
  function Squeeze(cc: CharClasses, s: string): (r: string)
    requires cc.Valid()
    ensures forall i :: 0 <= i < |r| ==> cc.Kept(r[i])
    ensures SingleSpaced(r)
    ensures Solid(cc, r) == Solid(cc, s)
    ensures Words(cc, r) == Words(cc, s)
  {
    var a := StripPunctuation(cc, s, false);
    var b := CollapseWhitespace(a, false);
    assert forall c :: c in a ==> cc.Kept(c);
    SolidIsNonSpace(cc, a);
    SolidIsNonSpace(cc, b);
    StripPunctuationWords(cc, s, false, []);
    CollapseWhitespaceWords(cc, a, false, []);
    b
  }

  /** On kept text the only whitespace is the plain space, so its solid part
      is its non-whitespace part. */
  lemma {:induction false} SolidIsNonSpace(cc: CharClasses, t: string)
    requires cc.Valid()
    requires forall i :: 0 <= i < |t| ==> cc.Kept(t[i])
    ensures Solid(cc, t) == NonSpace(t)
    decreases |t|
  {
    if t != [] {
      KeptIsPlain(cc, t[0]);
      SolidIsNonSpace(cc, t[1..]);
    }
  }

  /** A slice of a single-spaced string of kept characters is one too. */
  lemma SliceKeeps(cc: CharClasses, b: string, r: string, lo: nat)
    requires lo + |r| <= |b|
    requires forall i :: 0 <= i < |r| ==> r[i] == b[lo + i]
    requires forall i :: 0 <= i < |b| ==> cc.Kept(b[i])
    requires SingleSpaced(b)
    ensures forall i :: 0 <= i < |r| ==> cc.Kept(r[i])
    ensures SingleSpaced(r)
  {
    forall i | 0 <= i < |r| - 1 ensures r[i] != ' ' || r[i + 1] != ' ' {
      assert r[i] == b[lo + i] && r[i + 1] == b[lo + i + 1];
    }
  }

  /** Trimming the front keeps a string single-spaced and made of kept
      characters. */
  lemma TrimLeftKeeps(cc: CharClasses, b: string)
    requires forall i :: 0 <= i < |b| ==> cc.Kept(b[i])
    requires SingleSpaced(b)
    ensures forall i :: 0 <= i < |TrimLeft(b)| ==> cc.Kept(TrimLeft(b)[i])
    ensures SingleSpaced(TrimLeft(b))
  {
    var l := TrimLeft(b);
    var k := |b| - |l|;
    forall i | 0 <= i < |l| ensures l[i] == b[k + i] {
      assert l[i] == b[k..][i];
    }
    SliceKeeps(cc, b, l, k);
  }

  /** Trimming the back keeps a string single-spaced and made of kept
      characters. */
  lemma TrimRightKeeps(cc: CharClasses, b: string)
    requires forall i :: 0 <= i < |b| ==> cc.Kept(b[i])
    requires SingleSpaced(b)
    ensures forall i :: 0 <= i < |TrimRight(b)| ==> cc.Kept(TrimRight(b)[i])
    ensures SingleSpaced(TrimRight(b))
  {
    var r := TrimRight(b);
    forall i | 0 <= i < |r| ensures r[i] == b[i] {
      assert r[i] == b[..|r|][i];
    }
    SliceKeeps(cc, b, r, 0);
  }

  /** Trimming a single-spaced string of kept characters puts it in normal form. */
  lemma TrimNormalizes(cc: CharClasses, b: string)
    requires cc.Valid()
    requires forall i :: 0 <= i < |b| ==> cc.Kept(b[i])
    requires SingleSpaced(b)
    ensures Normalized(cc, Trim(b))
  {
    TrimLeftKeeps(cc, b);
    TrimRightKeeps(cc, TrimLeft(b));
  }

  /** Kept characters never open a tag and are never NUL. */
  lemma KeptIsTagFree(cc: CharClasses, b: string)
    requires cc.Valid()
    requires forall i :: 0 <= i < |b| ==> cc.Kept(b[i])
    ensures TagFree(b)
  {
    forall i | 0 <= i < |b| ensures b[i] != '<' && b[i] != '\0' {
      KeptIsPlain(cc, b[i]);
    }
  }

  /** `getSearch`: the whole chain of rewrites on the raw search text. */
  function Normalize(cc: CharClasses, s: string): (r: string)
    requires cc.Valid()
    ensures Normalized(cc, r)
    ensures Words(cc, r) == Words(cc, s)
    ensures r == JoinWords(Words(cc, s))
  {
    var b := Squeeze(cc, s);
    NbspAbsent(cc, b);
    KeptIsTagFree(cc, b);
    TrimNormalizes(cc, b);
    WordsOfTrim(cc, b);
    NormalizedIsJoinedWords(cc, Trim(b));
    Trim(StripTags(ReplaceNbsp(ReplaceNbsp(b))))
  }

  /** A search that no character of `s` starts is never found. */
  lemma {:induction false} ReplaceAllAbsent(s: string, pat: string, rep: string)
    requires pat != [] && pat[0] !in s
    ensures ReplaceAll(s, pat, rep) == s
    decreases |s|
  {
    if |s| >= |pat| {
      assert s[0] in s;
      assert !(pat <= s);
      assert forall c :: c in s[1..] ==> c in s;
      ReplaceAllAbsent(s[1..], pat, rep);
    }
  }

  /** After the punctuation filter no non-breaking space and no `&` is left, so
      the replacements of lines 157 and 158 change nothing. */
  lemma NbspAbsent(cc: CharClasses, b: string)
    requires cc.Valid()
    requires forall i :: 0 <= i < |b| ==> cc.Kept(b[i])
    ensures ReplaceNbsp(b) == b
  {
    assert Nbsp !in b && '&' !in b by {
      forall i | 0 <= i < |b| ensures b[i] != Nbsp && b[i] != '&' {
        KeptIsPlain(cc, b[i]);
      }
    }
    ReplaceAllAbsent(b, [Nbsp], " ");
    ReplaceAllAbsent(b, "&nbsp;", " ");
    ReplaceAllAbsent(b, "&amp;nbsp;", " ");
  }

  /** Lines 157 to 159 of `getSearch` are no-ops: normalising is trimming the
      result of the two regular-expression replacements. */
  lemma EntityAndTagStepsAreNoOps(cc: CharClasses, s: string)
    requires cc.Valid()
    ensures Normalize(cc, s) == Trim(CollapseWhitespace(StripPunctuation(cc, s, false), false))
  {
    NbspAbsent(cc, Squeeze(cc, s));
  }

  lemma {:induction false} StripPunctuationKeeps(cc: CharClasses, t: string, inRun: bool)
    requires forall i :: 0 <= i < |t| ==> cc.Kept(t[i])
    ensures StripPunctuation(cc, t, inRun) == t
    decreases |t|
  {
    if t != [] {
      assert cc.Kept(t[0]);
      StripPunctuationKeeps(cc, t[1..], false);
    }
  }

  lemma {:induction false} CollapseWhitespaceKeeps(t: string, inRun: bool)
    requires forall i :: 0 <= i < |t| ==> IsSpace(t[i]) ==> t[i] == ' '
    requires SingleSpaced(t)
    requires inRun && t != [] ==> !IsSpace(t[0])
    ensures CollapseWhitespace(t, inRun) == t
    decreases |t|
  {
    if t != [] {
      if IsSpace(t[0]) {
        assert |t| > 1 ==> t[1] != ' ';
        CollapseWhitespaceKeeps(t[1..], true);
      } else {
        CollapseWhitespaceKeeps(t[1..], false);
      }
    }
  }

  /** Normalising text that is already in normal form returns it unchanged. */
  lemma NormalizeFixesNormalized(cc: CharClasses, t: string)
    requires cc.Valid() && Normalized(cc, t)
    ensures Normalize(cc, t) == t
  {
    forall i | 0 <= i < |t| ensures IsSpace(t[i]) ==> t[i] == ' ' {
      KeptIsPlain(cc, t[i]);
    }
    StripPunctuationKeeps(cc, t, false);
    CollapseWhitespaceKeeps(t, false);
    if t != [] {
      KeptIsPlain(cc, t[0]);
      KeptIsPlain(cc, t[|t| - 1]);
    }
    EntityAndTagStepsAreNoOps(cc, t);
  }

  lemma {:induction false} SolidAppend(cc: CharClasses, x: string, y: string)
    ensures Solid(cc, x + y) == Solid(cc, x) + Solid(cc, y)
    decreases |x|
  {
    if x == [] {
      assert x + y == y;
    } else {
      assert (x + y)[0] == x[0] && (x + y)[1..] == x[1..] + y;
      SolidAppend(cc, x[1..], y);
    }
  }

  lemma {:induction false} SolidOfTrimmed(cc: CharClasses, x: string)
    requires cc.Valid()
    requires AllTrimmed(x)
    ensures Solid(cc, x) == []
    decreases |x|
  {
    if x != [] {
      assert IsNonWord(x[0]);
      assert !cc.InWord(x[0]);
      assert AllTrimmed(x[1..]) by {
        forall i | 0 <= i < |x[1..]| ensures IsTrimmed(x[1..][i]) {
          assert x[1..][i] == x[i + 1];
        }
      }
      SolidOfTrimmed(cc, x[1..]);
    }
  }

  lemma SolidOfTrimLeft(cc: CharClasses, b: string)
    requires cc.Valid()
    ensures Solid(cc, TrimLeft(b)) == Solid(cc, b)
  {
    var l := TrimLeft(b);
    var x := b[..|b| - |l|];
    assert b == x + l;
    SolidAppend(cc, x, l);
    TrimLeftCutsOnlyTrimmed(b);
    SolidOfTrimmed(cc, x);
  }

  lemma SolidOfTrimRight(cc: CharClasses, b: string)
    requires cc.Valid()
    ensures Solid(cc, TrimRight(b)) == Solid(cc, b)
  {
    var r := TrimRight(b);
    var z := b[|r|..];
    assert b == r + z;
    SolidAppend(cc, r, z);
    TrimRightCutsOnlyTrimmed(b);
    SolidOfTrimmed(cc, z);
  }

  /** Trimming removes only whitespace, so it keeps the solid part. */
  lemma SolidOfTrim(cc: CharClasses, b: string)
    requires cc.Valid()
    ensures Solid(cc, Trim(b)) == Solid(cc, b)
  {
    SolidOfTrimLeft(cc, b);
    SolidOfTrimRight(cc, TrimLeft(b));
  }

  /** Normalising loses no word character, digit or hyphen and reorders none:
      only punctuation and whitespace are rewritten. */
  lemma NormalizeKeepsSolid(cc: CharClasses, s: string)
    requires cc.Valid()
    ensures Solid(cc, Normalize(cc, s)) == Solid(cc, s)
  {
    EntityAndTagStepsAreNoOps(cc, s);
    SolidOfTrim(cc, Squeeze(cc, s));
  }

  /** Normalising twice is normalising once. */
  lemma NormalizeIdempotent(cc: CharClasses, s: string)
    requires cc.Valid()
    ensures Normalize(cc, Normalize(cc, s)) == Normalize(cc, s)
  {
    NormalizeFixesNormalized(cc, Normalize(cc, s));
  }

  lemma {:induction false} StripPunctuationOfNoise(cc: CharClasses, s: string, inRun: bool)
    requires forall i :: 0 <= i < |s| ==> !cc.isWord(s[i]) && !cc.isDigit(s[i]) && s[i] != '-'
    ensures forall i :: 0 <= i < |StripPunctuation(cc, s, inRun)| ==> StripPunctuation(cc, s, inRun)[i] == ' '
    decreases |s|
  {
    if s != [] {
      StripPunctuationOfNoise(cc, s[1..], !cc.Kept(s[0]));
    }
  }

  lemma {:induction false} TrimLeftOfSpaces(b: string)
    requires forall i :: 0 <= i < |b| ==> b[i] == ' '
    ensures TrimLeft(b) == ""
    decreases |b|
  {
    if b != [] {
      TrimLeftOfSpaces(b[1..]);
    }
  }

  /** Text without any word character (letter, digit or underscore) and
      without a hyphen (empty text, punctuation and spaces only) normalises to
      the empty string. */
  lemma NoiseNormalizesToEmpty(cc: CharClasses, s: string)
    requires cc.Valid()
    requires forall i :: 0 <= i < |s| ==> !cc.isWord(s[i]) && !cc.isDigit(s[i]) && s[i] != '-'
    ensures Normalize(cc, s) == ""
  {
    var a := StripPunctuation(cc, s, false);
    StripPunctuationOfNoise(cc, s, false);
    assert forall c :: c in a ==> c == ' ';
    var b := CollapseWhitespace(a, false);
    TrimLeftOfSpaces(b);
    EntityAndTagStepsAreNoOps(cc, s);
  }

  /* Words. A word is a maximal run of in-word characters; everything else
     (spaces, punctuation, other whitespace) only separates words. */

  /** The words of `s`, in order. */
  function Words(cc: CharClasses, s: string): seq<string> {
    WordsFrom(cc, s, [])
  }

  /** The words of `cur + s`, where `cur` is the part of a word read so far. */
  function WordsFrom(cc: CharClasses, s: string, cur: string): seq<string>
    decreases |s|
  {
    if s == [] then Flush(cur)
    else if cc.InWord(s[0]) then WordsFrom(cc, s[1..], cur + [s[0]])
    else Flush(cur) + WordsFrom(cc, s[1..], [])
  }

  /** The word read so far, if it has begun. */
  function Flush(cur: string): seq<string> {
    if cur == [] then [] else [cur]
  }

  /** The words joined by single spaces. */
  function JoinWords(ws: seq<string>): string {
    if ws == [] then []
    else if |ws| == 1 then ws[0]
    else ws[0] + " " + JoinWords(ws[1..])
  }

  /** A character that `trim` removes is never part of a word. */
  lemma TrimmedIsNotInWord(cc: CharClasses, c: char)
    requires cc.Valid() && IsTrimmed(c)
    ensures !cc.InWord(c)
  {
    assert IsNonWord(c);
  }

  /** Line 155 keeps the words: punctuation only separates words, and what
      replaces it separates the words around it exactly as it did. */
  lemma {:induction false} StripPunctuationWords(cc: CharClasses, s: string, inRun: bool, cur: string)
    requires inRun ==> cur == []
    ensures WordsFrom(cc, StripPunctuation(cc, s, inRun), cur) == WordsFrom(cc, s, cur)
    decreases |s|
  {
    if s != [] {
      var c, rest := s[0], s[1..];
      if cc.Kept(c) {
        var o := StripPunctuation(cc, rest, false);
        assert ([c] + o)[0] == c && ([c] + o)[1..] == o;
        if cc.InWord(c) {
          StripPunctuationWords(cc, rest, false, cur + [c]);
        } else {
          StripPunctuationWords(cc, rest, false, []);
        }
      } else if inRun {
        StripPunctuationWords(cc, rest, true, []);
        assert Flush(cur) + WordsFrom(cc, rest, []) == WordsFrom(cc, rest, []);
      } else {
        var o := StripPunctuation(cc, rest, true);
        assert ([' '] + o)[0] == ' ' && ([' '] + o)[1..] == o;
        StripPunctuationWords(cc, rest, true, []);
      }
    }
  }

  /** Line 156 keeps the words: whitespace only separates words, and what
      replaces it separates the words around it exactly as it did. */
  lemma {:induction false} CollapseWhitespaceWords(cc: CharClasses, t: string, inRun: bool, cur: string)
    requires cc.Valid()
    requires inRun ==> cur == []
    ensures WordsFrom(cc, CollapseWhitespace(t, inRun), cur) == WordsFrom(cc, t, cur)
    decreases |t|
  {
    if t != [] {
      var c, rest := t[0], t[1..];
      if !IsSpace(c) {
        var o := CollapseWhitespace(rest, false);
        assert ([c] + o)[0] == c && ([c] + o)[1..] == o;
        if cc.InWord(c) {
          CollapseWhitespaceWords(cc, rest, false, cur + [c]);
        } else {
          CollapseWhitespaceWords(cc, rest, false, []);
        }
      } else {
        assert IsNonWord(c);
        if inRun {
          CollapseWhitespaceWords(cc, rest, true, []);
          assert Flush(cur) + WordsFrom(cc, rest, []) == WordsFrom(cc, rest, []);
        } else {
          var o := CollapseWhitespace(rest, true);
          assert ([' '] + o)[0] == ' ' && ([' '] + o)[1..] == o;
          CollapseWhitespaceWords(cc, rest, true, []);
        }
      }
    }
  }

  /** Trimmed characters in front of a string add no word. */
  lemma {:induction false} WordsDropLeading(cc: CharClasses, x: string, l: string)
    requires cc.Valid() && AllTrimmed(x)
    ensures WordsFrom(cc, x + l, []) == WordsFrom(cc, l, [])
    decreases |x|
  {
    if x == [] {
      assert x + l == l;
    } else {
      TrimmedIsNotInWord(cc, x[0]);
      assert (x + l)[0] == x[0] && (x + l)[1..] == x[1..] + l;
      assert AllTrimmed(x[1..]) by {
        forall i | 0 <= i < |x[1..]| ensures IsTrimmed(x[1..][i]) {
          assert x[1..][i] == x[i + 1];
        }
      }
      WordsDropLeading(cc, x[1..], l);
    }
  }

  /** A string of trimmed characters only ends the word being read. */
  lemma {:induction false} WordsOfTrimmed(cc: CharClasses, z: string, cur: string)
    requires cc.Valid() && AllTrimmed(z)
    ensures WordsFrom(cc, z, cur) == Flush(cur)
    decreases |z|
  {
    if z != [] {
      TrimmedIsNotInWord(cc, z[0]);
      assert AllTrimmed(z[1..]) by {
        forall i | 0 <= i < |z[1..]| ensures IsTrimmed(z[1..][i]) {
          assert z[1..][i] == z[i + 1];
        }
      }
      WordsOfTrimmed(cc, z[1..], []);
      assert Flush(cur) + Flush([]) == Flush(cur);
    }
  }

  /** Trimmed characters after a string add no word. */
  lemma {:induction false} WordsDropTrailing(cc: CharClasses, r: string, z: string, cur: string)
    requires cc.Valid() && AllTrimmed(z)
    ensures WordsFrom(cc, r + z, cur) == WordsFrom(cc, r, cur)
    decreases |r|
  {
    if r == [] {
      assert r + z == z;
      WordsOfTrimmed(cc, z, cur);
    } else {
      assert (r + z)[0] == r[0] && (r + z)[1..] == r[1..] + z;
      if cc.InWord(r[0]) {
        WordsDropTrailing(cc, r[1..], z, cur + [r[0]]);
      } else {
        WordsDropTrailing(cc, r[1..], z, []);
      }
    }
  }

  lemma WordsOfTrimLeft(cc: CharClasses, s: string)
    requires cc.Valid()
    ensures Words(cc, TrimLeft(s)) == Words(cc, s)
  {
    var l := TrimLeft(s);
    var x := s[..|s| - |l|];
    assert s == x + l;
    TrimLeftCutsOnlyTrimmed(s);
    WordsDropLeading(cc, x, l);
  }

  lemma WordsOfTrimRight(cc: CharClasses, s: string)
    requires cc.Valid()
    ensures Words(cc, TrimRight(s)) == Words(cc, s)
  {
    var r := TrimRight(s);
    var z := s[|r|..];
    assert s == r + z;
    TrimRightCutsOnlyTrimmed(s);
    WordsDropTrailing(cc, r, z, []);
  }

  /** Line 161 keeps the words: `trim` removes separators only. */
  lemma WordsOfTrim(cc: CharClasses, s: string)
    requires cc.Valid()
    ensures Words(cc, Trim(s)) == Words(cc, s)
  {
    WordsOfTrimLeft(cc, s);
    WordsOfTrimRight(cc, TrimLeft(s));
  }

  /** Once a word has begun, there is at least one word. */
  lemma {:induction false} WordsFromBegun(cc: CharClasses, s: string, cur: string)
    requires cur != []
    ensures WordsFrom(cc, s, cur) != []
    decreases |s|
  {
    if s != [] && cc.InWord(s[0]) {
      WordsFromBegun(cc, s[1..], cur + [s[0]]);
    }
  }

  /** A tail of normal-form text, read after the word part `cur`, is `cur`
      and the rest of the words joined by single spaces. */
  lemma {:induction false} JoinWordsFrom(cc: CharClasses, t: string, cur: string)
    requires forall i :: 0 <= i < |t| ==> cc.Kept(t[i])
    requires SingleSpaced(t)
    requires t != [] ==> t[|t| - 1] != ' '
    requires t != [] && t[0] == ' ' ==> cur != []
    ensures cur + t == JoinWords(WordsFrom(cc, t, cur))
    decreases |t|
  {
    if t == [] {
      assert cur + t == cur;
    } else {
      var rest := t[1..];
      assert forall i :: 0 <= i < |rest| ==> rest[i] == t[i + 1];
      if cc.InWord(t[0]) {
        JoinWordsFrom(cc, rest, cur + [t[0]]);
        assert cur + t == (cur + [t[0]]) + rest;
      } else {
        var ws := WordsFrom(cc, rest, []);
        assert cc.InWord(rest[0]);
        JoinWordsFrom(cc, rest, []);
        WordsFromBegun(cc, rest[1..], [rest[0]]);
        assert ([cur] + ws)[1..] == ws;
        assert cur + t == cur + " " + rest;
      }
    }
  }

  /** Text in normal form is its own words joined by single spaces. */
  lemma NormalizedIsJoinedWords(cc: CharClasses, t: string)
    requires Normalized(cc, t)
    ensures t == JoinWords(Words(cc, t))
  {
    JoinWordsFrom(cc, t, []);
    assert [] + t == t;
  }
}
