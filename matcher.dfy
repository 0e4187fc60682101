/**
  The key scan of `GeoHelper::tryFindGeo` (script.php:118-148): the search text
  and every key are lower-cased, and the first key in table order that occurs
  in the text wins.
*/
module Matcher {
  import opened Wrappers
  import opened Dictionary

  /** `Str::lower`, one character at a time. */
  function Lower(lower: char -> char, s: string): string {
    seq(|s|, i requires 0 <= i < |s| => lower(s[i]))
  }

  /** `Str::contains(hay, needle)`: `needle` occurs somewhere in `hay`. An empty
      needle is never contained. */
  predicate Contains(hay: string, needle: string): (r: bool)
    ensures r ==> 0 < |needle| <= |hay|
  {
    needle != [] && exists i :: 0 <= i <= |hay| - |needle| && needle <= hay[i..]
  }

  /** The lower-cased `key` occurs in the already lower-cased `text`. */
  predicate Hits(lower: char -> char, text: string, key: string) {
    Contains(text, Lower(lower, key))
  }

  /** The position of the first key of `t` that hits `text`, if any. */
  function FirstHit(lower: char -> char, text: string, t: Table): (r: Option<nat>)
    ensures r.Some? ==> r.value < |t| && Hits(lower, text, t[r.value].0) && t[r.value].0 != ""
    ensures r.Some? ==> forall j :: 0 <= j < r.value ==> !Hits(lower, text, t[j].0)
    ensures r.None? <==> forall j :: 0 <= j < |t| ==> !Hits(lower, text, t[j].0)
  {
    if t == [] then None
    else if Hits(lower, text, t[0].0) then Some(0)
    else match FirstHit(lower, text, t[1..])
      case Some(i) => Some(i + 1)
      case None => None
  }

  /** Lower-casing is done character by character, so an occurrence of a key
      in the text is still an occurrence once both are lower-cased. */
  lemma LowerKeepsContains(lower: char -> char, hay: string, needle: string)
    requires Contains(hay, needle)
    ensures Contains(Lower(lower, hay), Lower(lower, needle))
  {
    var i :| 0 <= i <= |hay| - |needle| && needle <= hay[i..];
    var h, n := Lower(lower, hay), Lower(lower, needle);
    assert n <= h[i..] by {
      forall j | 0 <= j < |n| ensures n[j] == h[i..][j] {
        assert needle[j] == hay[i + j];
      }
    }
  }

  /** A key occurring at a known position of the text is contained in it,
      whatever surrounds it: matching needs no word boundary. */
  lemma ContainsAt(hay: string, needle: string, i: nat)
    requires needle != [] && i + |needle| <= |hay| && hay[i..i + |needle|] == needle
    ensures Contains(hay, needle)
  {
    assert needle <= hay[i..];
  }
}
