/** The name filter of the segment search. The search text is escaped before
    it becomes a case-insensitive regular expression, so it matches as a
    literal substring, with letters compared regardless of case. */
module NameSearch {
  import opened Wrappers

  /** ASCII case folding: upper-case letters map to lower case. */
  function Fold(c: char): (f: char)
    ensures 'A' <= c <= 'Z' ==> 'a' <= f <= 'z' && f as int - c as int == 32
    ensures !('A' <= c <= 'Z') ==> f == c
  {
    if 'A' <= c <= 'Z' then (c as int + 32) as char else c
  }

  /** `needle` occurs in `hay` at position `i`, ignoring case. */
  ghost predicate OccursAt(needle: string, hay: string, i: int)
  {
    0 <= i && i + |needle| <= |hay| &&
    forall j :: 0 <= j < |needle| ==> Fold(hay[i + j]) == Fold(needle[j])
  }

  /** `needle` is a prefix of `hay`, ignoring case. */
  predicate PrefixIgnoringCase(needle: string, hay: string)
    ensures PrefixIgnoringCase(needle, hay) <==> OccursAt(needle, hay, 0)
  {
    |needle| <= |hay| &&
    (|needle| == 0 || (Fold(needle[0]) == Fold(hay[0]) && PrefixIgnoringCase(needle[1..], hay[1..])))
  }

  /** The search a literal, case-insensitive pattern performs: try every
      start position from left to right. */
  predicate ContainsIgnoringCase(needle: string, hay: string)
    ensures ContainsIgnoringCase(needle, hay) <==> exists i :: OccursAt(needle, hay, i)
    decreases |hay|
  {
    if PrefixIgnoringCase(needle, hay) then true
    else if |needle| < |hay| then
      OccursInTail(needle, hay);
      ContainsIgnoringCase(needle, hay[1..])
    else false
  }

  /** An occurrence past the first position is an occurrence in the tail. */
  lemma OccursInTail(needle: string, hay: string)
    requires 0 < |hay|
    ensures forall i :: 1 <= i ==> (OccursAt(needle, hay, i) <==> OccursAt(needle, hay[1..], i - 1))
    ensures forall k :: 0 <= k ==> (OccursAt(needle, hay[1..], k) <==> OccursAt(needle, hay, k + 1))
  {
    forall k | 0 <= k
      ensures OccursAt(needle, hay[1..], k) <==> OccursAt(needle, hay, k + 1)
    {
      if OccursAt(needle, hay[1..], k) {
        forall j | 0 <= j < |needle|
          ensures Fold(hay[k + 1 + j]) == Fold(needle[j])
        {
          assert hay[1..][k + j] == hay[k + 1 + j];
        }
      }
    }
  }

  /** The name filter: an absent or empty search text adds no filter and
      keeps every name; otherwise the name must contain the text. */
  predicate NameMatches(nameSearch: Option<string>, name: string)
  {
    match nameSearch
    case None => true
    case Some(text) => |text| == 0 || ContainsIgnoringCase(text, name)
  }

  /** A name passes the filter exactly when there is no search text or the
      text occurs somewhere in the name, letters compared ignoring case. */
  lemma NameMatchesIffOccurs(nameSearch: Option<string>, name: string)
    ensures NameMatches(nameSearch, name) <==>
      nameSearch.None? || |nameSearch.value| == 0 || exists i :: OccursAt(nameSearch.value, name, i)
  {
    if nameSearch.Some? && |nameSearch.value| > 0 {
      assert NameMatches(nameSearch, name) == ContainsIgnoringCase(nameSearch.value, name);
    }
  }
}
