/** String matching used by the book search: lower-casing and substring containment
    (Python's `str.lower()` and the `in` operator on strings). */
module Text {

  /** Upper-case letters this model knows how to lower-case: ASCII A-Z and the
      upper-case letters of the basic Cyrillic block (Ѐ..Я, U+0400..U+042F). */
  predicate IsUpper(c: char) {
    ('A' <= c <= 'Z') || ('\U{0400}' <= c <= '\U{042F}')
  }

  /** The small letters those capitals lower-case to: a-z, а-я (U+0430..U+044F)
      and ѐ-џ (U+0450..U+045F). */
  predicate IsLower(c: char) {
    ('a' <= c <= 'z') || ('\U{0430}' <= c <= '\U{045F}')
  }

  /** Upper-case one character, the inverse direction of LowerChar: a-z to A-Z,
      а-я to А-Я, ѐ-џ to Ѐ-Џ; everything else is kept. */
  function UpperChar(c: char): (d: char)
    ensures !IsLower(d)
    ensures !IsLower(c) ==> d == c
  {
    if 'a' <= c <= 'z' then (c as int - 32) as char
    else if '\U{0430}' <= c <= '\U{044F}' then (c as int - 0x20) as char
    else if '\U{0450}' <= c <= '\U{045F}' then (c as int - 0x50) as char
    else c
  }

  /** Lower-case one character: A-Z to a-z, А-Я to а-я, Ѐ-Џ to ѐ-џ; everything else
      is kept. A capital becomes the small letter that upper-cases back to it. */
  function LowerChar(c: char): (d: char)
    ensures !IsUpper(d)
    ensures !IsUpper(c) ==> d == c
    ensures IsUpper(c) ==> IsLower(d) && UpperChar(d) == c
  {
    if 'A' <= c <= 'Z' then (c as int + 32) as char
    else if '\U{0410}' <= c <= '\U{042F}' then (c as int + 0x20) as char
    else if '\U{0400}' <= c <= '\U{040F}' then (c as int + 0x50) as char
    else c
  }

  /** `s.lower()`, character by character. */
  function Lower(s: string): (r: string)
    ensures |r| == |s|
    ensures forall i :: 0 <= i < |s| ==> r[i] == LowerChar(s[i])
    ensures forall i :: 0 <= i < |r| ==> !IsUpper(r[i])
  {
    if s == [] then [] else [LowerChar(s[0])] + Lower(s[1..])
  }

  /** A capital and its small letter lower-case alike. */
  lemma LowerUpperChar(c: char)
    ensures LowerChar(UpperChar(c)) == LowerChar(c)
    ensures IsLower(c) ==> UpperChar(c) != c && IsUpper(UpperChar(c))
  {
  }

  /** `s.upper()` for the letters LowerChar knows. */
  function Upper(s: string): (r: string)
    ensures |r| == |s|
    ensures forall i :: 0 <= i < |s| ==> r[i] == UpperChar(s[i])
  {
    if s == [] then [] else [UpperChar(s[0])] + Upper(s[1..])
  }

  /** Upper-casing first makes no difference to lower-casing: the two spellings
      of a word lower-case to the same string. */
  lemma LowerUpper(s: string)
    ensures Lower(Upper(s)) == Lower(s)
  {
    var u := Upper(s);
    forall i | 0 <= i < |s|
      ensures Lower(u)[i] == Lower(s)[i]
    {
      LowerUpperChar(s[i]);
    }
  }

  /** Lower-casing twice is lower-casing once. */
  lemma LowerIdempotent(s: string)
    ensures Lower(Lower(s)) == Lower(s)
  {
  }

  /** Lower-casing commutes with taking a slice. */
  lemma LowerSlice(s: string, i: nat, j: nat)
    requires i <= j <= |s|
    ensures Lower(s[i..j]) == Lower(s)[i..j]
  {
    var l, m := Lower(s[i..j]), Lower(s)[i..j];
    forall k | 0 <= k < j - i
      ensures l[k] == m[k]
    {
      assert s[i..j][k] == s[i + k];
      assert m[k] == Lower(s)[i + k];
    }
  }

  /** `needle` occurs in `hay` starting at position `i`. */
  ghost predicate OccursAt(needle: string, hay: string, i: nat)
  {
    i + |needle| <= |hay| && hay[i..i + |needle|] == needle
  }

  /** `needle in hay`: the empty string is contained in every string. */
  function Contains(needle: string, hay: string): (r: bool)
    ensures r ==> |needle| <= |hay|
    ensures |needle| == 0 ==> r
    decreases |hay|
  {
    needle <= hay || (|hay| > 0 && Contains(needle, hay[1..]))
  }

  /** Contains holds exactly when the needle occurs at some position of the haystack. */
  lemma {:induction false} ContainsIffOccurs(needle: string, hay: string)
    ensures Contains(needle, hay) <==> exists i: nat :: OccursAt(needle, hay, i)
    decreases |hay|
  {
    if |hay| > 0 {
      ContainsIffOccurs(needle, hay[1..]);
    }
    if Contains(needle, hay) {
      if needle <= hay {
        assert OccursAt(needle, hay, 0);
      } else {
        var i: nat :| OccursAt(needle, hay[1..], i);
        assert hay[1..][i..i + |needle|] == hay[i + 1..i + 1 + |needle|];
        assert OccursAt(needle, hay, i + 1);
      }
    }
    if i: nat :| OccursAt(needle, hay, i) {
      if i > 0 {
        assert hay[1..][i - 1..i - 1 + |needle|] == hay[i..i + |needle|];
        assert OccursAt(needle, hay[1..], i - 1);
      }
    }
  }

  /** Every slice of a string is contained in it. */
  lemma ContainsSlice(s: string, i: nat, j: nat)
    requires i <= j <= |s|
    ensures Contains(s[i..j], s)
  {
    assert OccursAt(s[i..j], s, i);
    ContainsIffOccurs(s[i..j], s);
  }

  /** A case-sensitive match is also a case-insensitive one. */
  lemma ContainsLower(needle: string, hay: string)
    requires Contains(needle, hay)
    ensures Contains(Lower(needle), Lower(hay))
  {
    ContainsIffOccurs(needle, hay);
    var i: nat :| OccursAt(needle, hay, i);
    var j := i + |needle|;
    LowerSlice(hay, i, j);
    assert Lower(needle) == Lower(hay)[i..j];
    ContainsSlice(Lower(hay), i, j);
  }
}
