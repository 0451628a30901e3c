/**
 * Case-insensitive substring matching as the note search uses it: a note
 * field matches a query when the query occurs in the field after both are
 * lower-cased. Only ASCII letters are folded.
 */
module TextMatch {

  predicate IsUpper(c: char) {
    'A' <= c <= 'Z'
  }

  /** ASCII lower-casing of one character; every other character is kept. */
  function LowerChar(c: char): (d: char)
    ensures IsUpper(c) ==> 'a' <= d <= 'z' && d as int - c as int == 'a' as int - 'A' as int
    ensures !IsUpper(c) ==> d == c
    ensures !IsUpper(d)
  {
    if IsUpper(c) then (c as int - 'A' as int + 'a' as int) as char else c
  }

  /** ASCII lower-casing of a string, character by character. */
  function Lower(s: string): string {
    seq(|s|, i requires 0 <= i < |s| => LowerChar(s[i]))
  }

  /** Lower-casing twice is lower-casing once. */
  lemma LowerIdempotent(s: string)
    ensures Lower(Lower(s)) == Lower(s)
  {
  }

  /** A string without upper-case ASCII letters is its own lower-casing. */
  lemma LowerOfLowercase(s: string)
    requires forall i :: 0 <= i < |s| ==> !IsUpper(s[i])
    ensures Lower(s) == s
  {
  }

  predicate StartsWith(s: string, prefix: string) {
    |prefix| <= |s| && s[..|prefix|] == prefix
  }

  /** True when `needle` occurs in `hay` as a contiguous substring. */
  predicate Contains(hay: string, needle: string)
    decreases |hay|
  {
    StartsWith(hay, needle) || (hay != [] && Contains(hay[1..], needle))
  }

  /** `needle` occurs in `hay` starting at position `i`. */
  predicate OccursAt(hay: string, needle: string, i: nat) {
    i + |needle| <= |hay| && hay[i..i + |needle|] == needle
  }

  /** The recursive `Contains` agrees with the positional definition of a substring. */
  lemma {:induction false} ContainsIffOccurs(hay: string, needle: string)
    ensures Contains(hay, needle) <==> exists i: nat :: OccursAt(hay, needle, i)
    decreases |hay|
  {
    if StartsWith(hay, needle) {
      assert OccursAt(hay, needle, 0);
    } else if hay == [] {
      assert needle != [];
    } else {
      ContainsIffOccurs(hay[1..], needle);
      if Contains(hay[1..], needle) {
        var i: nat :| OccursAt(hay[1..], needle, i);
        assert hay[i + 1..i + 1 + |needle|] == hay[1..][i..i + |needle|];
        assert OccursAt(hay, needle, i + 1);
      }
      if exists i: nat :: OccursAt(hay, needle, i) {
        var i: nat :| OccursAt(hay, needle, i);
        assert i != 0;
        assert hay[1..][i - 1..i - 1 + |needle|] == hay[i..i + |needle|];
        assert OccursAt(hay[1..], needle, i - 1);
      }
    }
  }

  /** The empty string occurs in every string. */
  lemma ContainsEmpty(hay: string)
    ensures Contains(hay, [])
  {
    assert StartsWith(hay, []);
  }

  /**
   * The `icontains` lookup of the search: substring match after ASCII
   * lower-casing. The needle occurs, lower-cased, at some position of the
   * lower-cased haystack; so it is never longer than the haystack.
   */
  function ContainsIgnoringCase(hay: string, needle: string): (r: bool)
    ensures r <==> exists i: nat :: OccursAt(Lower(hay), Lower(needle), i)
    ensures r ==> |needle| <= |hay|
  {
    ContainsIffOccurs(Lower(hay), Lower(needle));
    Contains(Lower(hay), Lower(needle))
  }

  /** The empty query matches every field. */
  lemma EmptyQueryMatches(hay: string)
    ensures ContainsIgnoringCase(hay, "")
  {
    ContainsEmpty(Lower(hay));
  }

  /** Queries that differ only in the case of ASCII letters match the same fields. */
  lemma QueryCaseIrrelevant(hay: string, q1: string, q2: string)
    requires Lower(q1) == Lower(q2)
    ensures ContainsIgnoringCase(hay, q1) == ContainsIgnoringCase(hay, q2)
  {
  }

  /** A note titled "Groceries" matches the query "GRO". */
  lemma GroceriesMatchesGro()
    ensures ContainsIgnoringCase("Groceries", "GRO")
  {
    var lq, lh := Lower("GRO"), Lower("Groceries");
    assert lq[0] == 'g' && lq[1] == 'r' && lq[2] == 'o';
    assert lh[0] == 'g' && lh[1] == 'r' && lh[2] == 'o';
    assert lh[..3] == lq;
  }

  /** The content "milk, eggs" matches the query "milk". */
  lemma MilkFound()
    ensures ContainsIgnoringCase("milk, eggs", "milk")
  {
    LowerOfLowercase("milk");
    LowerOfLowercase("milk, eggs");
    assert "milk, eggs"[..4] == "milk";
  }
}
