/** Case-insensitive substring matching, the model of `name ILIKE CONCAT('%', q, '%')`. */
module Text {

  /** The case fold applied before comparing: ASCII upper case to lower case. */
  function LowerChar(c: char): char {
    if 'A' <= c <= 'Z' then (c as int + 32) as char else c
  }

  /** The folded string, character by character. */
  function Fold(s: string): (r: string)
    ensures |r| == |s|
    ensures forall i :: 0 <= i < |s| ==> r[i] == LowerChar(s[i])
  {
    seq(|s|, i requires 0 <= i < |s| => LowerChar(s[i]))
  }

  /** `needle` occurs in `hay` starting at position `i`. */
  predicate OccursAt(hay: string, needle: string, i: int) {
    0 <= i && i + |needle| <= |hay| && hay[i..i + |needle|] == needle
  }

  /** `needle` occurs as a contiguous piece of `hay`. */
  predicate Contains(hay: string, needle: string) {
    exists i :: 0 <= i <= |hay| && OccursAt(hay, needle, i)
  }

  /** `value ILIKE '%' || query || '%'`: the folded query occurs in the folded value.
      A match is never longer than the value, and an exact occurrence always matches. */
  predicate ILike(value: string, query: string): (r: bool)
    ensures r ==> |query| <= |value|
    ensures Contains(value, query) ==> r
  {
    FoldKeepsOccurrences(value, query);
    Contains(Fold(value), Fold(query))
  }

  /** Folding both sides keeps every occurrence where it is. */
  lemma FoldKeepsOccurrences(value: string, query: string)
    ensures forall i :: OccursAt(value, query, i) ==> OccursAt(Fold(value), Fold(query), i)
  {
    forall i | OccursAt(value, query, i) ensures OccursAt(Fold(value), Fold(query), i) {
      forall k | 0 <= k < |query| ensures Fold(value)[i..i + |query|][k] == Fold(query)[k] {
        assert value[i..i + |query|][k] == query[k];
      }
    }
  }

  /** The pattern `%%` built from an empty query matches every value. */
  lemma EmptyQueryMatchesAll(value: string)
    ensures ILike(value, "")
  {
    assert OccursAt(Fold(value), Fold(""), 0);
  }

  /** Folding is idempotent, so matching ignores the case of the value. */
  lemma {:induction false} ILikeIgnoresValueCase(value: string, query: string)
    ensures ILike(Fold(value), query) <==> ILike(value, query)
  {
    assert Fold(Fold(value)) == Fold(value);
  }

  /** Folding is idempotent, so matching ignores the case of the query too. */
  lemma ILikeIgnoresQueryCase(value: string, query: string)
    ensures ILike(value, Fold(query)) <==> ILike(value, query)
  {
    assert Fold(Fold(query)) == Fold(query);
  }
}
