/**
 * The few pieces of the Java string library that the organisation-tree core
 * depends on: `StringUtils.isBlank` (via `Character.isWhitespace`),
 * `String.toLowerCase` applied character by character, and
 * `String.split(",")` with its rule that trailing empty pieces are dropped.
 */
module Strings {

  /** `Character.isWhitespace`: the Unicode space, line and paragraph
      separators other than the no-break spaces, plus the ASCII controls
      TAB, LF, VT, FF, CR and FS, GS, RS, US. */
  predicate IsWhitespace(c: char) {
    || c == ' '
    || ('\t' <= c <= '\r')
    || ('\U{1C}' <= c <= '\U{1F}')
    || c == '\U{1680}'
    || ('\U{2000}' <= c <= '\U{2006}')
    || ('\U{2008}' <= c <= '\U{200A}')
    || c == '\U{2028}' || c == '\U{2029}'
    || c == '\U{205F}' || c == '\U{3000}'
  }

  /** `StringUtils.isBlank`: empty or made only of whitespace. A Java `null`
      is represented by the empty string. */
  predicate IsBlank(s: string) {
    forall i | 0 <= i < |s| :: IsWhitespace(s[i])
  }

  /** `toLowerCase` as a per-character mapping; `lower` stands for the
      locale-dependent case mapping of the JDK. */
  function Lower(lower: char -> char, s: string): (r: string)
    ensures |r| == |s|
    ensures forall i | 0 <= i < |s| :: r[i] == lower(s[i])
  {
    seq(|s|, i requires 0 <= i < |s| => lower(s[i]))
  }

  /** Lower-casing a substring gives the same substring of the lower-cased text. */
  lemma LowerSlice(lower: char -> char, s: string, i: nat, j: nat)
    requires i <= j <= |s|
    ensures Lower(lower, s[i..j]) == Lower(lower, s)[i..j]
  {
  }

  /** The text between the commas of `s`, empty pieces included, in order. */
  function Pieces(s: string): (r: seq<string>)
    ensures |r| >= 1
    decreases |s|
  {
    if s == [] then [[]]
    else
      var rest := Pieces(s[1..]);
      if s[0] == ',' then [[]] + rest else [[s[0]] + rest[0]] + rest[1..]
  }

  /** The inverse of `Pieces`: the pieces joined with commas. */
  function Join(ps: seq<string>): string
    requires |ps| >= 1
  {
    if |ps| == 1 then ps[0] else ps[0] + [','] + Join(ps[1..])
  }

  lemma {:induction false} JoinPieces(s: string)
    ensures Join(Pieces(s)) == s
    decreases |s|
  {
    if s != [] {
      JoinPieces(s[1..]);
      var rest := Pieces(s[1..]);
      if s[0] != ',' {
        if |rest| == 1 {
          assert Pieces(s) == [[s[0]] + rest[0]];
        } else {
          assert Pieces(s)[1..] == rest[1..];
        }
      } else {
        assert Pieces(s)[1..] == rest;
      }
    }
  }

  lemma {:induction false} PiecesHaveNoComma(s: string)
    ensures forall p | p in Pieces(s) :: ',' !in p
    decreases |s|
  {
    if s != [] {
      PiecesHaveNoComma(s[1..]);
    }
  }

  /** `ps` with every trailing empty piece removed. */
  function DropTrailingEmpty(ps: seq<string>): (r: seq<string>)
    ensures r <= ps
    ensures r == [] || r[|r| - 1] != []
    ensures forall k | |r| <= k < |ps| :: ps[k] == []
  {
    if ps == [] then []
    else if ps[|ps| - 1] == [] then DropTrailingEmpty(ps[..|ps| - 1])
    else ps
  }

  /** Java's `s.split(",")`: when there is no comma the result is `[s]`;
      otherwise the comma-separated pieces with the trailing empty ones
      dropped (so `"a,,b,"` gives `["a", "", "b"]` and `","` gives `[]`). */
  function Split(s: string): (r: seq<string>)
    ensures ',' !in s ==> r == [s]
    ensures ',' in s ==> r <= Pieces(s)
    ensures ',' in s ==> r == [] || r[|r| - 1] != []
    ensures ',' in s ==> forall k | |r| <= k < |Pieces(s)| :: Pieces(s)[k] == []
    ensures forall p | p in r :: ',' !in p
  {
    PiecesHaveNoComma(s);
    if ',' !in s then [s] else DropTrailingEmpty(Pieces(s))
  }
}
