/**
 * The annotation line printed between two aligned sequences
 * (`alignment_string`): one mark per aligned column, and the number of
 * identities, gaps and mismatches among those columns.
 */
module Annotation {
  import opened Scoring

  /**
   * The mark of one aligned column: `|` for two equal symbols, a blank when
   * either symbol is a gap, `:` for two different symbols.
   */
  function Mark(b1: char, b2: char): (c: char)
    ensures c == '|' <==> b1 == b2
    ensures c == ' ' <==> b1 != b2 && (b1 == Gap || b2 == Gap)
    ensures c == ':' <==> b1 != b2 && b1 != Gap && b2 != Gap
  {
    if b1 == b2 then '|'
    else if b1 == Gap || b2 == Gap then ' '
    else ':'
  }

  /** The number of occurrences of `c` in `s`. */
  function Count(s: string, c: char): nat
  {
    if s == [] then 0
    else Count(s[..|s| - 1], c) + (if s[|s| - 1] == c then 1 else 0)
  }

  lemma CountAppend(s: string, d: char, c: char)
    ensures Count(s + [d], c) == Count(s, c) + (if d == c then 1 else 0)
  {
    assert (s + [d])[..|s|] == s;
  }

  /** `Count` is the multiplicity of `c` in the multiset of the symbols of `s`. */
  lemma {:induction false} CountIsMultiplicity(s: string, c: char)
    ensures Count(s, c) == multiset(s)[c]
  {
    if s != [] {
      var p := s[..|s| - 1];
      assert s == p + [s[|s| - 1]];
      CountIsMultiplicity(p, c);
    }
  }

  /** `s` holds only the three annotation marks. */
  predicate OnlyMarks(s: string)
  {
    forall k :: 0 <= k < |s| ==> s[k] in {'|', ' ', ':'}
  }

  /**
   * In a string of annotation marks, the identities, gaps and mismatches
   * together account for every column.
   */
  lemma {:induction false} CountsPartition(s: string)
    requires OnlyMarks(s)
    ensures Count(s, '|') + Count(s, ' ') + Count(s, ':') == |s|
  {
    if s != [] {
      var p := s[..|s| - 1];
      assert OnlyMarks(p) by {
        forall k | 0 <= k < |p|
          ensures p[k] in {'|', ' ', ':'}
        {
          assert p[k] == s[k];
        }
      }
      CountsPartition(p);
    }
  }

  /**
   * Builds the annotation of the columns that both aligned sequences have
   * (the pairing stops at the end of the shorter one) and counts its three
   * kinds of mark.
   */
  method AlignmentString(aligned1: string, aligned2: string)
    returns (annotation: string, idents: nat, gaps: nat, mismatches: nat)
    ensures |annotation| == if |aligned1| <= |aligned2| then |aligned1| else |aligned2|
    ensures forall k :: 0 <= k < |annotation| ==>
      annotation[k] == Mark(aligned1[k], aligned2[k])
    ensures forall k :: 0 <= k < |annotation| ==>
      (annotation[k] == '|' <==> aligned1[k] == aligned2[k])
    ensures forall k :: 0 <= k < |annotation| ==>
      (annotation[k] == ' ' <==> aligned1[k] != aligned2[k] && (aligned1[k] == Gap || aligned2[k] == Gap))
    ensures forall k :: 0 <= k < |annotation| ==>
      (annotation[k] == ':' <==> aligned1[k] != aligned2[k] && aligned1[k] != Gap && aligned2[k] != Gap)
    ensures idents == Count(annotation, '|')
    ensures gaps == Count(annotation, ' ')
    ensures mismatches == Count(annotation, ':')
    ensures idents + gaps + mismatches == |annotation|
  {
    var n := if |aligned1| <= |aligned2| then |aligned1| else |aligned2|;
    idents, gaps, mismatches := 0, 0, 0;
    annotation := [];
    for i := 0 to n
      invariant |annotation| == i
      invariant forall k :: 0 <= k < i ==> annotation[k] == Mark(aligned1[k], aligned2[k])
      invariant idents == Count(annotation, '|')
      invariant gaps == Count(annotation, ' ')
      invariant mismatches == Count(annotation, ':')
    {
      var base1, base2 := aligned1[i], aligned2[i];
      CountAppend(annotation, Mark(base1, base2), '|');
      CountAppend(annotation, Mark(base1, base2), ' ');
      CountAppend(annotation, Mark(base1, base2), ':');
      if base1 == base2 {
        annotation := annotation + ['|'];
        idents := idents + 1;
      } else if base1 == Gap || base2 == Gap {
        annotation := annotation + [' '];
        gaps := gaps + 1;
      } else {
        annotation := annotation + [':'];
        mismatches := mismatches + 1;
      }
    }
    CountsPartition(annotation);
  }
}
