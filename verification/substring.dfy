/**
  Python's `needle in haystack` on strings: the needle occurs as a
  contiguous run of characters somewhere in the haystack. The empty needle
  occurs in every string.
 */
module Substring {

  /** `needle` occurs in `hay` starting at position `i`. */
  predicate OccursAt(needle: string, hay: string, i: int)
  {
    0 <= i && i + |needle| <= |hay| && hay[i..i + |needle|] == needle
  }

  /** Python's `needle in hay`. */
  predicate Contains(hay: string, needle: string)
  {
    exists i :: 0 <= i <= |hay| && OccursAt(needle, hay, i)
  }

  /**
    Reference definition: the needle is a prefix of the haystack or occurs in
    the haystack's tail.
   */
  predicate ContainsRec(hay: string, needle: string)
  {
    needle <= hay || (|hay| > 0 && ContainsRec(hay[1..], needle))
  }

  /** A slice of the tail is the slice of the whole shifted by one. */
  lemma SliceOfTail(hay: string, j: nat, n: nat)
    requires 0 < |hay| && j + n <= |hay| - 1
    ensures hay[1..][j..j + n] == hay[j + 1..j + 1 + n]
  {
    var shifted := hay[1..][j..j + n];
    var direct := hay[j + 1..j + 1 + n];
    forall k | 0 <= k < n ensures shifted[k] == direct[k] {
      assert hay[1..][j + k] == hay[j + 1 + k];
    }
  }

  /** The position-based and the recursive definition of substring agree. */
  lemma {:induction false} ContainsAgrees(hay: string, needle: string)
    ensures Contains(hay, needle) <==> ContainsRec(hay, needle)
  {
    if |hay| > 0 {
      ContainsAgrees(hay[1..], needle);
      if Contains(hay, needle) {
        var i :| 0 <= i <= |hay| && OccursAt(needle, hay, i);
        if i > 0 {
          SliceOfTail(hay, i - 1, |needle|);
          assert OccursAt(needle, hay[1..], i - 1);
        } else {
          assert needle == hay[..|needle|];
        }
      }
      if ContainsRec(hay, needle) {
        if needle <= hay {
          assert OccursAt(needle, hay, 0);
        } else {
          var j :| 0 <= j <= |hay[1..]| && OccursAt(needle, hay[1..], j);
          SliceOfTail(hay, j, |needle|);
          assert OccursAt(needle, hay, j + 1);
        }
      }
    } else {
      if Contains(hay, needle) {
        var i :| 0 <= i <= |hay| && OccursAt(needle, hay, i);
        assert needle == [];
      }
      if needle <= hay {
        assert OccursAt(needle, hay, 0);
      }
    }
  }

  /** Every string contains itself and the empty string. */
  lemma ContainsSelfAndEmpty(s: string)
    ensures Contains(s, s)
    ensures Contains(s, "")
  {
    assert OccursAt(s, s, 0);
    assert OccursAt("", s, 0);
  }

  /** A needle whose first character never appears in the haystack does not occur in it. */
  lemma {:induction false} FirstCharAbsent(hay: string, needle: string)
    requires |needle| > 0 && needle[0] !in hay
    ensures !ContainsRec(hay, needle)
  {
    if |hay| > 0 {
      assert needle[0] != hay[0];
      assert needle[0] !in hay[1..] by {
        forall c | c in hay[1..] ensures c in hay {
          var i :| 0 <= i < |hay[1..]| && hay[1..][i] == c;
          assert hay[i + 1] == c;
        }
      }
      FirstCharAbsent(hay[1..], needle);
    }
  }
}
