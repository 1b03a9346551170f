/** Strings that cannot occur in overlapping places of any text. */
module Overlaps {
  import opened TextSearch

  /** `x` and `y` agree on their overlap when `y` starts `shift` characters after `x`. */
  predicate AgreeAt(x: string, y: string, shift: int) {
    forall i | 0 <= i < |x| && shift <= i < shift + |y| :: x[i] == y[i - shift]
  }

  /** No text can hold `x` and `y` in overlapping places. */
  ghost predicate Apart(x: string, y: string) {
    forall shift | -|y| < shift < |x| :: !AgreeAt(x, y, shift)
  }

  lemma OverlapAgrees(text: string, x: string, y: string, p: int, q: int)
    requires OccursAt(text, x, p) && OccursAt(text, y, q)
    ensures AgreeAt(x, y, q - p)
  {
    forall i | 0 <= i < |x| && q - p <= i < q - p + |y| ensures x[i] == y[i - (q - p)] {
      assert text[p..p + |x|][i] == text[p + i] == text[q..q + |y|][i - (q - p)];
    }
  }

  lemma ApartSymmetric(x: string, y: string)
    requires Apart(x, y)
    ensures Apart(y, x)
  {
    forall shift | -|x| < shift < |y| ensures !AgreeAt(y, x, shift) {
      assert !AgreeAt(x, y, -shift);
      var i :| 0 <= i < |x| && -shift <= i < -shift + |y| && x[i] != y[i + shift];
      assert y[i + shift] != x[i + shift - shift];
    }
  }

  /** A line that starts with '#' and holds no other one: a directive or a comment. */
  predicate IsHashLine(s: string) {
    s != "" && s[0] == '#' && forall i | 1 <= i < |s| :: s[i] != '#'
  }

  /** Two such lines, neither a prefix of the other, cannot overlap. */
  lemma HashLinesAreApart(x: string, y: string, i: nat)
    requires IsHashLine(x) && IsHashLine(y)
    requires i < |x| && i < |y| && x[i] != y[i]
    ensures Apart(x, y)
  {
    forall shift | -|y| < shift < |x| ensures !AgreeAt(x, y, shift) {
      if shift == 0 {
        assert x[i] != y[i - shift];
      } else if shift > 0 {
        assert x[shift] != y[shift - shift];
      } else {
        assert x[0] != y[0 - shift];
      }
    }
  }

  lemma HashLineExtends(s: string, t: string)
    requires IsHashLine(s) && forall i | 0 <= i < |t| :: t[i] != '#'
    ensures IsHashLine(s + t)
  {
  }

  /** No proper prefix of the string is also a suffix of it. */
  predicate BorderFree(s: string) {
    forall n | 0 < n < |s| :: s[..n] != s[|s| - n..]
  }

  lemma HashLineIsBorderFree(s: string)
    requires IsHashLine(s)
    ensures BorderFree(s)
  {
    forall n | 0 < n < |s| ensures s[..n] != s[|s| - n..] {
      assert s[..n][0] == '#' && s[|s| - n..][0] == s[|s| - n];
    }
  }
}
