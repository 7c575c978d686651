/** The string a StringBuilder loop produces when it appends a separator between
    consecutive pieces, and where each piece and separator lands in it. */
module Text {

  /** The pieces of `ps` in order, with `sep` between each two consecutive ones. */
  function Join(sep: string, ps: seq<string>): string
  {
    if |ps| == 0 then ""
    else if |ps| == 1 then ps[0]
    else Join(sep, ps[..|ps| - 1]) + sep + ps[|ps| - 1]
  }

  /** Where piece `k` begins in `Join(sep, ps)`: every earlier piece plus one separator each. */
  function Offset(sep: string, ps: seq<string>, k: nat): nat
    requires k <= |ps|
  {
    if k == 0 then 0 else Offset(sep, ps, k - 1) + |ps[k - 1]| + |sep|
  }

  /** An offset depends only on the pieces before it. */
  lemma OffsetOfPrefix(sep: string, ps: seq<string>, m: nat, k: nat)
    requires k <= m <= |ps|
    ensures Offset(sep, ps[..m], k) == Offset(sep, ps, k)
  {
    if k > 0 {
      OffsetOfPrefix(sep, ps, m, k - 1);
    }
  }

  /** The joined string ends exactly where its last piece ends. */
  lemma {:induction false} JoinLength(sep: string, ps: seq<string>)
    requires |ps| > 0
    ensures |Join(sep, ps)| == Offset(sep, ps, |ps| - 1) + |ps[|ps| - 1]|
  {
    var n := |ps|;
    if n > 1 {
      var init := ps[..n - 1];
      JoinLength(sep, init);
      OffsetOfPrefix(sep, ps, n - 1, n - 2);
    }
  }

  /** A slice inside the left operand of a concatenation. */
  lemma SliceLeft(a: string, b: string, lo: nat, hi: nat)
    requires lo <= hi <= |a|
    ensures (a + b)[lo..hi] == a[lo..hi]
  {
  }

  /** A slice inside the right operand of a concatenation. */
  lemma SliceRight(a: string, b: string, lo: nat, hi: nat)
    requires lo <= hi <= |b|
    ensures (a + b)[|a| + lo..|a| + hi] == b[lo..hi]
  {
  }

  /** The last piece ends the joined string, right after the separator before it. */
  lemma LastPieceAt(sep: string, ps: seq<string>)
    requires |ps| > 1
    ensures var n := |ps|;
            Offset(sep, ps, n - 1) + |ps[n - 1]| == |Join(sep, ps)| &&
            Join(sep, ps)[Offset(sep, ps, n - 1)..] == ps[n - 1]
  {
    var n := |ps|;
    var init, last := ps[..n - 1], ps[n - 1];
    var j := Join(sep, init);
    assert Join(sep, ps) == (j + sep) + last;
    JoinLength(sep, init);
    OffsetOfPrefix(sep, ps, n - 1, n - 2);
    assert Offset(sep, ps, n - 1) == |j + sep|;
  }

  /** A piece of all but the last sits where it did before the last piece was joined on. */
  lemma PieceBeforeLast(sep: string, ps: seq<string>, k: nat)
    requires k < |ps| - 1
    requires var init := ps[..|ps| - 1];
             Offset(sep, init, k) + |init[k]| <= |Join(sep, init)| &&
             Join(sep, init)[Offset(sep, init, k)..Offset(sep, init, k) + |init[k]|] == init[k]
    ensures Offset(sep, ps, k) + |ps[k]| <= |Join(sep, ps)|
    ensures Join(sep, ps)[Offset(sep, ps, k)..Offset(sep, ps, k) + |ps[k]|] == ps[k]
  {
    var n := |ps|;
    var init, last := ps[..n - 1], ps[n - 1];
    var j := Join(sep, init);
    assert Join(sep, ps) == j + (sep + last);
    assert init[k] == ps[k];
    OffsetOfPrefix(sep, ps, n - 1, k);
    var off := Offset(sep, ps, k);
    SliceLeft(j, sep + last, off, off + |ps[k]|);
  }

  /** Piece `k` sits at `Offset(sep, ps, k)`. */
  lemma {:induction false} PieceAt(sep: string, ps: seq<string>, k: nat)
    requires k < |ps|
    ensures Offset(sep, ps, k) + |ps[k]| <= |Join(sep, ps)|
    ensures Join(sep, ps)[Offset(sep, ps, k)..Offset(sep, ps, k) + |ps[k]|] == ps[k]
  {
    var n := |ps|;
    if n > 1 {
      if k < n - 1 {
        PieceAt(sep, ps[..n - 1], k);
        PieceBeforeLast(sep, ps, k);
      } else {
        LastPieceAt(sep, ps);
      }
    }
  }

  /** A single separator follows every piece but the last, up to where the next begins. */
  lemma {:induction false} SeparatorAfter(sep: string, ps: seq<string>, k: nat)
    requires k + 1 < |ps|
    ensures Offset(sep, ps, k + 1) <= |Join(sep, ps)|
    ensures Join(sep, ps)[Offset(sep, ps, k) + |ps[k]|..Offset(sep, ps, k + 1)] == sep
  {
    var n := |ps|;
    if k + 1 < n - 1 {
      SeparatorAfter(sep, ps[..n - 1], k);
      SeparatorBeforeLast(sep, ps, k);
    } else {
      LastSeparator(sep, ps);
    }
  }

  /** The separator before the last piece ends where the joined pieces before it end. */
  lemma LastSeparator(sep: string, ps: seq<string>)
    requires |ps| > 1
    ensures var n := |ps|;
            Offset(sep, ps, n - 1) <= |Join(sep, ps)| &&
            Join(sep, ps)[Offset(sep, ps, n - 2) + |ps[n - 2]|..Offset(sep, ps, n - 1)] == sep
  {
    var n := |ps|;
    var init, last := ps[..n - 1], ps[n - 1];
    var j := Join(sep, init);
    assert Join(sep, ps) == j + (sep + last);
    JoinLength(sep, init);
    OffsetOfPrefix(sep, ps, n - 1, n - 2);
    assert init[n - 2] == ps[n - 2];
    SliceRight(j, sep + last, 0, |sep|);
    assert (sep + last)[0..|sep|] == sep;
  }

  /** A separator between two pieces of all but the last stays where it was. */
  lemma SeparatorBeforeLast(sep: string, ps: seq<string>, k: nat)
    requires k + 1 < |ps| - 1
    requires var init := ps[..|ps| - 1];
             Offset(sep, init, k + 1) <= |Join(sep, init)| &&
             Join(sep, init)[Offset(sep, init, k) + |init[k]|..Offset(sep, init, k + 1)] == sep
    ensures Offset(sep, ps, k + 1) <= |Join(sep, ps)|
    ensures Join(sep, ps)[Offset(sep, ps, k) + |ps[k]|..Offset(sep, ps, k + 1)] == sep
  {
    var n := |ps|;
    var init, last := ps[..n - 1], ps[n - 1];
    var j := Join(sep, init);
    assert Join(sep, ps) == j + (sep + last);
    assert init[k] == ps[k];
    OffsetOfPrefix(sep, ps, n - 1, k);
    OffsetOfPrefix(sep, ps, n - 1, k + 1);
    var end := Offset(sep, ps, k) + |ps[k]|;
    SliceLeft(j, sep + last, end, end + |sep|);
  }

  /** One more piece of `ps` joined: a separator (unless it is the first piece), then the piece. */
  lemma JoinStep(sep: string, ps: seq<string>, i: nat)
    requires i < |ps|
    ensures Join(sep, ps[..i + 1]) == Join(sep, ps[..i]) + (if i == 0 then "" else sep) + ps[i]
  {
    assert ps[..i + 1][..i] == ps[..i];
  }

  /** The loop step of a builder that appends piece `i` of `ps` after `pre`, the pieces
      before it and the separator that followed them. */
  lemma AppendPiece(pre: string, sep: string, ps: seq<string>, i: nat)
    requires i < |ps|
    ensures pre + Join(sep, ps[..i]) + (if 0 < i < |ps| then sep else "") + ps[i]
            == pre + Join(sep, ps[..i + 1])
  {
    JoinStep(sep, ps, i);
  }

  /** `PieceAt` and `SeparatorAfter` for a joined string inside a prefix and a suffix: piece `k` sits at
      `|pre| + Offset(sep, ps, k)`, a separator follows every piece but the last, and the
      last piece ends where the suffix begins. */
  lemma FramedJoinAt(pre: string, sep: string, ps: seq<string>, post: string, k: nat)
    requires k < |ps|
    ensures var s := pre + Join(sep, ps) + post;
            var at := |pre| + Offset(sep, ps, k);
            at + |ps[k]| + |post| <= |s| && s[at..at + |ps[k]|] == ps[k] &&
            (k + 1 < |ps| ==>
               |pre| + Offset(sep, ps, k + 1) == at + |ps[k]| + |sep| &&
               at + |ps[k]| + |sep| <= |s| &&
               s[at + |ps[k]|..at + |ps[k]| + |sep|] == sep) &&
            (k + 1 == |ps| ==> at + |ps[k]| + |post| == |s|)
  {
    var j := Join(sep, ps);
    var s := pre + j + post;
    PieceAt(sep, ps, k);
    JoinLength(sep, ps);
    var off := Offset(sep, ps, k);
    SliceLeft(pre + j, post, |pre| + off, |pre| + off + |ps[k]|);
    SliceRight(pre, j, off, off + |ps[k]|);
    if k + 1 < |ps| {
      SeparatorAfter(sep, ps, k);
      var end := off + |ps[k]|;
      SliceLeft(pre + j, post, |pre| + end, |pre| + end + |sep|);
      SliceRight(pre, j, end, end + |sep|);
    }
  }
}
