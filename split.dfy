/** Java's `String.split("\\s+")` with its default limit, as the search builders use it:
    the input is cut at every maximal run of whitespace; an input with no whitespace at
    all comes back whole (so `""` gives `[""]`); a leading run leaves an empty first
    piece; empty pieces at the end are dropped (so an all-whitespace input gives `[]`). */
module JavaSplit {

  /** The class `\s` of java.util.regex on Android, where ICU backs the regular
      expressions and `\s` is Unicode White_Space: tab through carriage return, space,
      next line, no-break space, the Ogham space mark, the en quad through the hair space,
      the line and paragraph separators, the narrow no-break space, the medium
      mathematical space and the ideographic space. */
  predicate IsWhitespace(c: char)
  {
    var n := c as int;
    (0x09 <= n <= 0x0D) || n == 0x20 || n == 0x85 || n == 0xA0 || n == 0x1680
    || (0x2000 <= n <= 0x200A) || n == 0x2028 || n == 0x2029 || n == 0x202F
    || n == 0x205F || n == 0x3000
  }

  predicate HasWhitespace(s: string)
  {
    exists i :: 0 <= i < |s| && IsWhitespace(s[i])
  }

  predicate AllWhitespace(s: string)
  {
    forall i :: 0 <= i < |s| ==> IsWhitespace(s[i])
  }

  /** The text between maximal whitespace runs, empty pieces at either end included:
      a character outside whitespace extends the current piece, the last character of a
      whitespace run starts a new one. */
  function Pieces(s: string): (ps: seq<string>)
    ensures |ps| >= 1
  {
    if s == [] then [""]
    else if !IsWhitespace(s[0]) then
      var rest := Pieces(s[1..]);
      [[s[0]] + rest[0]] + rest[1..]
    else if |s| > 1 && IsWhitespace(s[1]) then Pieces(s[1..])
    else [""] + Pieces(s[1..])
  }

  /** `ps` without its trailing empty strings. */
  function DropTrailingEmpty(ps: seq<string>): (r: seq<string>)
    ensures |r| <= |ps| && r == ps[..|r|]
    ensures r == [] || r[|r| - 1] != ""
    ensures forall k :: |r| <= k < |ps| ==> ps[k] == ""
  {
    if ps != [] && ps[|ps| - 1] == "" then DropTrailingEmpty(ps[..|ps| - 1]) else ps
  }

  /** `s.split("\\s+")`. */
  function Split(s: string): seq<string>
  {
    if !HasWhitespace(s) then [s] else DropTrailingEmpty(Pieces(s))
  }

  /** The pieces written one after another. */
  function Concat(ps: seq<string>): string
  {
    if ps == [] then "" else ps[0] + Concat(ps[1..])
  }

  /** The characters of `s` that are not whitespace, in order. */
  function NonWhitespace(s: string): string
  {
    if s == [] then "" else (if IsWhitespace(s[0]) then "" else [s[0]]) + NonWhitespace(s[1..])
  }

  lemma {:induction false} NonWhitespaceOfWord(s: string)
    requires !HasWhitespace(s)
    ensures NonWhitespace(s) == s
  {
    if s != [] {
      assert !HasWhitespace(s[1..]) by {
        forall i | 0 <= i < |s[1..]| ensures !IsWhitespace(s[1..][i]) {
          assert s[1..][i] == s[i + 1];
        }
      }
      NonWhitespaceOfWord(s[1..]);
    }
  }

  lemma {:induction false} NonWhitespaceOfGap(s: string)
    requires AllWhitespace(s)
    ensures NonWhitespace(s) == ""
  {
    if s != [] {
      NonWhitespaceOfGap(s[1..]);
    }
  }

  lemma {:induction false} NonWhitespaceEmpty(s: string)
    requires NonWhitespace(s) == ""
    ensures AllWhitespace(s)
  {
    if s != [] {
      NonWhitespaceEmpty(s[1..]);
      forall i | 0 <= i < |s| ensures IsWhitespace(s[i]) {
        if i > 0 {
          assert s[i] == s[1..][i - 1];
        }
      }
    }
  }

  lemma {:induction false} ConcatSnoc(ps: seq<string>, p: string)
    ensures Concat(ps + [p]) == Concat(ps) + p
  {
    if ps == [] {
      assert ps + [p] == [p];
    } else {
      assert (ps + [p])[1..] == ps[1..] + [p];
      ConcatSnoc(ps[1..], p);
    }
  }

  /** Only empty pieces concatenate to the empty string. */
  lemma {:induction false} ConcatEmpty(ps: seq<string>)
    requires Concat(ps) == ""
    ensures forall k :: 0 <= k < |ps| ==> ps[k] == ""
  {
    if ps != [] {
      ConcatEmpty(ps[1..]);
      forall k | 0 <= k < |ps| ensures ps[k] == "" {
        if k > 0 {
          assert ps[k] == ps[1..][k - 1];
        }
      }
    }
  }

  /** Dropping trailing empty pieces does not change the concatenation. */
  lemma {:induction false} ConcatDropTrailingEmpty(ps: seq<string>)
    ensures Concat(DropTrailingEmpty(ps)) == Concat(ps)
  {
    if ps != [] && ps[|ps| - 1] == "" {
      var init := ps[..|ps| - 1];
      ConcatDropTrailingEmpty(init);
      assert ps == init + [""];
      ConcatSnoc(init, "");
    }
  }

  /** The pieces, written one after another, are the input with its whitespace removed. */
  lemma {:induction false} ConcatPieces(s: string)
    ensures Concat(Pieces(s)) == NonWhitespace(s)
  {
    if s != [] {
      ConcatPieces(s[1..]);
      var rest := Pieces(s[1..]);
      if !IsWhitespace(s[0]) {
        var ps := [[s[0]] + rest[0]] + rest[1..];
        assert ps[1..] == rest[1..];
        assert Concat(rest) == rest[0] + Concat(rest[1..]);
      } else if !(|s| > 1 && IsWhitespace(s[1])) {
        assert ([""] + rest)[1..] == rest;
      }
    }
  }

  /** No piece contains whitespace. */
  lemma {:induction false} PiecesAreWords(s: string)
    ensures forall k :: 0 <= k < |Pieces(s)| ==> !HasWhitespace(Pieces(s)[k])
  {
    if s != [] {
      PiecesAreWords(s[1..]);
      var rest := Pieces(s[1..]);
      if !IsWhitespace(s[0]) {
        var first := [s[0]] + rest[0];
        assert !HasWhitespace(first) by {
          forall i | 0 <= i < |first| ensures !IsWhitespace(first[i]) {
            if i > 0 {
              assert first[i] == rest[0][i - 1];
            }
          }
        }
      }
    }
  }

  /** Only the first and the last piece can be empty, and the first is empty exactly
      when the input starts with whitespace. */
  lemma {:induction false} PiecesShape(s: string)
    ensures forall k :: 0 < k < |Pieces(s)| - 1 ==> Pieces(s)[k] != ""
    ensures s != "" && !IsWhitespace(s[0]) ==> Pieces(s)[0] != ""
    ensures s != "" && IsWhitespace(s[0]) ==> Pieces(s)[0] == ""
  {
    if s != [] {
      PiecesShape(s[1..]);
      var rest := Pieces(s[1..]);
      if !IsWhitespace(s[0]) {
        forall k | 0 < k < |Pieces(s)| - 1 ensures Pieces(s)[k] != "" {
          assert Pieces(s)[k] == rest[k];
        }
      } else if |s| > 1 && IsWhitespace(s[1]) {
        assert s[1..][0] == s[1];
      } else {
        forall k | 0 < k < |Pieces(s)| - 1 ensures Pieces(s)[k] != "" {
          assert Pieces(s)[k] == rest[k - 1];
          if k == 1 {
            assert s[1..][0] == s[1];
          }
        }
      }
    }
  }

  /** The tokens, written one after another, are exactly the input's non-whitespace
      characters: splitting loses the whitespace and nothing else. */
  lemma SplitConcat(s: string)
    ensures Concat(Split(s)) == NonWhitespace(s)
  {
    if !HasWhitespace(s) {
      NonWhitespaceOfWord(s);
      assert Concat([s]) == s + Concat([]);
    } else {
      ConcatDropTrailingEmpty(Pieces(s));
      ConcatPieces(s);
    }
  }

  /** No token contains whitespace. */
  lemma SplitTokensAreWords(s: string)
    ensures forall k :: 0 <= k < |Split(s)| ==> !HasWhitespace(Split(s)[k])
  {
    if HasWhitespace(s) {
      PiecesAreWords(s);
      var r := DropTrailingEmpty(Pieces(s));
      forall k | 0 <= k < |r| ensures !HasWhitespace(r[k]) {
        assert r[k] == Pieces(s)[k];
      }
    }
  }

  /** Only the first token can be empty. */
  lemma SplitTokensNonEmpty(s: string)
    ensures forall k :: 0 < k < |Split(s)| ==> Split(s)[k] != ""
  {
    if HasWhitespace(s) {
      PiecesShape(s);
      var ps := Pieces(s);
      var r := DropTrailingEmpty(ps);
      forall k | 0 < k < |r| ensures r[k] != "" {
        assert r[k] == ps[k];
      }
    }
  }

  /** The split is empty exactly when the input is non-empty and all whitespace. */
  lemma SplitEmptyIff(s: string)
    ensures Split(s) == [] <==> s != "" && AllWhitespace(s)
  {
    if HasWhitespace(s) {
      var ps := Pieces(s);
      ConcatPieces(s);
      if AllWhitespace(s) {
        NonWhitespaceOfGap(s);
        ConcatEmpty(ps);
      } else {
        SplitConcat(s);
        if Split(s) == [] {
          assert Concat(Split(s)) == "";
          NonWhitespaceEmpty(s);
        }
      }
    } else if s != "" {
      assert !IsWhitespace(s[0]);
    }
  }

  /** Whitespace in front of a query that is not blank yields an empty first token. */
  lemma LeadingWhitespaceToken(s: string)
    requires s != "" && IsWhitespace(s[0]) && !AllWhitespace(s)
    ensures |Split(s)| >= 2 && Split(s)[0] == ""
  {
    assert HasWhitespace(s);
    SplitEmptyIff(s);
    var ps := Pieces(s);
    PiecesShape(s);
    var r := DropTrailingEmpty(ps);
    assert r[0] == ps[0];
  }

  /** Pieces and gaps alternately, starting and ending with a piece. */
  function Interleave(ps: seq<string>, gs: seq<string>): string
    requires |gs| + 1 == |ps|
  {
    if gs == [] then ps[0] else ps[0] + gs[0] + Interleave(ps[1..], gs[1..])
  }

  /** The whitespace runs between consecutive `Pieces`, each whole. */
  function PieceGaps(s: string): (gs: seq<string>)
    ensures |gs| + 1 == |Pieces(s)|
    ensures s != [] && IsWhitespace(s[0]) ==> |gs| >= 1
    ensures forall k :: 0 <= k < |gs| ==> gs[k] != "" && AllWhitespace(gs[k])
  {
    if s == [] then []
    else if !IsWhitespace(s[0]) then PieceGaps(s[1..])
    else if |s| > 1 && IsWhitespace(s[1]) then
      var rest := PieceGaps(s[1..]);
      [[s[0]] + rest[0]] + rest[1..]
    else [[s[0]]] + PieceGaps(s[1..])
  }

  /** Prefixing the first piece prefixes the whole. */
  lemma InterleavePrefix(x: string, ps: seq<string>, gs: seq<string>)
    requires |gs| + 1 == |ps|
    ensures Interleave([x + ps[0]] + ps[1..], gs) == x + Interleave(ps, gs)
  {
    var qs := [x + ps[0]] + ps[1..];
    assert qs[1..] == ps[1..];
  }

  /** The pieces and the gaps between them give back the input. */
  lemma {:induction false} PiecesRoundTrip(s: string)
    ensures Interleave(Pieces(s), PieceGaps(s)) == s
  {
    if s != [] {
      PiecesRoundTrip(s[1..]);
      if !IsWhitespace(s[0]) {
        WordStep(s);
      } else if |s| > 1 && IsWhitespace(s[1]) {
        RunStep(s);
      } else {
        GapStep(s);
      }
    }
  }

  /** A character outside whitespace prefixes the first piece. */
  lemma WordStep(s: string)
    requires s != [] && !IsWhitespace(s[0])
    requires Interleave(Pieces(s[1..]), PieceGaps(s[1..])) == s[1..]
    ensures Interleave(Pieces(s), PieceGaps(s)) == s
  {
    InterleavePrefix([s[0]], Pieces(s[1..]), PieceGaps(s[1..]));
  }

  /** Prefixing the first gap, after an empty first piece, prefixes the whole. */
  lemma InterleaveGapPrefix(x: string, ps: seq<string>, gs: seq<string>)
    requires |gs| + 1 == |ps| && |gs| >= 1 && ps[0] == ""
    ensures Interleave(ps, [x + gs[0]] + gs[1..]) == x + Interleave(ps, gs)
  {
    var g := [x + gs[0]] + gs[1..];
    assert g[1..] == gs[1..];
  }

  /** A whitespace character followed by another lengthens the first gap. */
  lemma RunStep(s: string)
    requires |s| > 1 && IsWhitespace(s[0]) && IsWhitespace(s[1])
    requires Interleave(Pieces(s[1..]), PieceGaps(s[1..])) == s[1..]
    ensures Interleave(Pieces(s), PieceGaps(s)) == s
  {
    var rest := s[1..];
    var ps, gs := Pieces(rest), PieceGaps(rest);
    assert rest[0] == s[1];
    PiecesShape(rest);
    InterleaveGapPrefix([s[0]], ps, gs);
    assert s == [s[0]] + rest;
  }

  /** The last character of a whitespace run opens an empty first piece and a gap. */
  lemma GapStep(s: string)
    requires s != [] && IsWhitespace(s[0]) && !(|s| > 1 && IsWhitespace(s[1]))
    requires Interleave(Pieces(s[1..]), PieceGaps(s[1..])) == s[1..]
    ensures Interleave(Pieces(s), PieceGaps(s)) == s
  {
    var ps, gs := Pieces(s[1..]), PieceGaps(s[1..]);
    var qs, g := [""] + ps, [[s[0]]] + gs;
    assert Pieces(s) == qs && PieceGaps(s) == g;
    assert qs[1..] == ps && g[1..] == gs;
  }

  /** Runs of whitespace written one after another are whitespace. */
  lemma {:induction false} ConcatAllWhitespace(gs: seq<string>)
    requires forall k :: 0 <= k < |gs| ==> AllWhitespace(gs[k])
    ensures AllWhitespace(Concat(gs))
  {
    if gs != [] {
      ConcatAllWhitespace(gs[1..]);
      var c := Concat(gs);
      assert c == gs[0] + Concat(gs[1..]);
      forall i | 0 <= i < |c| ensures IsWhitespace(c[i]) {
        if i >= |gs[0]| {
          assert c[i] == Concat(gs[1..])[i - |gs[0]|];
        }
      }
    }
  }

  /** When every piece after the first is empty, only the gaps remain after it. */
  lemma {:induction false} InterleaveEmptyTail(ps: seq<string>, gs: seq<string>)
    requires |gs| + 1 == |ps|
    requires forall k :: 1 <= k < |ps| ==> ps[k] == ""
    ensures Interleave(ps, gs) == ps[0] + Concat(gs)
  {
    if gs != [] {
      InterleaveEmptyTail(ps[1..], gs[1..]);
      assert ps[1..][0] == "";
    }
  }

  /** Pieces past `m` that are all empty fold into one trailing gap. */
  lemma {:induction false} InterleaveTail(ps: seq<string>, gs: seq<string>, m: nat)
    requires |gs| + 1 == |ps| && 1 <= m <= |ps|
    requires forall k :: m <= k < |ps| ==> ps[k] == ""
    ensures Interleave(ps, gs) == Interleave(ps[..m], gs[..m - 1]) + Concat(gs[m - 1..])
    decreases m
  {
    if m == 1 {
      InterleaveEmptyTail(ps, gs);
      assert gs[0..] == gs;
    } else {
      InterleaveTail(ps[1..], gs[1..], m - 1);
      assert ps[..m][1..] == ps[1..][..m - 1];
      assert gs[..m - 1][1..] == gs[1..][..m - 2];
      assert gs[1..][m - 2..] == gs[m - 1..];
    }
  }

  /** The whitespace runs between consecutive tokens of `Split(s)`. */
  function SplitGaps(s: string): seq<string>
  {
    var m := |Split(s)|;
    if !HasWhitespace(s) || m == 0 then [] else PieceGaps(s)[..m - 1]
  }

  /** The whitespace after the last token (all of `s` when there is no token). */
  function TrailingGap(s: string): string
  {
    var m := |Split(s)|;
    if !HasWhitespace(s) then "" else if m == 0 then s else Concat(PieceGaps(s)[m - 1..])
  }

  /** The tokens, the non-empty whitespace runs between them and the whitespace after the
      last give back the input: with `SplitTokensAreWords` and `SplitTokensNonEmpty`, the
      cuts fall exactly at the whitespace runs. */
  lemma SplitRoundTrip(s: string)
    ensures var t, g := Split(s), SplitGaps(s);
            AllWhitespace(TrailingGap(s)) &&
            (forall k :: 0 <= k < |g| ==> g[k] != "" && AllWhitespace(g[k])) &&
            (t == [] ==> g == [] && TrailingGap(s) == s) &&
            (t != [] ==> |g| + 1 == |t| && s == Interleave(t, g) + TrailingGap(s))
  {
    if HasWhitespace(s) {
      var ps, gs := Pieces(s), PieceGaps(s);
      var m := |Split(s)|;
      if m == 0 {
        SplitEmptyIff(s);
      } else {
        PiecesRoundTrip(s);
        InterleaveTail(ps, gs, m);
        var tail := gs[m - 1..];
        assert forall k :: 0 <= k < |tail| ==> AllWhitespace(tail[k]);
        ConcatAllWhitespace(tail);
      }
    }
  }
}
