/** Index arithmetic of an overwriting ring, shared by the frame ring and the temperature ring. */
module RingIndex {
  import opened Common

  /** Position of the `i`-th oldest of `c` live entries in a ring of `n` slots written next at `w`. */
  function Pos(w: nat, c: nat, n: nat, i: nat): (p: nat)
    requires w < n && c <= n && i < n
    ensures p < n
  {
    var d := w - c + i;
    if d < 0 then d + n else if d < n then d else d - n
  }

  /** The live entries of a ring, oldest first. */
  function ReadRound<T>(views: seq<T>, w: nat, c: nat): (live: seq<T>)
    requires w < |views| && c <= |views|
    ensures |live| == c
  {
    seq(c, i requires 0 <= i < c => views[Pos(w, c, |views|, i)])
  }

  lemma ReadRoundAfterAdd<T>(views: seq<T>, w: nat, c: nat, w': nat, c': nat, history: seq<T>, f: T)
    requires w < |views| && c == Min(|history|, |views|) && (c < |views| ==> w == c)
    requires ReadRound(views, w, c) == LastN(history, |views|)
    requires w' == (if w + 1 < |views| then w + 1 else 0) && c' == Min(c + 1, |views|)
    ensures ReadRound(views[w := f], w', c') == LastN(history + [f], |views|)
  {
    var n := |views|;
    var live := ReadRound(views, w, c);
    forall i | 0 <= i < c'
      ensures ReadRound(views[w := f], w', c')[i] == LastN(history + [f], n)[i]
    {
      if i < c' - 1 {
        assert live[if c < n then i else i + 1] == LastN(history + [f], n)[i];
      }
    }
  }
}
