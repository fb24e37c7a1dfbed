/** Rank and select over the metadata bits: the k-th run-end marker closes the run of the k-th
    occupied quotient, so positions can be computed by counting bits. */
module RankSelect {
  import opened Words
  import opened Layout

  /** j is the last base cell of the run: the only cell marked as run end, followed by its
      extension and counter cells only. */
  ghost predicate EndsAt(enc: Enc, j: nat) {
    && j < |enc|
    && enc[j].IsRunEnd()
    && (forall i | 0 <= i < j :: !enc[i].IsRunEnd())
    && (forall i | j < i < |enc| :: enc[i].ext)
  }

  ghost predicate WellFormed(enc: Enc) {
    enc != [] ==> !enc[0].ext && exists j: nat :: EndsAt(enc, j)
  }

  function RunEnds(cells: seq<Cell>): (r: seq<bool>)
    ensures |r| == |cells| && forall i | 0 <= i < |r| :: r[i] == cells[i].IsRunEnd()
  {
    seq(|cells|, i requires 0 <= i < |cells| => cells[i].IsRunEnd())
  }

  ghost predicate Occupied(encs: seq<Enc>, occ: seq<bool>) {
    |occ| == |encs| && forall q {:trigger occ[q]} | 0 <= q < |encs| :: occ[q] <==> encs[q] != []
  }

  ghost predicate Indexed(encs: seq<Enc>, cells: seq<Cell>, occ: seq<bool>) {
    && Stored(encs, cells)
    && Occupied(encs, occ)
    && forall q {:trigger WellFormed(encs[q])} | 0 <= q < |encs| :: WellFormed(encs[q])
  }

  lemma {:induction false} GapHasNoRunEnds(encs: seq<Enc>, cells: seq<Cell>, q: nat, lo: nat, hi: nat)
    requires Stored(encs, cells) && q <= |encs|
    requires Next(encs, q) <= lo <= hi <= q
    ensures Count(RunEnds(cells), lo, hi) == 0
  {
    forall i | lo <= i < hi
      ensures !RunEnds(cells)[i]
    {
      UnusedAfterNext(encs, q, i);
    }
    CountZero(RunEnds(cells), lo, hi);
  }

  lemma {:induction false} RunHasOneRunEnd(encs: seq<Enc>, cells: seq<Cell>, q: nat)
    requires |cells| == |encs| && q < |encs| && encs[q] != [] && WellFormed(encs[q]) && RunAt(encs, cells, q)
    ensures Count(RunEnds(cells), Start(encs, q), Start(encs, q) + |encs[q]|) == 1
  {
    var r, s := RunEnds(cells), Start(encs, q);
    var j: nat :| EndsAt(encs[q], j);
    assert r[s + j];
    CountPositive(r, s, s + |encs[q]|, s + j);
    CountZero(r, s, s + j);
    CountZero(r, s + j + 1, s + |encs[q]|);
  }

  /** The run ends of the quotients below q are exactly those stored before Next(q). */
  lemma {:induction false} RankAtNext(encs: seq<Enc>, cells: seq<Cell>, occ: seq<bool>, q: nat)
    requires Indexed(encs, cells, occ) && q <= |encs|
    ensures Next(encs, q) < |encs|
    ensures Count(RunEnds(cells), 0, Next(encs, q)) == Count(occ, 0, q)
    decreases q, 0
  {
    hide Next, Start, Count, WellFormed;
    NextMonotone(encs, q, |encs|);
    if q == 0 {
      NextStarts(encs, RunEnds(cells), occ);
    } else {
      var r := RunEnds(cells);
      NextStep(encs, occ, q - 1);
      RankAtNext(encs, cells, occ, q - 1);
      if encs[q - 1] != [] {
        var s := Start(encs, q - 1);
        assert RunAt(encs, cells, q - 1);
        RunHasOneRunEnd(encs, cells, q - 1);
        CountSplit(r, 0, s, s + |encs[q - 1]|);
        RankAtGap(encs, cells, occ, q - 1, s);
      }
    }
  }

  lemma NextStarts(encs: seq<Enc>, r: seq<bool>, occ: seq<bool>)
    ensures Next(encs, 0) == 0 && Count(r, 0, 0) == 0 && Count(occ, 0, 0) == 0
  {
  }

  lemma NextStep(encs: seq<Enc>, occ: seq<bool>, q: nat)
    requires Occupied(encs, occ) && q < |encs|
    ensures Count(occ, 0, q + 1) == Count(occ, 0, q) + if encs[q] != [] then 1 else 0
    ensures Next(encs, q + 1) == if encs[q] == [] then Next(encs, q) else Start(encs, q) + |encs[q]|
    ensures Start(encs, q) == Next(encs, q) || Next(encs, q) <= Start(encs, q) <= q
  {
  }

  /** ... and also those stored before any later position that is still at most q. */
  lemma {:induction false} RankAtGap(encs: seq<Enc>, cells: seq<Cell>, occ: seq<bool>, q: nat, p: nat)
    requires Indexed(encs, cells, occ) && q <= |encs| && (p == Next(encs, q) || Next(encs, q) <= p <= q)
    ensures p <= |encs| && Count(RunEnds(cells), 0, p) == Count(occ, 0, q)
    decreases q, 1
  {
    RankAtNext(encs, cells, occ, q);
    if p != Next(encs, q) {
      CountSplit(RunEnds(cells), 0, Next(encs, q), p);
      GapHasNoRunEnds(encs, cells, q, Next(encs, q), p);
    }
  }

  lemma {:induction false} LastRun(encs: seq<Enc>, occ: seq<bool>, q: nat) returns (o: nat)
    requires Occupied(encs, occ) && q <= |encs| && Count(occ, 0, q) > 0
    ensures o < q && encs[o] != [] && Count(occ, 0, q) == Count(occ, 0, o) + 1
    ensures Next(encs, q) == Start(encs, o) + |encs[o]|
    decreases q
  {
    if occ[q - 1] {
      o := q - 1;
    } else {
      o := LastRun(encs, occ, q - 1);
    }
  }

  /** The cell behind the last run of the quotients below q starts a run or is unused. */
  lemma {:induction false} BehindRun(encs: seq<Enc>, cells: seq<Cell>, occ: seq<bool>, q: nat)
    requires Indexed(encs, cells, occ) && q <= |encs|
    ensures Next(encs, q) < |cells| && !cells[Next(encs, q)].ext
  {
    NextMonotone(encs, q, |encs|);
    var n := Next(encs, q);
    if Used(encs, n) {
      var o := UsedHasOwner(encs, n, n + 1);
      if o < q {
        NextMonotone(encs, o + 1, q);
      } else {
        NextMonotone(encs, q, o);
        assert RunAt(encs, cells, o);
        assert WellFormed(encs[o]);
      }
    }
  }

  /** What select finds: the base cell that closes the last run with quotient below q; the rest of
      that run is extension and counter cells, and then the run is over. */
  lemma {:induction false} SelectFindsRunEnd(encs: seq<Enc>, cells: seq<Cell>, occ: seq<bool>, q: nat, p: nat)
    requires Indexed(encs, cells, occ) && q <= |encs| && p < |cells|
    requires cells[p].IsRunEnd() && Count(RunEnds(cells), 0, p) + 1 == Count(occ, 0, q)
    ensures p < Next(encs, q) < |cells|
    ensures forall i | p < i < Next(encs, q) :: cells[i].ext
    ensures !cells[Next(encs, q)].ext
  {
    var r := RunEnds(cells);
    var o := LastRun(encs, occ, q);
    assert RunAt(encs, cells, o) && WellFormed(encs[o]);
    var s := Start(encs, o);
    var j: nat :| EndsAt(encs[o], j);
    RankAtGap(encs, cells, occ, o, s);
    CountSplit(r, 0, s, s + j);
    CountZero(r, s, s + j);
    CountInjective(r, 0, p, s + j);
    BehindRun(encs, cells, occ, q);
  }

  /** offset_lower_bound when the cached offset lies inside the inspected prefix of the block. */
  lemma {:induction false} OpenRunsAt(encs: seq<Enc>, cells: seq<Cell>, occ: seq<bool>, s: nat)
    requires Indexed(encs, cells, occ) && s < |cells|
    ensures var t := Count(occ, 0, s + 1) - Count(RunEnds(cells), 0, s);
            0 <= t && s + t <= Max(s, Next(encs, s + 1)) &&
            (!cells[s].ext ==> (t == 0 <==> !Used(encs, s)))
  {
    var r, n := RunEnds(cells), Next(encs, s + 1);
    RankAtNext(encs, cells, occ, s + 1);
    if n <= s {
      CountSplit(r, 0, n, s);
      GapHasNoRunEnds(encs, cells, s + 1, n, s);
    } else {
      CountSplit(r, 0, s, n);
      if Count(r, s, n) == 0 {
        NoRunEndMeansExtension(encs, cells, occ, s);
      }
    }
  }

  lemma {:induction false} NoRunEndMeansExtension(encs: seq<Enc>, cells: seq<Cell>, occ: seq<bool>, s: nat)
    requires Indexed(encs, cells, occ) && s < |cells| && s < Next(encs, s + 1) <= |cells|
    requires Count(RunEnds(cells), s, Next(encs, s + 1)) == 0
    ensures cells[s].ext
  {
    var r, n := RunEnds(cells), Next(encs, s + 1);
    var o := UsedHasOwner(encs, n - 1, s + 1);
    NextMonotone(encs, o + 1, s + 1);
    assert RunAt(encs, cells, o) && WellFormed(encs[o]);
    var j: nat :| EndsAt(encs[o], j);
    var p := Start(encs, o) + j;
    if s <= p {
      assert r[p];
      CountPositive(r, s, n, p);
    }
  }

  /** offset_lower_bound when the cached offset (a lower bound of the spill) lies behind it. */
  lemma {:induction false} SpilledRunsAt(encs: seq<Enc>, cells: seq<Cell>, occ: seq<bool>, b: nat, s: nat, off: nat)
    requires Indexed(encs, cells, occ) && 64 * b <= s < 64 * b + 64 && s < |cells|
    requires s - 64 * b < off <= Spill(encs, b)
    ensures s + (off - (s - 64 * b)) + Count(occ, 64 * b, s + 1) <= Next(encs, s + 1)
    ensures Used(encs, s)
  {
    hide Next, Count, WellFormed;
    var r, m, n := RunEnds(cells), Next(encs, 64 * b), Next(encs, s + 1);
    NextMonotone(encs, 64 * b, s + 1);
    RankAtNext(encs, cells, occ, 64 * b);
    RankAtNext(encs, cells, occ, s + 1);
    CountSplit(occ, 0, 64 * b, s + 1);
    CountSplit(r, 0, m, n);
  }
}
