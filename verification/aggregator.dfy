/**
 The colour the client shows: a fold over the log from its oldest entry to its
 newest, starting from the baseline (127, 127, 127). Unselected entries are
 skipped; a selected absolute entry replaces the running colour; a selected
 relative entry adds its deltas channel by channel modulo 255, using Java's
 truncating `%` and then adding 255 to a negative remainder.
 */
module Aggregator {
  import opened JavaInt
  import opened Commands
  import opened CommandLog

  /** The modulus of a relative step. */
  const Modulus: int := 255

  /** One channel of a relative step as Java computes it; it is Euclidean
      `mod 255`, so it never leaves [0, 254]. */
  function ChannelStep(cur: int, delta: int): (r: int)
    ensures r == (cur + delta) % Modulus
    ensures 0 <= r < Modulus
  {
    RemCorrectedIsMod(cur + delta, Modulus);
    var t := Rem(cur + delta, Modulus);
    if t < 0 then t + Modulus else t
  }

  /** The running colour after one log entry. */
  function Apply(cur: Color, c: Command): (r: Color)
    ensures c.selected && !c.absolute ==>
      && r == Color((cur.r + c.r) % Modulus, (cur.g + c.g) % Modulus, (cur.b + c.b) % Modulus)
      && ColorWithin(r, 0, Modulus - 1)
  {
    if !c.selected then cur
    else if c.absolute then ValuesOf(c)
    else Color(ChannelStep(cur.r, c.r), ChannelStep(cur.g, c.g), ChannelStep(cur.b, c.b))
  }

  /** The fold from `start`: the oldest entry (highest index) is applied first
      and the newest (index 0) last. */
  function Replay(start: Color, log: Log): Color
    decreases |log|
  {
    if |log| == 0 then start else Apply(Replay(start, log[1..]), log[0])
  }

  /** The colour the header shows for a log. */
  function Recompute(log: Log): Color {
    Replay(Baseline, log)
  }

  /** `calculateAndUpdateCurrentValues`: the loop from the last index down to 0,
      with Java's remainder and the correction of a negative result. */
  method CalculateCurrentValues(log: Log) returns (cur: Color)
    ensures cur == Recompute(log)
  {
    var r, g, b := DefaultChannel, DefaultChannel, DefaultChannel;
    var i := |log| - 1;
    while i >= 0
      invariant -1 <= i < |log|
      invariant Color(r, g, b) == Recompute(log[i + 1..])
    {
      var c := log[i];
      assert log[i..][1..] == log[i + 1..];
      if c.selected {
        if c.absolute {
          r, g, b := c.r, c.g, c.b;
        } else {
          r := Rem(r + c.r, Modulus);
          if r < 0 {
            r := r + Modulus;
          }
          g := Rem(g + c.g, Modulus);
          if g < 0 {
            g := g + Modulus;
          }
          b := Rem(b + c.b, Modulus);
          if b < 0 {
            b := b + Modulus;
          }
        }
      }
      i := i - 1;
    }
    assert log[0..] == log;
    cur := Color(r, g, b);
  }

  // ---------------------------------------------------------------------------
  // Bounds

  /** Every entry is one the decoder can produce. */
  predicate AllDecodable(log: Log) {
    forall i :: 0 <= i < |log| ==> Decodable(log[i])
  }

  /** Starting in [0, 255], a log of decodable entries keeps every channel in
      [0, 255]. */
  lemma {:induction false} ReplayWithin(start: Color, log: Log)
    requires ColorWithin(start, 0, 255) && AllDecodable(log)
    ensures ColorWithin(Replay(start, log), 0, 255)
    decreases |log|
  {
    if |log| > 0 {
      assert AllDecodable(log[1..]) by {
        forall i | 0 <= i < |log| - 1
          ensures Decodable(log[1..][i])
        {
          assert log[1..][i] == log[i + 1];
        }
      }
      ReplayWithin(start, log[1..]);
      assert Decodable(log[0]);
    }
  }

  /** The shown colour of a log of decoded commands lies in [0, 255]. */
  lemma RecomputeWithin(log: Log)
    requires AllDecodable(log)
    ensures ColorWithin(Recompute(log), 0, 255)
  {
    ReplayWithin(Baseline, log);
  }

  /** The sums a relative step forms never leave Java's 32-bit `int` range while
      the running colour is in [0, 255] and the entry is decodable. */
  lemma StepSumsFitInt(cur: Color, c: Command)
    requires ColorWithin(cur, 0, 255) && Decodable(c) && !c.absolute
    ensures Int32Min <= cur.r + c.r <= Int32Max
    ensures Int32Min <= cur.g + c.g <= Int32Max
    ensures Int32Min <= cur.b + c.b <= Int32Max
  {
  }

  /** Without selected entries the fold leaves its start unchanged. */
  lemma {:induction false} ReplayNothingSelected(start: Color, log: Log)
    requires forall i :: 0 <= i < |log| ==> !log[i].selected
    ensures Replay(start, log) == start
    decreases |log|
  {
    if |log| > 0 {
      assert !log[0].selected;
      assert forall i :: 0 <= i < |log| - 1 ==> log[1..][i] == log[i + 1];
      ReplayNothingSelected(start, log[1..]);
    }
  }

  /** With nothing selected the header shows the baseline. */
  lemma RecomputeNothingSelected(log: Log)
    requires forall i :: 0 <= i < |log| ==> !log[i].selected
    ensures Recompute(log) == Baseline
  {
    ReplayNothingSelected(Baseline, log);
  }

  /** When the newest selected entry `k` is relative, every channel lies in
      [0, 254]. */
  lemma {:induction false} NewestRelativeBelowModulus(start: Color, log: Log, k: nat)
    requires k < |log| && log[k].selected && !log[k].absolute
    requires forall j :: 0 <= j < k ==> !log[j].selected
    ensures ColorWithin(Replay(start, log), 0, Modulus - 1)
    decreases k
  {
    if k > 0 {
      assert !log[0].selected;
      assert forall j :: 0 <= j < k - 1 ==> log[1..][j] == log[j + 1];
      NewestRelativeBelowModulus(start, log[1..], k - 1);
    }
  }

  // ---------------------------------------------------------------------------
  // The fold's structure

  /** Folding a concatenation: the older part first, then the newer. */
  lemma {:induction false} ReplaySplit(start: Color, newer: Log, older: Log)
    ensures Replay(start, newer + older) == Replay(Replay(start, older), newer)
    decreases |newer|
  {
    if |newer| == 0 {
      assert newer + older == older;
    } else {
      assert (newer + older)[1..] == newer[1..] + older;
      ReplaySplit(start, newer[1..], older);
    }
  }

  /** The fold around one entry `p`: everything older, then `p`, then everything
      newer. */
  lemma Around(start: Color, log: Log, p: nat)
    requires p < |log|
    ensures Replay(start, log) == Replay(Apply(Replay(start, log[p + 1..]), log[p]), log[..p])
  {
    assert log == log[..p] + log[p..];
    ReplaySplit(start, log[..p], log[p..]);
    assert log[p..][1..] == log[p + 1..];
  }

  /** An unselected entry contributes nothing: the fold is the same without it. */
  lemma DropUnselected(start: Color, log: Log, p: nat)
    requires p < |log| && !log[p].selected
    ensures Replay(start, log) == Replay(start, log[..p] + log[p + 1..])
  {
    Around(start, log, p);
    ReplaySplit(start, log[..p], log[p + 1..]);
  }

  /** Entries older than a selected absolute entry have no effect: the fold
      restarts from that entry's values. */
  lemma ResetByAbsolute(start: Color, log: Log, k: nat)
    requires k < |log| && log[k].selected && log[k].absolute
    ensures Replay(start, log) == Replay(ValuesOf(log[k]), log[..k])
  {
    Around(start, log, k);
  }

  /** A click on entry `p` changes only that entry's contribution. */
  lemma ToggleRecompute(log: Log, p: nat)
    requires p < |log|
    ensures Recompute(Toggle(log, p))
      == Replay(Apply(Recompute(log[p + 1..]), log[p].(selected := !log[p].selected)), log[..p])
  {
    var t := Toggle(log, p);
    Around(Baseline, t, p);
    assert t[..p] == log[..p];
    assert t[p + 1..] == log[p + 1..];
    assert t[p] == log[p].(selected := !log[p].selected);
  }

  /** Deselecting an entry shows the colour of the log without it. */
  lemma DeselectRemovesContribution(log: Log, p: nat)
    requires p < |log| && log[p].selected
    ensures Recompute(Toggle(log, p)) == Recompute(log[..p] + log[p + 1..])
  {
    var t := Toggle(log, p);
    DropUnselected(Baseline, t, p);
    assert t[..p] == log[..p];
    assert t[p + 1..] == log[p + 1..];
  }

  // ---------------------------------------------------------------------------
  // Arrivals

  /** Immediately after an absolute command arrives, the header shows its
      values. */
  lemma AbsoluteArrivalResets(log: Log, c: Command)
    requires c.absolute
    ensures Recompute(Receive(log, c)) == ValuesOf(c)
  {
    var r := Receive(log, c);
    assert r[0].selected && r[0].absolute && ValuesOf(r[0]) == ValuesOf(c);
  }

  /** A relative command arriving applies one relative step to the colour shown
      before it. */
  lemma RelativeArrival(log: Log, c: Command)
    requires !c.absolute
    ensures Recompute(Receive(log, c)) == Apply(Recompute(log), c.(selected := true))
  {
    var r := Receive(log, c);
    assert r[1..] == log;
  }

  /** The colour after one arrival, in terms of the colour before it. */
  function Arrive(cur: Color, c: Command): Color {
    if c.absolute then ValuesOf(c) else Apply(cur, c.(selected := true))
  }

  /** The colour after a run of arrivals, folded in arrival order (`cmds[0]`
      first), without a log. */
  function ReplayArrivals(start: Color, cmds: seq<Command>): Color
    decreases |cmds|
  {
    if |cmds| == 0 then start
    else Arrive(ReplayArrivals(start, cmds[..|cmds| - 1]), cmds[|cmds| - 1])
  }

  /** Recomputing the whole log after a run of arrivals gives the arrival-order
      fold of those commands from the colour shown before them. */
  lemma {:induction false} RecomputeAfterArrivals(log: Log, cmds: seq<Command>)
    ensures Recompute(ReceiveAll(log, cmds)) == ReplayArrivals(Recompute(log), cmds)
    decreases |cmds|
  {
    if |cmds| > 0 {
      var n := |cmds| - 1;
      RecomputeAfterArrivals(log, cmds[..n]);
      if cmds[n].absolute {
        AbsoluteArrivalResets(ReceiveAll(log, cmds[..n]), cmds[n]);
      } else {
        RelativeArrival(ReceiveAll(log, cmds[..n]), cmds[n]);
      }
    }
  }

  /** An absolute command with values (100, 100, 100) followed by a relative one
      with deltas (10, 10, 10) shows (110, 110, 110). */
  lemma WorkedExample()
    ensures Recompute(ReceiveAll([], [Command(true, 100, 100, 100, false), Command(false, 10, 10, 10, false)]))
      == Color(110, 110, 110)
  {
    var cmds := [Command(true, 100, 100, 100, false), Command(false, 10, 10, 10, false)];
    RecomputeAfterArrivals([], cmds);
    assert cmds[..1][..0] == [];
  }

  /** Java's remainder with the correction wraps below zero: 2 - 5 gives 252. */
  lemma NegativeWraps()
    ensures ChannelStep(2, -5) == 252
  {
  }
}
