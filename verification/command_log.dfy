/**
 The client's log of received commands. The log only grows: every command is
 inserted at the front, so the log is stored newest first and arrival order is
 the reverse of index order. An arriving absolute command first deselects
 every entry already logged; every arriving command is logged as selected. A
 click on an entry flips that entry's selection and nothing else.
 */
module CommandLog {
  import opened Commands

  /** Newest first: index 0 holds the most recently received command. */
  type Log = seq<Command>

  /** Every entry deselected, contents untouched (`clearAllSelected`). */
  function ClearAllSelected(log: Log): (r: Log)
    ensures |r| == |log|
    ensures forall i :: 0 <= i < |r| ==> SameContent(r[i], log[i]) && !r[i].selected
  {
    seq(|log|, i requires 0 <= i < |log| => log[i].(selected := false))
  }

  /** A decoded command arriving at the user-interface thread: an absolute command
      clears all earlier selections, the command is marked selected and is
      inserted at index 0. */
  function Receive(log: Log, c: Command): (r: Log)
    ensures |r| == |log| + 1
    ensures SameContent(r[0], c) && r[0].selected
    ensures forall i :: 1 <= i < |r| ==> SameContent(r[i], log[i - 1])
    ensures forall i :: 1 <= i < |r| ==> r[i].selected == (log[i - 1].selected && !c.absolute)
  {
    var older := if c.absolute then ClearAllSelected(log) else log;
    [c.(selected := true)] + older
  }

  /** A click on entry `p`: an unselected entry becomes selected, a selected one
      becomes unselected. */
  function Toggle(log: Log, p: nat): (r: Log)
    requires p < |log|
    ensures |r| == |log|
    ensures SameContent(r[p], log[p]) && r[p].selected == !log[p].selected
    ensures forall i :: 0 <= i < |log| && i != p ==> r[i] == log[i]
  {
    if !log[p].selected then
      log[p := log[p].(selected := true)]
    else
      log[p := log[p].(selected := false)]
  }

  /** Two clicks on the same entry restore the log. */
  lemma ToggleTwice(log: Log, p: nat)
    requires p < |log|
    ensures Toggle(Toggle(log, p), p) == log
  {
  }

  /** The log after receiving `cmds` in arrival order (`cmds[0]` first). */
  function ReceiveAll(log: Log, cmds: seq<Command>): (r: Log)
    ensures |r| == |log| + |cmds|
    decreases |cmds|
  {
    if |cmds| == 0 then log
    else Receive(ReceiveAll(log, cmds[..|cmds| - 1]), cmds[|cmds| - 1])
  }

  /** After a run of arrivals the new commands sit at the front of the log,
      newest first. */
  lemma {:induction false} ArrivalsAtFront(log: Log, cmds: seq<Command>, i: nat)
    requires i < |cmds|
    ensures SameContent(ReceiveAll(log, cmds)[i], cmds[|cmds| - 1 - i])
    decreases |cmds|
  {
    if i > 0 {
      var n := |cmds| - 1;
      ArrivalsAtFront(log, cmds[..n], i - 1);
      ReceiveAllShift(log, cmds, i - 1);
      assert cmds[..n][n - 1 - (i - 1)] == cmds[n - i];
    }
  }

  /** The log only grows: after a run of arrivals the earlier entries follow the
      new ones, in their order and with their contents unchanged. */
  lemma {:induction false} EarlierEntriesKept(log: Log, cmds: seq<Command>, i: nat)
    requires i < |log|
    ensures SameContent(ReceiveAll(log, cmds)[|cmds| + i], log[i])
    decreases |cmds|
  {
    if |cmds| == 0 {
      assert ReceiveAll(log, cmds) == log;
    } else {
      var n := |cmds| - 1;
      var prev := ReceiveAll(log, cmds[..n]);
      EarlierEntriesKept(log, cmds[..n], i);
      assert SameContent(prev[n + i], log[i]);
      ReceiveAllShift(log, cmds, n + i);
      assert SameContent(ReceiveAll(log, cmds)[n + i + 1], prev[n + i]);
    }
  }

  /** The last arrival shifts every entry of the log before it by one place. */
  lemma ReceiveAllShift(log: Log, cmds: seq<Command>, k: nat)
    requires |cmds| > 0 && k < |log| + |cmds| - 1
    ensures var prev := ReceiveAll(log, cmds[..|cmds| - 1]);
      && SameContent(ReceiveAll(log, cmds)[k + 1], prev[k])
      && ReceiveAll(log, cmds)[k + 1].selected == (prev[k].selected && !cmds[|cmds| - 1].absolute)
  {
    var n := |cmds| - 1;
    var prev := ReceiveAll(log, cmds[..n]);
    var r := Receive(prev, cmds[n]);
    assert ReceiveAll(log, cmds) == r;
    assert SameContent(r[k + 1], prev[k]) && r[k + 1].selected == (prev[k].selected && !cmds[n].absolute);
  }

  /** No absolute command among the first `n` entries. */
  predicate NoAbsoluteBefore(log: Log, n: nat)
    requires n <= |log|
  {
    forall j :: 0 <= j < n ==> !log[j].absolute
  }

  /** A log whose entries from index 1 on are another log's, shifted by one
      place, has no absolute entry among its first `k + 1` exactly when its front
      entry is relative and the other log has none among its first `k`. */
  lemma NoAbsoluteAfterFront(r: Log, prev: Log, k: nat)
    requires k < |r| && k <= |prev|
    requires forall j :: 1 <= j <= k ==> r[j].absolute == prev[j - 1].absolute
    ensures NoAbsoluteBefore(r, k + 1) <==> !r[0].absolute && NoAbsoluteBefore(prev, k)
  {
    if !r[0].absolute && NoAbsoluteBefore(prev, k) {
      forall j | 0 <= j < k + 1
        ensures !r[j].absolute
      {
        if j > 0 {
          assert !prev[j - 1].absolute;
        }
      }
    }
    if NoAbsoluteBefore(r, k + 1) {
      forall j | 0 <= j < k
        ensures !prev[j].absolute
      {
        assert !r[j + 1].absolute;
      }
    }
  }

  /** The same, for the log before and after the last of a run of arrivals. */
  lemma NoAbsoluteShift(log: Log, cmds: seq<Command>, k: nat)
    requires |cmds| > 0 && k < |log| + |cmds|
    ensures NoAbsoluteBefore(ReceiveAll(log, cmds), k + 1)
        <==> !cmds[|cmds| - 1].absolute && NoAbsoluteBefore(ReceiveAll(log, cmds[..|cmds| - 1]), k)
  {
    var r := ReceiveAll(log, cmds);
    var prev := ReceiveAll(log, cmds[..|cmds| - 1]);
    assert r == Receive(prev, cmds[|cmds| - 1]);
    NoAbsoluteAfterFront(r, prev, k);
  }

  /** After a run of arrivals, a newly logged entry is selected exactly when no
      newer entry is absolute. */
  lemma {:induction false} SelectionOfArrival(log: Log, cmds: seq<Command>, i: nat)
    requires i < |cmds|
    ensures ReceiveAll(log, cmds)[i].selected <==> NoAbsoluteBefore(ReceiveAll(log, cmds), i)
    decreases |cmds|
  {
    if i > 0 {
      var n := |cmds| - 1;
      SelectionOfArrival(log, cmds[..n], i - 1);
      ReceiveAllShift(log, cmds, i - 1);
      NoAbsoluteShift(log, cmds, i - 1);
    }
  }

  /** Every command is relative. */
  predicate AllRelative(cmds: seq<Command>) {
    forall j :: 0 <= j < |cmds| ==> !cmds[j].absolute
  }

  lemma AllRelativeLast(cmds: seq<Command>)
    requires |cmds| > 0
    ensures AllRelative(cmds) <==> AllRelative(cmds[..|cmds| - 1]) && !cmds[|cmds| - 1].absolute
  {
    if AllRelative(cmds[..|cmds| - 1]) && !cmds[|cmds| - 1].absolute {
      forall j | 0 <= j < |cmds|
        ensures !cmds[j].absolute
      {
        if j < |cmds| - 1 {
          assert cmds[j] == cmds[..|cmds| - 1][j];
        }
      }
    }
  }

  /** After a run of arrivals, an entry logged before keeps its selection exactly
      when every arrival is relative, and is deselected otherwise. */
  lemma {:induction false} SelectionOfEarlierEntry(log: Log, cmds: seq<Command>, i: nat)
    requires i < |log|
    ensures ReceiveAll(log, cmds)[|cmds| + i].selected <==> log[i].selected && AllRelative(cmds)
    decreases |cmds|
  {
    if |cmds| > 0 {
      var n := |cmds| - 1;
      SelectionOfEarlierEntry(log, cmds[..n], i);
      ReceiveAllShift(log, cmds, n + i);
      AllRelativeLast(cmds);
    }
  }
}
