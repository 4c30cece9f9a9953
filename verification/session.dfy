/**
 One connection from start to end. The client thread decodes commands from the
 stream one after another and posts each to the user-interface thread; when the
 stream ends (at a command boundary or part way through a command) the read
 throws and the thread posts `null` instead. The user-interface thread handles
 the posts in order: a command is received into the log and the header shows
 the recomputed colour; `null` makes the header show the connection error.

 The server's side is modelled too: it tracks its own colour while it sends,
 and the client's header follows that colour command by command.
 */
module Session {
  import opened Options
  import opened JavaInt
  import opened Commands
  import opened CommandLog
  import opened Decoder
  import opened Aggregator

  /** What the user-interface thread handles: a decoded command or `null`
      posted by the client thread, or a click on row `position` of the list. */
  datatype Event = Posted(cmd: Command) | Failed | Clicked(position: nat)

  /** The header text: the current colour, or the connection-error message. */
  datatype Header = Shows(color: Color) | InvalidIp

  /** The state the user-interface thread keeps. */
  datatype Screen = Screen(log: Log, header: Header)

  /** The screen once the connect button is pressed: an empty log and the
      baseline colour in the header. */
  const Connected := Screen([], Shows(Baseline))

  // ---------------------------------------------------------------------------
  // The client thread

  /** Posts as the client thread makes them: decoded commands, unselected,
      then exactly one `null` at the end. */
  predicate PostsEndInFailure(p: seq<Event>) {
    && |p| >= 1 && p[|p| - 1] == Failed
    && forall i :: 0 <= i < |p| - 1 ==> p[i].Posted? && !p[i].cmd.selected && Decodable(p[i].cmd)
  }

  lemma PrependPost(c: Command, p: seq<Event>)
    requires PostsEndInFailure(p) && !c.selected && Decodable(c)
    ensures PostsEndInFailure([Posted(c)] + p)
  {
    var q := [Posted(c)] + p;
    assert forall i :: 1 <= i < |q| ==> q[i] == p[i - 1];
  }

  /** The posts of the read loop over the whole stream. */
  function ClientPosts(s: seq<Byte>): (p: seq<Event>)
    ensures PostsEndInFailure(p)
    decreases |s|
  {
    match Decode(s)
    case None => [Failed]
    case Some(got) =>
      DecodeConsumes(s);
      var tail := ClientPosts(got.rest);
      PrependPost(got.value, tail);
      [Posted(got.value)] + tail
  }

  /** The commands a stream holds, in order: decode from the front until a
      command is missing or cut short. */
  function DecodeAll(s: seq<Byte>): seq<Command>
    decreases |s|
  {
    match Decode(s)
    case None => []
    case Some(got) =>
      DecodeConsumes(s);
      [got.value] + DecodeAll(got.rest)
  }

  /** A stream that starts with a whole command holds that command, then the
      commands of the rest. */
  lemma DecodeAllStep(s: seq<Byte>)
    requires Decode(s).Some?
    ensures DecodeAll(s) == [Decode(s).value.value] + DecodeAll(Decode(s).value.rest)
  {
  }

  /** Each command posted as it is. */
  function PostAll(cmds: seq<Command>): (p: seq<Event>)
    ensures |p| == |cmds|
    ensures forall i :: 0 <= i < |p| ==> p[i] == Posted(cmds[i])
  {
    seq(|cmds|, i requires 0 <= i < |cmds| => Posted(cmds[i]))
  }

  /** A stream that starts with a whole command posts that command first. */
  lemma ClientPostsStep(s: seq<Byte>)
    requires Decode(s).Some?
    ensures ClientPosts(s) == [Posted(Decode(s).value.value)] + ClientPosts(Decode(s).value.rest)
  {
  }

  lemma PostAllCons(c: Command, cmds: seq<Command>)
    ensures PostAll([c] + cmds) == [Posted(c)] + PostAll(cmds)
  {
  }

  /** The client thread posts the stream's commands, then `null`. */
  lemma {:induction false} PostsOfStream(s: seq<Byte>)
    ensures ClientPosts(s) == PostAll(DecodeAll(s)) + [Failed]
    decreases |s|
  {
    if Decode(s).Some? {
      var got := Decode(s).value;
      DecodeConsumes(s);
      PostsOfStream(got.rest);
      ClientPostsStep(s);
      DecodeAllStep(s);
      var tail := DecodeAll(got.rest);
      PostAllCons(got.value, tail);
      assert [Posted(got.value)] + (PostAll(tail) + [Failed]) == ([Posted(got.value)] + PostAll(tail)) + [Failed];
    }
  }

  // ---------------------------------------------------------------------------
  // The user-interface thread

  /** One event on the user-interface thread: `UIThread.run` for a post and
      `onItemClick` for a click. The list only reports clicks on its rows, so a
      click elsewhere changes nothing. */
  function Handle(sc: Screen, e: Event): Screen {
    match e
    case Failed => sc.(header := InvalidIp)
    case Posted(c) =>
      var log := Receive(sc.log, c);
      Screen(log, Shows(Recompute(log)))
    case Clicked(p) =>
      if p < |sc.log| then
        var log := Toggle(sc.log, p);
        Screen(log, Shows(Recompute(log)))
      else sc
  }

  /** The events handled in the order they occur. */
  function HandleAll(sc: Screen, posts: seq<Event>): Screen
    decreases |posts|
  {
    if |posts| == 0 then sc else HandleAll(Handle(sc, posts[0]), posts[1..])
  }

  /** Receiving one command and then a run of others is receiving them all. */
  lemma {:induction false} ReceiveThenAll(log: Log, c: Command, cmds: seq<Command>)
    ensures ReceiveAll(Receive(log, c), cmds) == ReceiveAll(log, [c] + cmds)
    decreases |cmds|
  {
    if |cmds| == 0 {
      assert ([c] + cmds)[..0] == [];
    } else {
      var n := |cmds| - 1;
      ReceiveThenAll(log, c, cmds[..n]);
      assert ([c] + cmds)[..n + 1] == [c] + cmds[..n];
    }
  }

  /** Handling a run of posted commands: the log has received them all and,
      unless there were none, the header shows the log's recomputed colour. */
  lemma {:induction false} HandleCommands(sc: Screen, cmds: seq<Command>)
    ensures HandleAll(sc, PostAll(cmds)).log == ReceiveAll(sc.log, cmds)
    ensures HandleAll(sc, PostAll(cmds)).header
      == if |cmds| == 0 then sc.header else Shows(Recompute(ReceiveAll(sc.log, cmds)))
    decreases |cmds|
  {
    if |cmds| == 0 {
      assert ReceiveAll(sc.log, cmds) == sc.log;
    } else {
      var next := Handle(sc, Posted(cmds[0]));
      assert PostAll(cmds)[1..] == PostAll(cmds[1..]);
      HandleCommands(next, cmds[1..]);
      ReceiveThenAll(sc.log, cmds[0], cmds[1..]);
      assert [cmds[0]] + cmds[1..] == cmds;
    }
  }

  /** A click on a row shows the colour in which only that row's contribution
      has changed, and keeps the rest of the log. */
  lemma ClickChangesOneContribution(sc: Screen, p: nat)
    requires p < |sc.log|
    ensures Handle(sc, Clicked(p)).log == Toggle(sc.log, p)
    ensures Handle(sc, Clicked(p)).header
      == Shows(Replay(Apply(Recompute(sc.log[p + 1..]), sc.log[p].(selected := !sc.log[p].selected)), sc.log[..p]))
  {
    ToggleRecompute(sc.log, p);
  }

  /** Whatever clicks came before, an absolute command makes the header show
      its values. */
  lemma AbsoluteResynchronises(sc: Screen, c: Command)
    requires c.absolute
    ensures Handle(sc, Posted(c)).header == Shows(ValuesOf(c))
  {
    AbsoluteArrivalResets(sc.log, c);
  }

  /** Handling a concatenation of posts is handling one part after the other. */
  lemma {:induction false} HandleSplit(sc: Screen, a: seq<Event>, b: seq<Event>)
    ensures HandleAll(sc, a + b) == HandleAll(HandleAll(sc, a), b)
    decreases |a|
  {
    if |a| == 0 {
      assert a + b == b;
    } else {
      assert (a + b)[1..] == a[1..] + b;
      HandleSplit(Handle(sc, a[0]), a[1..], b);
    }
  }

  /** At the end of a connection the log holds every command of the stream,
      newest first, and the header shows the connection error. */
  lemma SessionEnd(s: seq<Byte>)
    ensures HandleAll(Connected, ClientPosts(s)) == Screen(ReceiveAll([], DecodeAll(s)), InvalidIp)
  {
    var cmds := DecodeAll(s);
    PostsOfStream(s);
    HandleSplit(Connected, PostAll(cmds), [Failed]);
    HandleCommands(Connected, cmds);
    var mid := HandleAll(Connected, PostAll(cmds));
    assert HandleAll(mid, [Failed]) == Handle(mid, Failed);
  }

  /** After the first `k` commands of a stream have been handled, the header
      shows the arrival-order fold of those commands from the baseline. */
  lemma HeaderAfterCommands(s: seq<Byte>, k: nat)
    requires 0 < k <= |DecodeAll(s)|
    ensures k < |ClientPosts(s)|
    ensures HandleAll(Connected, ClientPosts(s)[..k]).header
      == Shows(ReplayArrivals(Baseline, DecodeAll(s)[..k]))
  {
    var cmds := DecodeAll(s);
    PostsOfStream(s);
    PostAllPrefix(cmds, k);
    var prefix := cmds[..k];
    HandleCommands(Connected, prefix);
    assert HandleAll(Connected, PostAll(prefix)).header == Shows(Recompute(ReceiveAll([], prefix)));
    RecomputeAfterArrivals([], prefix);
    assert Recompute([]) == Baseline;
  }

  lemma PostAllPrefix(cmds: seq<Command>, k: nat)
    requires k <= |cmds|
    ensures (PostAll(cmds) + [Failed])[..k] == PostAll(cmds[..k])
  {
  }

  // ---------------------------------------------------------------------------
  // The server

  /** A command the server sends: an absolute colour with channels in
      [0, 255], or a relative one with deltas in [-10, 10]. It carries no
      selection. */
  predicate ServerCommand(c: Command) {
    && !c.selected
    && (c.absolute ==> ColorWithin(ValuesOf(c), 0, 255))
    && (!c.absolute ==> ColorWithin(ValuesOf(c), -10, 10))
  }

  predicate AllServerCommands(cmds: seq<Command>) {
    forall i :: 0 <= i < |cmds| ==> ServerCommand(cmds[i])
  }

  lemma AllServerTail(cmds: seq<Command>)
    requires |cmds| > 0 && AllServerCommands(cmds)
    ensures ServerCommand(cmds[0]) && AllServerCommands(cmds[1..])
  {
    assert forall i :: 0 <= i < |cmds| - 1 ==> cmds[1..][i] == cmds[i + 1];
  }

  /** The bytes the server sends for one command. */
  function Encode(c: Command): (s: seq<Byte>)
    requires ServerCommand(c)
    ensures |s| == (if c.absolute then 4 else 7)
  {
    if c.absolute then EncodeAbsolute(ValuesOf(c)) else EncodeRelative(ValuesOf(c))
  }

  /** The bytes the server sends for a run of commands. */
  function EncodeAll(cmds: seq<Command>): seq<Byte>
    requires AllServerCommands(cmds)
    decreases |cmds|
  {
    if |cmds| == 0 then [] else Encode(cmds[0]) + EncodeAll(cmds[1..])
  }

  /** One server command decodes to itself and leaves the rest of the stream. */
  lemma EncodeRoundTrip(c: Command, rest: seq<Byte>)
    requires ServerCommand(c)
    ensures Decode(Encode(c) + rest) == Some(Got(c, rest))
  {
    if c.absolute {
      AbsoluteRoundTrip(ValuesOf(c), rest);
    } else {
      ServerDeltasDecodeExactly(c.r);
      ServerDeltasDecodeExactly(c.g);
      ServerDeltasDecodeExactly(c.b);
      RelativeRoundTrip(ValuesOf(c), rest);
    }
  }

  /** A stream that starts with a server command holds that command, then the
      commands of the rest. */
  lemma DecodeFirst(c: Command, rest: seq<Byte>)
    requires ServerCommand(c)
    ensures DecodeAll(Encode(c) + rest) == [c] + DecodeAll(rest)
  {
    EncodeRoundTrip(c, rest);
    DecodeAllStep(Encode(c) + rest);
  }

  /** The first command the server sent is decoded first. */
  lemma DecodeEncodeFirst(cmds: seq<Command>)
    requires |cmds| > 0 && AllServerCommands(cmds)
    ensures AllServerCommands(cmds[1..])
    ensures DecodeAll(EncodeAll(cmds)) == [cmds[0]] + DecodeAll(EncodeAll(cmds[1..]))
  {
    AllServerTail(cmds);
    var rest := EncodeAll(cmds[1..]);
    assert EncodeAll(cmds) == Encode(cmds[0]) + rest;
    DecodeFirst(cmds[0], rest);
  }

  /** The client decodes exactly the commands the server sent. */
  lemma {:induction false} DecodeEncodeAll(cmds: seq<Command>)
    requires AllServerCommands(cmds)
    ensures DecodeAll(EncodeAll(cmds)) == cmds
    decreases |cmds|
  {
    if |cmds| == 0 {
      assert EncodeAll(cmds) == [];
    } else {
      DecodeEncodeFirst(cmds);
      DecodeEncodeAll(cmds[1..]);
      assert [cmds[0]] + cmds[1..] == cmds;
    }
  }

  /** The colour the server prints after each command: a relative step is
      Python's `(r + dr) % 255`, whose floor remainder agrees with Dafny's `%`
      for a positive divisor; an absolute command sets the colour. */
  function ServerColor(start: Color, cmds: seq<Command>): Color
    decreases |cmds|
  {
    if |cmds| == 0 then start
    else
      var cur := ServerColor(start, cmds[..|cmds| - 1]);
      var c := cmds[|cmds| - 1];
      if c.absolute then ValuesOf(c)
      else Color((cur.r + c.r) % 255, (cur.g + c.g) % 255, (cur.b + c.b) % 255)
  }

  /** The arrival-order fold is the server's own colour tracking. */
  lemma {:induction false} ArrivalsTrackServer(start: Color, cmds: seq<Command>)
    ensures ReplayArrivals(start, cmds) == ServerColor(start, cmds)
    decreases |cmds|
  {
    if |cmds| > 0 {
      ArrivalsTrackServer(start, cmds[..|cmds| - 1]);
    }
  }

  /** Whenever the client has handled the first `k` commands the server sent,
      and no click came in between, its header shows the colour the server
      printed after the `k`-th. */
  lemma ClientShowsServerColor(cmds: seq<Command>, k: nat)
    requires AllServerCommands(cmds) && 0 < k <= |cmds|
    ensures k < |ClientPosts(EncodeAll(cmds))|
    ensures HandleAll(Connected, ClientPosts(EncodeAll(cmds))[..k]).header
      == Shows(ServerColor(Baseline, cmds[..k]))
  {
    DecodeEncodeAll(cmds);
    HeaderAfterCommands(EncodeAll(cmds), k);
    ArrivalsTrackServer(Baseline, cmds[..k]);
  }

  /** A click between two arrivals makes the header depart from the server:
      deselecting the first of two relative (1, 1, 1) commands shows 128 per
      channel while the server prints 129. */
  lemma ClickDepartsFromServer()
    ensures var c := Command(false, 1, 1, 1, false);
      && HandleAll(Connected, [Posted(c), Clicked(0), Posted(c)]).header == Shows(Color(128, 128, 128))
      && ServerColor(Baseline, [c, c]) == Color(129, 129, 129)
  {
    var c := Command(false, 1, 1, 1, false);
    var cs := c.(selected := true);
    var events := [Posted(c), Clicked(0), Posted(c)];
    var s1 := Handle(Connected, Posted(c));
    assert s1.log == [cs];
    var s2 := Handle(s1, Clicked(0));
    assert s2.log == [c];
    var s3 := Handle(s2, Posted(c));
    assert s3.log == [cs, c];
    assert Replay(Baseline, [c]) == Baseline by {
      assert [c][1..] == [];
    }
    assert Recompute(s3.log) == Color(128, 128, 128) by {
      assert s3.log[1..] == [c];
    }
    assert HandleAll(s3, []) == s3;
    assert events[1..][1..] == [Posted(c)];
    assert HandleAll(s2, [Posted(c)]) == s3 by {
      assert [Posted(c)][1..] == [];
    }
    assert HandleAll(s1, events[1..]) == s3;
    assert HandleAll(Connected, events) == s3;
    assert ServerColor(Baseline, [c]) == Color(128, 128, 128) by {
      assert [c][..0] == [];
    }
    assert [c, c][..1] == [c];
  }
}
