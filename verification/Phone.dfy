/** The phone's polling protocol: `screen` and `session_token` of handlers.rs on the server,
    `screenQuery`, `needsRecreate` and `nextRequest` of protocol.ts and the apply step of
    tab-view.ts on the phone, over output, eviction, resizes and session restarts. */
module Phone {
  import opened Bytes
  import opened Osc
  import opened Modes
  import opened Replay
  import opened Session

  // ----- the server's session token -----

  datatype Key = Key(epoch: nat, id: nat)

  const COLON: Byte := ':' as int

  function SessionToken(key: Key): seq<Byte> { Decimal(key.epoch) + [COLON] + Decimal(key.id) }

  /** Two sessions never share a token. */
  lemma TokenInjective(a: Key, b: Key)
    requires SessionToken(a) == SessionToken(b)
    ensures a == b
  {
    hide Decimal;
    DecimalRoundTrip(a.epoch);
    DecimalRoundTrip(a.id);
    DecimalRoundTrip(b.epoch);
    DecimalRoundTrip(b.id);
    SplitOnceAt(Decimal(a.epoch), COLON, Decimal(a.id));
    SplitOnceAt(Decimal(b.epoch), COLON, Decimal(b.id));
  }

  // ----- protocol.ts -----

  datatype ScreenMeta = ScreenMeta(endOffset: nat, reset: bool, cols: nat, rows: nat, session: seq<Byte>)

  /** `ready` is the phase; a state that is not ready asks for a full screen. */
  datatype ViewState = ViewState(ready: bool, since: nat, session: Option<seq<Byte>>, cols: nat, rows: nat)

  const INITIAL := ViewState(false, 0, None, 0, 0)

  datatype ScreenQuery = ScreenQuery(since: nat, session: seq<Byte>)

  function QueryOf(state: ViewState): Option<ScreenQuery> {
    if !state.ready || state.session.None? then None
    else Some(ScreenQuery(state.since, state.session.value))
  }

  predicate NeedsRecreate(prev: ViewState, got: ScreenMeta) {
    got.reset || got.cols != prev.cols || got.rows != prev.rows || Some(got.session) != prev.session
  }

  function NextRequest(state: ViewState, got: ScreenMeta): ViewState {
    if !state.ready then
      if !got.reset then state
      else ViewState(true, got.endOffset, Some(got.session), got.cols, got.rows)
    else if NeedsRecreate(state, got) then INITIAL
    else state.(since := got.endOffset)
  }

  // ----- server, network and phone together -----

  /** A session and everything it has ever output. */
  datatype Live = Live(inner: Inner, cols: nat, rows: nat, stream: seq<Byte>)

  /** `current` is the session now behind the tab; one that was replaced may still print. */
  datatype Server = Server(current: Key, live: map<Key, Live>)

  /** A reply on its way, with the session it came from and where its replay begins. */
  datatype Reply = Reply(meta: ScreenMeta, bytes: seq<Byte>, key: Key, cut: nat, modes: ModeMap)

  /** A request is first resolved to a session and its size, and served later from there. */
  datatype Network =
    | Idle
    | Asked(query: Option<ScreenQuery>)
    | Found(query: Option<ScreenQuery>, key: Key, cols: nat, rows: nat)
    | Answered(query: Option<ScreenQuery>, reply: Reply)

  /** What the phone's current terminal was given, and the reply it was created from. */
  datatype Terminal = Terminal(written: seq<Byte>, first: Reply)

  datatype World = World(server: Server, net: Network, view: ViewState, terminal: Option<Terminal>)

  datatype Event =
    | Output(key: Key, chunk: seq<Byte>, modeEvents: seq<Osc.Event>)
    | RecordTaken(key: Key)
    | Resize(key: Key, cols: nat, rows: nat)
    | Restart(key: Key, replayCap: nat, high: nat, low: nat, cols: nat, rows: nat)
    | SendPoll
    | Lookup
    | Serve
    | Receive
    | Lose          // an error, a timeout, or a reply of an older generation
    | Reopen        // the phone opens the tab's view anew

  function NewLive(replayCap: nat, high: nat, low: nat, cols: nat, rows: nat): Live {
    Live(Fresh(replayCap, high, low), cols, rows, [])
  }

  function Begin(key: Key, replayCap: nat, high: nat, low: nat, cols: nat, rows: nat): World {
    World(Server(key, map[key := NewLive(replayCap, high, low, cols, rows)]), Idle, INITIAL, None)
  }

  predicate Enabled(w: World, e: Event) {
    match e
    case Restart(key, _, _, _, _, _) => key !in w.server.live
    case SendPoll => w.net.Idle?
    case Lookup => w.net.Asked? && w.server.current in w.server.live
    case Serve => w.net.Found? && w.net.key in w.server.live
    case Receive => w.net.Answered?
    case Output(key, _, _) => key in w.server.live
    case RecordTaken(key) => key in w.server.live
    case Resize(key, _, _) => key in w.server.live
    case _ => true
  }

  /** `since` is believed only together with the served session's own token. */
  function TrustedSince(key: Key, query: Option<ScreenQuery>): Option<nat> {
    match query
    case Some(q) => if q.session == SessionToken(key) then Some(q.since) else None
    case None => None
  }

  function ServeScreen(key: Key, inner: Inner, cols: nat, rows: nat, query: Option<ScreenQuery>): Reply {
    var screen := ScreenSince(inner, TrustedSince(key, query));
    Reply(ScreenMeta(screen.endOffset, screen.reset, cols, rows, SessionToken(key)),
          screen.bytes, key, ReplayCut(inner), inner.modes)
  }

  function ApplyReply(w: World, reply: Reply): Option<Terminal> {
    if !w.view.ready then
      if reply.meta.reset then Some(Terminal(reply.bytes, reply)) else w.terminal
    else if NeedsRecreate(w.view, reply.meta) then None
    else match w.terminal
      case Some(t) => Some(t.(written := t.written + reply.bytes))
      case None => None
  }

  function WithLive(w: World, key: Key, live: Live): World {
    w.(server := w.server.(live := w.server.live[key := live]))
  }

  function Next(w: World, e: Event): World
    requires Enabled(w, e)
  {
    var s := w.server;
    match e
    case Output(key, chunk, modeEvents) =>
      var l := s.live[key];
      WithLive(w, key, l.(inner := Commit(l.inner, chunk, modeEvents), stream := l.stream + chunk))
    case RecordTaken(key) => WithLive(w, key, s.live[key].(inner := AfterRecord(s.live[key].inner)))
    case Resize(key, cols, rows) => WithLive(w, key, s.live[key].(cols := cols, rows := rows))
    case Restart(key, replayCap, high, low, cols, rows) =>
      w.(server := Server(key, s.live[key := NewLive(replayCap, high, low, cols, rows)]))
    case SendPoll => w.(net := Asked(QueryOf(w.view)))
    case Lookup => w.(net := Found(w.net.query, s.current, s.live[s.current].cols, s.live[s.current].rows))
    case Serve =>
      w.(net := Answered(w.net.query,
                         ServeScreen(w.net.key, s.live[w.net.key].inner, w.net.cols, w.net.rows, w.net.query)))
    case Receive =>
      w.(net := Idle, terminal := ApplyReply(w, w.net.reply), view := NextRequest(w.view, w.net.reply.meta))
    case Lose => w.(net := Idle)
    case Reopen => w.(net := Idle, view := INITIAL, terminal := None)
  }

  predicate Legal(w: World, events: seq<Event>)
    decreases |events|
  {
    events != [] ==> Enabled(w, events[0]) && Legal(Next(w, events[0]), events[1..])
  }

  function Exec(w: World, events: seq<Event>): World
    requires Legal(w, events)
    decreases |events|
  {
    if events == [] then w else Exec(Next(w, events[0]), events[1..])
  }

  // ----- invariants -----

  predicate ServerOk(s: Server) {
    s.current in s.live && forall key :: key in s.live ==> Mirrors(s.live[key].inner, s.live[key].stream)
  }

  predicate ReplyFits(reply: Reply, query: Option<ScreenQuery>, stream: seq<Byte>) {
    var end := reply.meta.endOffset;
    && end <= |stream|
    && (reply.meta.reset ==>
          reply.cut <= end && reply.bytes == DecModePreamble(reply.modes) + stream[reply.cut..end])
    && (!reply.meta.reset ==>
          && query.Some? && query.value.since <= end
          && reply.bytes == stream[query.value.since..end])
  }

  /** A reset reply is modes plus a tail; a delta is exactly the stretch asked for. */
  predicate ReplyOk(reply: Reply, query: Option<ScreenQuery>, live: map<Key, Live>) {
    && reply.key in live && reply.meta.session == SessionToken(reply.key)
    && ReplyFits(reply, query, live[reply.key].stream)
  }

  predicate NetOk(w: World) {
    match w.net
    case Idle => true
    case Asked(query) => query == QueryOf(w.view)
    case Found(query, key, _, _) => query == QueryOf(w.view) && key in w.server.live
    case Answered(query, reply) => query == QueryOf(w.view) && ReplyOk(reply, query, w.server.live)
  }

  predicate PhoneOk(w: World) {
    if !w.view.ready then w.terminal.None?
    else
      && w.terminal.Some?
      && var t := w.terminal.value;
      && t.first.meta.reset && ReplyOk(t.first, None, w.server.live)
      && w.view.session == Some(SessionToken(t.first.key))
      && t.first.meta.endOffset <= w.view.since <= |w.server.live[t.first.key].stream|
      && t.written == t.first.bytes + w.server.live[t.first.key].stream[t.first.meta.endOffset..w.view.since]
  }

  predicate Inv(w: World) { ServerOk(w.server) && NetOk(w) && PhoneOk(w) }

  lemma ServedFits(key: Key, l: Live, cols: nat, rows: nat, query: Option<ScreenQuery>)
    requires Mirrors(l.inner, l.stream)
    ensures ReplyFits(ServeScreen(key, l.inner, cols, rows, query), query, l.stream)
  {
    hide DecModePreamble, SessionToken, SnapshotOf, TailFrom;
    var since := TrustedSince(key, query);
    ScreenReplyExact(l.inner, l.stream, since);
    FirstScreenIsTail(l.inner, l.stream);
    assert l.stream[ReplayCut(l.inner)..|l.stream|] == l.stream[ReplayCut(l.inner)..];
    if since.Some? && since.value <= |l.stream| {
      assert l.stream[since.value..|l.stream|] == l.stream[since.value..];
    }
  }

  /** Whatever session a request was resolved to, its reply is a full screen of that session or
      exactly the stretch asked for, even if another session has taken the tab meanwhile. */
  lemma ServeOk(w: World)
    requires Inv(w) && Enabled(w, Serve)
    ensures Inv(Next(w, Serve))
  {
    hide DecModePreamble, SessionToken, ScreenSince, Mirrors;
    var l := w.server.live[w.net.key];
    ServedFits(w.net.key, l, w.net.cols, w.net.rows, w.net.query);
  }

  lemma ReceiveOk(w: World)
    requires Inv(w) && w.net.Answered?
    ensures Inv(Next(w, Receive))
  {
    hide DecModePreamble, SessionToken, Mirrors;
    var reply := w.net.reply;
    if w.view.ready {
      if !NeedsRecreate(w.view, reply.meta) {
        var t := w.terminal.value;
        TokenInjective(reply.key, t.first.key);
        var stream := w.server.live[reply.key].stream;
        Assoc(t.first.bytes, stream[t.first.meta.endOffset..w.view.since], reply.bytes);
        assert stream[t.first.meta.endOffset..w.view.since] + stream[w.view.since..reply.meta.endOffset]
            == stream[t.first.meta.endOffset..reply.meta.endOffset];
      }
    } else if reply.meta.reset {
      var end := reply.meta.endOffset;
      assert w.server.live[reply.key].stream[end..end] == [];
      assert reply.bytes + [] == reply.bytes;
    }
  }

  lemma FitsStill(reply: Reply, query: Option<ScreenQuery>, stream: seq<Byte>, chunk: seq<Byte>)
    requires ReplyFits(reply, query, stream)
    ensures ReplyFits(reply, query, stream + chunk)
  {
    hide DecModePreamble;
    var end := reply.meta.endOffset;
    if reply.meta.reset {
      assert (stream + chunk)[reply.cut..end] == stream[reply.cut..end];
    } else {
      assert (stream + chunk)[query.value.since..end] == stream[query.value.since..end];
    }
  }

  /** Output of any session, behind the tab or not. */
  lemma OutputOk(w: World, key: Key, chunk: seq<Byte>, modeEvents: seq<Osc.Event>)
    requires Inv(w) && key in w.server.live
    ensures Inv(Next(w, Output(key, chunk, modeEvents)))
  {
    hide DecModePreamble, SessionToken, ReplyFits, Commit, Mirrors;
    var l := w.server.live[key];
    CommitMirrors(l.inner, l.stream, chunk, modeEvents);
    if w.net.Answered? && w.net.reply.key == key {
      FitsStill(w.net.reply, w.net.query, l.stream, chunk);
    }
    if w.view.ready {
      var t := w.terminal.value;
      if t.first.key == key {
        FitsStill(t.first, None, l.stream, chunk);
        assert (l.stream + chunk)[t.first.meta.endOffset..w.view.since] == l.stream[t.first.meta.endOffset..w.view.since];
      }
    }
  }

  lemma FreshMirrors(replayCap: nat, high: nat, low: nat)
    ensures Mirrors(Fresh(replayCap, high, low), [])
  {
    assert Contents(Fresh(replayCap, high, low).replay) == [];
  }

  lemma OtherOk(w: World, e: Event)
    requires Inv(w) && Enabled(w, e) && !e.Output? && !e.Serve? && !e.Receive?
    ensures Inv(Next(w, e))
  {
    hide DecModePreamble, SessionToken, SnapshotOf, ReplyFits, Mirrors, AfterRecord, Fresh;
    if e.RecordTaken? {
      RecordReleases(w.server.live[e.key].inner, w.server.live[e.key].stream);
    } else if e.Restart? {
      FreshMirrors(e.replayCap, e.high, e.low);
    }
  }

  lemma StepOk(w: World, e: Event)
    requires Inv(w) && Enabled(w, e)
    ensures Inv(Next(w, e))
  {
    hide Inv, Next;
    match e
    case Output(key, chunk, modeEvents) => OutputOk(w, key, chunk, modeEvents);
    case Serve => ServeOk(w);
    case Receive => ReceiveOk(w);
    case _ => OtherOk(w, e);
  }

  lemma {:induction false} EveryRun(w: World, events: seq<Event>)
    requires Inv(w) && Legal(w, events)
    ensures Inv(Exec(w, events))
    decreases |events|
  {
    hide Inv, Enabled, Next;
    if events != [] {
      StepOk(w, events[0]);
      EveryRun(Next(w, events[0]), events[1..]);
    }
  }

  // ----- the theorem -----

  /** The phone's terminal holds one first screen, then its stream without a gap. */
  predicate ShowsUnbroken(w: World) {
    w.view.ready ==>
      && w.terminal.Some?
      && var t := w.terminal.value;
      && t.first.key in w.server.live
      && var stream := w.server.live[t.first.key].stream;
      && w.view.session == Some(SessionToken(t.first.key))
      && t.first.cut <= t.first.meta.endOffset <= w.view.since <= |stream|
      && t.written == DecModePreamble(t.first.modes) + stream[t.first.cut..w.view.since]
  }

  lemma InvShows(w: World)
    requires Inv(w)
    ensures ShowsUnbroken(w)
  {
    hide DecModePreamble, SessionToken, Mirrors;
    if w.view.ready {
      var t := w.terminal.value;
      var stream, mid := w.server.live[t.first.key].stream, t.first.meta.endOffset;
      Assoc(DecModePreamble(t.first.modes), stream[t.first.cut..mid], stream[mid..w.view.since]);
      assert stream[t.first.cut..mid] + stream[mid..w.view.since] == stream[t.first.cut..w.view.since];
    }
  }

  lemma BeginOk(key: Key, replayCap: nat, high: nat, low: nat, cols: nat, rows: nat)
    ensures Inv(Begin(key, replayCap, high, low, cols, rows))
  {
    FreshMirrors(replayCap, high, low);
  }

  /** Over any run of output of any session, eviction, record taking, resizes, restarts, polls
      served late, lost replies and reopened views: whenever the phone is showing deltas, its
      terminal was given one full screen (modes plus a tail of one session's stream) and after
      it exactly that stream from the end of the full screen to the phone's `since`. */
  lemma PhoneGapFree(start: World, events: seq<Event>, key: Key, replayCap: nat, high: nat, low: nat, cols: nat, rows: nat)
    requires start == Begin(key, replayCap, high, low, cols, rows) && Legal(start, events)
    ensures ShowsUnbroken(Exec(start, events))
  {
    hide *;
    BeginOk(key, replayCap, high, low, cols, rows);
    EveryRun(start, events);
    InvShows(Exec(start, events));
  }

  /** A poll resolved to the session being shown, at an unchanged size and with its place still
      retained when served, always continues the same terminal; any other poll starts over. */
  lemma ContinuesExactlyWhenItCan(w: World)
    requires Inv(w) && w.view.ready && w.net.Found?
    ensures var l := w.server.live[w.net.key];
            var t := w.terminal.value;
            NextRequest(w.view, ServeScreen(w.net.key, l.inner, w.net.cols, w.net.rows, w.net.query).meta).ready <==>
              && t.first.key == w.net.key && w.net.cols == w.view.cols && w.net.rows == w.view.rows
              && |l.stream| - |Contents(l.inner.replay)| <= w.view.since
  {
    hide DecModePreamble, SessionToken, SnapshotOf, TailFrom;
    var l := w.server.live[w.net.key];
    var t := w.terminal.value;
    ScreenReplyExact(l.inner, l.stream, TrustedSince(w.net.key, w.net.query));
    if SessionToken(w.net.key) == SessionToken(t.first.key) {
      TokenInjective(w.net.key, t.first.key);
    }
  }

  /** When the phone is ready after a reply: from the start only by a full screen, which gives it
      its terminal; later only by a delta of the same session at the same size. */
  lemma ReadyExactly(w: World, reply: Reply)
    ensures NextRequest(w.view, reply.meta).ready <==>
              if !w.view.ready then reply.meta.reset
              else !reply.meta.reset && reply.meta.cols == w.view.cols && reply.meta.rows == w.view.rows
                   && Some(reply.meta.session) == w.view.session
    ensures !w.view.ready ==>
              ApplyReply(w, reply) == if reply.meta.reset then Some(Terminal(reply.bytes, reply)) else w.terminal
  {
  }

  /** When the server answers with a full screen: for a request with no place, with one in another
      session, or with one that this session no longer retains or has not reached. */
  lemma ServedExactly(key: Key, asked: Key, l: Live, cols: nat, rows: nat, since: nat)
    requires Mirrors(l.inner, l.stream)
    ensures ServeScreen(key, l.inner, cols, rows, None).meta.reset
    ensures ServeScreen(key, l.inner, cols, rows, Some(ScreenQuery(since, SessionToken(asked)))).meta.reset <==>
              key != asked || since > |l.stream| || since < |l.stream| - |Contents(l.inner.replay)|
  {
    hide SessionToken, ScreenSince;
    var query := Some(ScreenQuery(since, SessionToken(asked)));
    ScreenReplyExact(l.inner, l.stream, None);
    ScreenReplyExact(l.inner, l.stream, TrustedSince(key, query));
    if SessionToken(key) == SessionToken(asked) {
      TokenInjective(key, asked);
    }
  }

  // ----- a poll that nothing disturbs -----

  /** A request sent, resolved, served and received with nothing in between. */
  const POLL := [SendPoll, Lookup, Serve, Receive]

  /** The session shown is the current one, at its size, with the phone's place retained. */
  predicate CanContinue(w: World)
    requires Inv(w)
  {
    && w.view.ready && w.terminal.value.first.key == w.server.current
    && var l := w.server.live[w.server.current];
    && l.cols == w.view.cols && l.rows == w.view.rows
    && |l.stream| - |Contents(l.inner.replay)| <= w.view.since
  }

  /** Such a poll as one function of the world before it. */
  function Polled(w: World): World
    requires w.server.current in w.server.live
  {
    var l := w.server.live[w.server.current];
    var reply := ServeScreen(w.server.current, l.inner, l.cols, l.rows, QueryOf(w.view));
    w.(net := Idle, terminal := ApplyReply(w, reply), view := NextRequest(w.view, reply.meta))
  }

  lemma PollIsPolled(w: World)
    requires w.net.Idle? && w.server.current in w.server.live
    ensures Legal(w, POLL) && Exec(w, POLL) == Polled(w)
  {
    hide ServeScreen, NextRequest, QueryOf;
    var w1 := Next(w, SendPoll);
    var w2 := Next(w1, Lookup);
    var w3 := Next(w2, Serve);
    var w4 := Next(w3, Receive);
    var m3 := [Receive];
    var m2 := [Serve] + m3;
    var m1 := [Lookup] + m2;
    assert POLL == [SendPoll] + m1 && m3[1..] == [] && m2[1..] == m3 && m1[1..] == m2 && POLL[1..] == m1;
    assert Legal(w4, []) && Exec(w4, []) == w4;
    assert Legal(w3, m3) && Exec(w3, m3) == w4;
    assert Legal(w2, m2) && Exec(w2, m2) == w4;
    assert Legal(w1, m1) && Exec(w1, m1) == w4;
    assert w4 == Polled(w);
  }

  /** What it does. Where the phone can go on, its terminal gets exactly the rest of the stream;
      where it cannot, it drops the terminal and starts over; and starting over, it is given the
      current session's first screen, and goes on with that session, its size and its end. */
  lemma PollExactly(w: World)
    requires Inv(w) && w.net.Idle?
    ensures Legal(w, POLL)
    ensures var t := Exec(w, POLL);
            var l := w.server.live[w.server.current];
            && t.server == w.server && t.net.Idle?
            && (CanContinue(w) ==>
                  && t.view == w.view.(since := |l.stream|)
                  && t.terminal == Some(w.terminal.value.(
                       written := w.terminal.value.written + l.stream[Min(w.view.since, |l.stream|)..])))
            && (w.view.ready && !CanContinue(w) ==> !t.view.ready && t.terminal == None)
            && (!w.view.ready ==>
                  && t.view == ViewState(true, |l.stream|, Some(SessionToken(w.server.current)), l.cols, l.rows)
                  && t.terminal.Some? && t.terminal.value.written == FirstScreen(l.inner))
  {
    hide Legal, Exec, DecModePreamble, SessionToken, SnapshotOf, TailFrom;
    PollIsPolled(w);
    var key := w.server.current;
    var l := w.server.live[key];
    ScreenReplyExact(l.inner, l.stream, TrustedSince(key, QueryOf(w.view)));
    if w.view.ready {
      var first := w.terminal.value.first.key;
      if SessionToken(key) == SessionToken(first) {
        TokenInjective(key, first);
      }
    }
  }

  lemma CurrentLives(w: World)
    requires Inv(w)
    ensures w.server.current in w.server.live
  {
  }

  lemma PollIsInv(w: World)
    requires Inv(w) && w.net.Idle?
    ensures Legal(w, POLL) && Inv(Exec(w, POLL))
  {
    hide Inv, Next, Polled;
    assert w.server.current in w.server.live by { CurrentLives(w); }
    PollIsPolled(w);
    EveryRun(w, POLL);
  }

  /** So from whatever the phone had come to, two undisturbed polls bring its terminal up to the
      end of the current session's output, at the current size. */
  lemma TwoPollsCatchUp(w: World)
    requires Inv(w) && w.net.Idle?
    ensures Legal(w, POLL) && Legal(Exec(w, POLL), POLL)
    ensures var t := Exec(Exec(w, POLL), POLL);
            var l := w.server.live[w.server.current];
            && t.server == w.server
            && t.view == ViewState(true, |l.stream|, Some(SessionToken(w.server.current)), l.cols, l.rows)
  {
    hide Legal, Exec, SessionToken, Next;
    PollExactly(w);
    PollIsPolled(w);
    PollIsInv(w);
    PollExactly(Exec(w, POLL));
  }
}
