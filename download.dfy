/**
 * The download bookkeeping of `bot/plugins/download.py`. The bot client
 * holds the tracker `active_downloads` (GID to the status message's chat
 * and message ids) and the per-user `/status` sessions; the handlers are
 * methods over it. The daemon's answers, clock readings, the ids of sent
 * messages and file existence are inputs; replies, edits, deletions,
 * daemon calls and unlinks are appended to the client's trace. Each
 * handler is proved equal to a pure specification, and the properties of
 * the handlers are lemmas about those specifications.
 */
module Download {
  import opened Wrappers
  import opened Tools

  type Gid = string

  /** A chat message's address: (chat id, message id). */
  datatype Loc = Loc(chat: int, msg: int)

  /** One entry of aria2's `files` list; a missing or empty path is the empty string. */
  datatype FileEntry = FileEntry(path: string)

  /** The fields of an aria2 status the handlers read, with the numbers already parsed. */
  datatype Snapshot = Snapshot(status: string, completed: nat, total: nat, speed: nat, files: seq<FileEntry>)

  /** What one `tellStatus` call gives: a status, an aria2 RPC error, or any other exception. */
  datatype PollAnswer = Status(snap: Snapshot) | NotFound | Fault

  /** The texts the handlers send, as the values they are built from. */
  datatype Text =
    | NeedLink
    | Added(gid: Gid)
    | Vanished(gid: Gid)
    | Completed(name: string)
    | Progress(name: string, elapsed: Duration, done: Scaled, size: Scaled, eta: Duration, speed: Scaled, gid: Gid)
    | NeedGid
    | NoActive(gid: Gid)
    | RemoveFailed(gid: Gid)
    | CancelledEdit(gid: Gid)
    | CancelledReply(gid: Gid)
    | Fetching
    | FetchError(error: string)
    | NoDownloads

  datatype DaemonCall =
    | AddUri(url: string)
    | TellStatus(gid: Gid)
    | GetFiles(gid: Gid)
    | Remove(gid: Gid)
    | RemoveResult(gid: Gid)
    | TellActive

  /** The observable actions of the handlers, in the order they are attempted. */
  datatype Effect =
    | Reply(chat: int, text: Text)
    | Edit(loc: Loc, text: Text)
    | DeleteMessage(loc: Loc)
    | CancelTask(user: int)
    | Call(call: DaemonCall)
    | Unlink(path: string)

  /** The update task held by a `/status` session: none, finished, or still running. */
  datatype Task = NoTask | Done | Live

  datatype Session = Session(loc: Loc, task: Task)

  class Client {
    var activeDownloads: map<Gid, Loc>
    var statusMessages: map<int, Session>
    var trace: seq<Effect>

    constructor ()
      ensures activeDownloads == map[] && statusMessages == map[] && trace == []
    {
      activeDownloads := map[];
      statusMessages := map[];
      trace := [];
    }

    method Emit(e: Effect)
      modifies this
      ensures trace == old(trace) + [e]
      ensures activeDownloads == old(activeDownloads) && statusMessages == old(statusMessages)
    {
      trace := trace + [e];
    }

    /** `active_downloads.pop(gid, None)`. */
    method Pop(gid: Gid) returns (mapping: Option<Loc>)
      modifies this
      ensures mapping == if gid in old(activeDownloads) then Some(old(activeDownloads)[gid]) else None
      ensures activeDownloads == old(activeDownloads) - {gid}
      ensures trace == old(trace) && statusMessages == old(statusMessages)
    {
      mapping := if gid in activeDownloads then Some(activeDownloads[gid]) else None;
      activeDownloads := activeDownloads - {gid};
    }

    /** `active_downloads[gid] = loc`. */
    method Register(gid: Gid, loc: Loc)
      modifies this
      ensures activeDownloads == old(activeDownloads)[gid := loc]
      ensures trace == old(trace) && statusMessages == old(statusMessages)
    {
      activeDownloads := activeDownloads[gid := loc];
    }
  }

  // ---------------------------------------------------------------------
  // Shared pieces
  // ---------------------------------------------------------------------

  /** `os.path.basename`: the text after the last '/', which is all of it when there is none. */
  function Basename(p: string): (b: string)
    ensures '/' !in b
    ensures |b| <= |p| && b == p[|p| - |b|..]
    ensures |b| < |p| ==> p[|p| - |b| - 1] == '/'
  {
    if p == [] || p[|p| - 1] == '/' then []
    else Basename(p[..|p| - 1]) + [p[|p| - 1]]
  }

  const Unknown: string := "unknown"

  /** The displayed name: the basename of the first file's path, or "unknown". */
  function FileName(files: seq<FileEntry>): (r: string)
    ensures files == [] || files[0].path == [] ==> r == Unknown
    ensures files != [] && files[0].path != [] ==>
      '/' !in r && |r| <= |files[0].path| && r == files[0].path[|files[0].path| - |r|..]
      && (|r| < |files[0].path| ==> files[0].path[|files[0].path| - |r| - 1] == '/')
  {
    if files == [] || files[0].path == [] then Unknown else Basename(files[0].path)
  }

  /**
   * The pop-then-edit both terminal paths perform: the poller when the GID
   * is gone, and cancel after a successful removal. Only a caller whose pop
   * returns a mapping edits the registered message.
   */
  function Deregister(m: map<Gid, Loc>, gid: Gid, text: Text): (map<Gid, Loc>, seq<Effect>) {
    (m - {gid}, if gid in m then [Edit(m[gid], text)] else [])
  }

  /** Terminal edits announce that a download is over: not found, or cancelled. */
  predicate IsTerminal(e: Effect) {
    e.Edit? && (e.text.Vanished? || e.text.CancelledEdit?)
  }

  function TerminalEdits(effects: seq<Effect>): nat {
    if effects == [] then 0
    else (if IsTerminal(effects[0]) then 1 else 0) + TerminalEdits(effects[1..])
  }

  lemma {:induction false} TerminalEditsAppend(a: seq<Effect>, b: seq<Effect>)
    ensures TerminalEdits(a + b) == TerminalEdits(a) + TerminalEdits(b)
  {
    if a != [] {
      assert (a + b)[0] == a[0] && (a + b)[1..] == a[1..] + b;
      TerminalEditsAppend(a[1..], b);
    } else {
      assert a + b == b;
    }
  }

  lemma {:induction false} NoEditNoTerminal(effects: seq<Effect>)
    requires forall k :: 0 <= k < |effects| ==> !effects[k].Edit?
    ensures TerminalEdits(effects) == 0
  {
    if effects != [] {
      NoEditNoTerminal(effects[1..]);
    }
  }

  /**
   * The cancel/not-found race, as the two orders of the pops on the shared
   * tracker: whichever pops first edits the registered message, the other
   * edits nothing, so exactly one terminal edit happens when the GID was
   * registered and none otherwise, and the GID ends up deregistered.
   */
  lemma RaceOneTerminalEdit(m: map<Gid, Loc>, gid: Gid, first: Text, second: Text)
    requires || (first == Vanished(gid) && second == CancelledEdit(gid))
             || (first == CancelledEdit(gid) && second == Vanished(gid))
    ensures var (m1, e1) := Deregister(m, gid, first);
      var (m2, e2) := Deregister(m1, gid, second);
      && m2 == m - {gid}
      && e2 == []
      && e1 == (if gid in m then [Edit(m[gid], first)] else [])
      && TerminalEdits(e1 + e2) == (if gid in m then 1 else 0)
  {
    var (m1, e1) := Deregister(m, gid, first);
    assert e1 + [] == e1;
    if gid in m {
      assert TerminalEdits(e1) == 1 by {
        assert e1[1..] == [];
      }
    }
  }

  // ---------------------------------------------------------------------
  // download_handler and its poll loop
  // ---------------------------------------------------------------------

  /** Everything the poll loop reads: the GID, the status message, the answers, the clock, the start time. */
  datatype PollCtx = PollCtx(gid: Gid, loc: Loc, answers: seq<PollAnswer>, clock: nat -> real, start: real)

  /** How the poll loop stands: still polling, GID gone, completed, or died on an exception. */
  datatype End = Running | GoneAway | Finished | Crashed

  /** A progress edit and the time it was made. */
  datatype Render = Render(time: real, text: Text)

  /**
   * The loop's state: the tracker, the effects so far, the last rendered
   * text and its time, the progress edits made, and how the loop stands.
   */
  datatype Poll = Poll(
    tracker: map<Gid, Loc>, effects: seq<Effect>, last: Option<Text>, lastTime: real,
    renders: seq<Render>, end: End)

  function Start(tracker: map<Gid, Loc>): Poll {
    Poll(tracker, [], None, 0.0, [], Running)
  }

  /**
   * The ETA in microseconds, `(total - completed) / speed * 1e6`; a zero
   * speed raises ZeroDivisionError, which the loop replaces with 0.
   */
  function EtaUs(s: Snapshot): real {
    if s.speed == 0 then 0.0
    else (s.total - s.completed) as real / s.speed as real * 1000000.0
  }

  /** The ETA is 0 for a stalled download, and otherwise the time the rest takes at the current speed. */
  lemma EtaUsSpec(s: Snapshot)
    ensures s.speed == 0 ==> EtaUs(s) == 0.0
    ensures s.speed > 0 ==> EtaUs(s) * s.speed as real == (s.total - s.completed) as real * 1000000.0
  {
  }

  /** A stalled download never faults: its ETA is shown as zero microseconds. */
  lemma ZeroSpeedEta(s: Snapshot)
    requires s.speed == 0
    ensures FormatDurationUs(EtaUs(s)) == Micros(0)
  {
    FormatDurationUsSpec(0.0);
  }

  /** The progress text at time `now`. */
  function ProgressOf(c: PollCtx, s: Snapshot, name: string, now: real): Text {
    var elapsedUs := Trunc((now - c.start) * 1000000.0);
    Progress(name, FormatDurationUs(elapsedUs as real), Scale(s.completed as real), Scale(s.total as real),
             FormatDurationUs(EtaUs(s)), Scale(s.speed as real), c.gid)
  }

  /**
   * A status answer, once the call is recorded in `polled`: the completion
   * edit and cleanup on the first "complete" status, otherwise a progress
   * edit when ten seconds have passed since the last one and the text
   * changed.
   */
  function OnStatus(c: PollCtx, i: nat, polled: Poll, s: Snapshot): Poll {
    var name := FileName(s.files);
    if s.status == "complete" && polled.last != Some(Completed(name)) then
      polled.(tracker := polled.tracker - {c.gid},
              effects := polled.effects + [Edit(c.loc, Completed(name)), Call(RemoveResult(c.gid))],
              end := Finished)
    else
      var now := c.clock(i);
      if now - polled.lastTime >= 10.0 then
        var text := ProgressOf(c, s, name, now);
        if polled.last != Some(text) then
          polled.(effects := polled.effects + [Edit(c.loc, text)], last := Some(text), lastTime := now,
                  renders := polled.renders + [Render(now, text)])
        else polled
      else polled
  }

  /** One iteration of the poll loop, on answer i. */
  function PollStep(c: PollCtx, i: nat, st: Poll): Poll
    requires i < |c.answers|
  {
    var polled := st.(effects := st.effects + [Call(TellStatus(c.gid))]);
    match c.answers[i]
    case Fault => polled.(end := Crashed)
    case NotFound =>
      var (m, edit) := Deregister(st.tracker, c.gid, Vanished(c.gid));
      polled.(tracker := m, effects := polled.effects + edit, end := GoneAway)
    case Status(s) => OnStatus(c, i, polled, s)
  }

  /** The loop from answer i on, until it stops or the answers run out. */
  function Run(c: PollCtx, i: nat, st: Poll): Poll
    requires i <= |c.answers|
    decreases |c.answers| - i
  {
    if i == |c.answers| || st.end != Running then st
    else Run(c, i + 1, PollStep(c, i, st))
  }

  /** One turn of the loop, with the step's own effects appended to those made before it. */
  lemma LoopStep(c: PollCtx, i: nat, st: Poll, next: Poll)
    requires i < |c.answers| && st.end == Running && next == PollStep(c, i, st.(effects := []))
    ensures Run(c, i, st) == Run(c, i + 1, next.(effects := st.effects + next.effects))
  {
    StepEffects(c, i, st);
  }

  lemma RunStops(c: PollCtx, i: nat, st: Poll)
    requires i <= |c.answers| && (i == |c.answers| || st.end != Running)
    ensures Run(c, i, st) == st
  {
  }

  /** The branch of one iteration that handles a status answer. */
  method HandleStatus(client: Client, c: PollCtx, i: nat, s: Snapshot, last: Option<Text>, lastTime: real,
                      ghost base: seq<Effect>, ghost polled: Poll)
    returns (end: End, newLast: Option<Text>, newLastTime: real, ghost next: Poll)
    requires polled.end == Running && polled.tracker == client.activeDownloads
    requires polled.last == last && polled.lastTime == lastTime
    requires client.trace == base + polled.effects
    modifies client
    ensures next == OnStatus(c, i, polled, s)
    ensures end == next.end && newLast == next.last && newLastTime == next.lastTime
    ensures client.activeDownloads == next.tracker
    ensures client.trace == base + next.effects
    ensures client.statusMessages == old(client.statusMessages)
  {
    next := OnStatus(c, i, polled, s);
    newLast, newLastTime := last, lastTime;
    end := Running;
    var name := FileName(s.files);
    if s.status == "complete" {
      var text := Completed(name);
      if last != Some(text) {
        client.Emit(Edit(c.loc, text));
        var popped := client.Pop(c.gid);
        client.Emit(Call(RemoveResult(c.gid)));
        end := Finished;
        return;
      }
    }
    var now := c.clock(i);
    if now - lastTime >= 10.0 {
      var text := ProgressOf(c, s, name, now);
      if last != Some(text) {
        client.Emit(Edit(c.loc, text));
        newLast, newLastTime := Some(text), now;
      }
    }
  }

  /** One iteration of the poll loop: the daemon call, then the branch its answer selects. */
  method PollOnce(client: Client, c: PollCtx, i: nat, last: Option<Text>, lastTime: real, ghost st: Poll)
    returns (end: End, newLast: Option<Text>, newLastTime: real, ghost next: Poll)
    requires i < |c.answers| && st.end == Running && st.effects == []
    requires st.tracker == client.activeDownloads && st.last == last && st.lastTime == lastTime
    modifies client
    ensures next == PollStep(c, i, st)
    ensures end == next.end && newLast == next.last && newLastTime == next.lastTime
    ensures client.activeDownloads == next.tracker
    ensures client.trace == old(client.trace) + next.effects
    ensures client.statusMessages == old(client.statusMessages)
  {
    newLast, newLastTime := last, lastTime;
    client.Emit(Call(TellStatus(c.gid)));
    match c.answers[i] {
      case Fault =>
        end := Crashed;
        next := PollStep(c, i, st);
      case NotFound =>
        next := PollStep(c, i, st);
        var mapping := client.Pop(c.gid);
        if mapping.Some? {
          client.Emit(Edit(mapping.value, Vanished(c.gid)));
        }
        end := GoneAway;
      case Status(s) =>
        ghost var polled := st.(effects := [Call(TellStatus(c.gid))]);
        end, newLast, newLastTime, next := HandleStatus(client, c, i, s, last, lastTime, old(client.trace), polled);
    }
  }

  /** A status answer appends its effects to those already made, whatever they are. */
  lemma OnStatusEffects(c: PollCtx, i: nat, p: Poll, s: Snapshot, pre: seq<Effect>)
    ensures var n := OnStatus(c, i, p, s);
      OnStatus(c, i, p.(effects := pre + p.effects), s) == n.(effects := pre + n.effects)
  {
    var n := OnStatus(c, i, p, s);
    var added := n.effects[|p.effects|..];
    assert n.effects == p.effects + added;
    assert (pre + p.effects) + added == pre + n.effects;
  }

  /** A step appends its effects to those already made, whatever they are. */
  lemma StepEffects(c: PollCtx, i: nat, st: Poll)
    requires i < |c.answers|
    ensures var n := PollStep(c, i, st.(effects := []));
      PollStep(c, i, st) == n.(effects := st.effects + n.effects)
  {
    var call := [Call(TellStatus(c.gid))];
    match c.answers[i]
    case Fault =>
    case NotFound =>
      var (m, edit) := Deregister(st.tracker, c.gid, Vanished(c.gid));
      assert (st.effects + call) + edit == st.effects + (call + edit);
    case Status(s) =>
      var polled := st.(effects := call);
      assert [] + call == call;
      OnStatusEffects(c, i, polled, s, st.effects);
      assert polled.(effects := st.effects + polled.effects) == st.(effects := st.effects + call);
  }

  /** One turn of the loop: the iteration, with the loop from here on unchanged by it. */
  method PollTurn(client: Client, c: PollCtx, i: nat, last: Option<Text>, lastTime: real,
                  ghost base: seq<Effect>, ghost st: Poll)
    returns (end: End, newLast: Option<Text>, newLastTime: real, ghost next: Poll)
    requires i < |c.answers| && st.end == Running
    requires st.tracker == client.activeDownloads && st.last == last && st.lastTime == lastTime
    requires client.trace == base + st.effects
    modifies client
    ensures Run(c, i, st) == Run(c, i + 1, next)
    ensures end == next.end && newLast == next.last && newLastTime == next.lastTime
    ensures client.activeDownloads == next.tracker
    ensures client.trace == base + next.effects
    ensures client.statusMessages == old(client.statusMessages)
  {
    ghost var step;
    end, newLast, newLastTime, step := PollOnce(client, c, i, last, lastTime, st.(effects := []));
    LoopStep(c, i, st, step);
    next := step.(effects := st.effects + step.effects);
  }

  /** The `while True` loop of `download_handler`, over the given answers. */
  method PollLoop(client: Client, c: PollCtx) returns (end: End)
    modifies client
    ensures var r := Run(c, 0, Start(old(client.activeDownloads)));
      && end == r.end && client.activeDownloads == r.tracker
      && client.trace == old(client.trace) + r.effects
      && client.statusMessages == old(client.statusMessages)
  {
    var last: Option<Text> := None;
    var lastTime: real := 0.0;
    ghost var renders: seq<Render> := [];
    ghost var effects: seq<Effect> := [];
    ghost var goal := Run(c, 0, Start(client.activeDownloads));
    var i := 0;
    while i < |c.answers|
      invariant i <= |c.answers|
      invariant client.trace == old(client.trace) + effects
      invariant client.statusMessages == old(client.statusMessages)
      invariant Run(c, i, Poll(client.activeDownloads, effects, last, lastTime, renders, Running)) == goal
    {
      ghost var next;
      end, last, lastTime, next := PollTurn(client, c, i, last, lastTime, old(client.trace),
                                            Poll(client.activeDownloads, effects, last, lastTime, renders, Running));
      effects, renders := next.effects, next.renders;
      if end != Running {
        RunStops(c, i + 1, next);
        return;
      }
      i := i + 1;
    }
    RunStops(c, i, Poll(client.activeDownloads, effects, last, lastTime, renders, Running));
    return Running;
  }

  /**
   * `download_handler`: without a link it only replies; otherwise it asks
   * the daemon to add the URI (an exception there ends the handler),
   * replies with the GID, registers the reply as the GID's status message
   * and polls.
   */
  method DownloadHandler(
    client: Client, chat: int, command: seq<string>, added: Option<Gid>, statusLoc: Loc,
    answers: seq<PollAnswer>, clock: nat -> real, start: real)
    requires statusLoc.chat == chat  // the status message is the reply in the command's chat
    modifies client
    ensures client.statusMessages == old(client.statusMessages)
    ensures |command| < 2 ==>
      client.trace == old(client.trace) + [Reply(chat, NeedLink)]
      && client.activeDownloads == old(client.activeDownloads)
    ensures |command| >= 2 && added.None? ==>
      client.trace == old(client.trace) + [Call(AddUri(command[1]))]
      && client.activeDownloads == old(client.activeDownloads)
    ensures |command| >= 2 && added.Some? ==>
      var r := Run(PollCtx(added.value, statusLoc, answers, clock, start), 0,
                   Start(old(client.activeDownloads)[added.value := statusLoc]));
      client.trace == old(client.trace) + [Call(AddUri(command[1])), Reply(chat, Added(added.value))] + r.effects
      && client.activeDownloads == r.tracker
  {
    if |command| < 2 {
      client.Emit(Reply(chat, NeedLink));
      return;
    }
    var url := command[1];
    client.Emit(Call(AddUri(url)));
    if added.None? {
      return;
    }
    var gid := added.value;
    client.Emit(Reply(chat, Added(gid)));
    client.Register(gid, statusLoc);
    var end := PollLoop(client, PollCtx(gid, statusLoc, answers, clock, start));
  }

  /** One step of the loop: the tracker and the count of terminal edits. */
  lemma StepBookkeeping(c: PollCtx, i: nat, st: Poll)
    requires i < |c.answers| && st.end == Running
    ensures var n := PollStep(c, i, st);
      && n.tracker == (if n.end == GoneAway || n.end == Finished then st.tracker - {c.gid} else st.tracker)
      && TerminalEdits(n.effects) == TerminalEdits(st.effects)
           + (if n.end == GoneAway && c.gid in st.tracker then 1 else 0)
  {
    var st0 := st.(effects := []);
    var n := PollStep(c, i, st0);
    StepEffects(c, i, st);
    StepTerminalEdits(c, i, st0);
    TerminalEditsAppend(st.effects, n.effects);
  }

  /** The effects of one step on their own: a terminal edit only when the registered GID is gone. */
  lemma StepTerminalEdits(c: PollCtx, i: nat, st: Poll)
    requires i < |c.answers| && st.end == Running && st.effects == []
    ensures var n := PollStep(c, i, st);
      && n.tracker == (if n.end == GoneAway || n.end == Finished then st.tracker - {c.gid} else st.tracker)
      && TerminalEdits(n.effects) == (if n.end == GoneAway && c.gid in st.tracker then 1 else 0)
  {
    match c.answers[i]
    case Fault =>
      TerminalEditsOne(Call(TellStatus(c.gid)));
    case NotFound =>
      NotFoundTerminalEdits(c, i, st);
    case Status(s) =>
      StatusTerminalEdits(c, i, st, s);
  }

  lemma NotFoundTerminalEdits(c: PollCtx, i: nat, st: Poll)
    requires i < |c.answers| && c.answers[i] == NotFound && st.effects == []
    ensures var n := PollStep(c, i, st);
      && n.end == GoneAway && n.tracker == st.tracker - {c.gid}
      && TerminalEdits(n.effects) == (if c.gid in st.tracker then 1 else 0)
  {
    var n := PollStep(c, i, st);
    var call := Call(TellStatus(c.gid));
    if c.gid in st.tracker {
      var e := Edit(st.tracker[c.gid], Vanished(c.gid));
      assert n.effects == [call, e];
      TerminalEditsTwo(call, e);
    } else {
      assert n.effects == [call];
      TerminalEditsOne(call);
    }
  }

  lemma StatusTerminalEdits(c: PollCtx, i: nat, st: Poll, s: Snapshot)
    requires i < |c.answers| && c.answers[i] == Status(s) && st.end == Running && st.effects == []
    ensures var n := PollStep(c, i, st);
      && (n.end == Finished || n.end == Running)
      && n.tracker == (if n.end == Finished then st.tracker - {c.gid} else st.tracker)
      && TerminalEdits(n.effects) == 0
  {
    var n := PollStep(c, i, st);
    var call := Call(TellStatus(c.gid));
    if n.end == Finished {
      var e := Edit(c.loc, Completed(FileName(s.files)));
      assert n.effects == [call, e, Call(RemoveResult(c.gid))];
      TerminalEditsThree(call, e, Call(RemoveResult(c.gid)));
    } else if |n.effects| == 1 {
      assert n.effects == [call];
      TerminalEditsOne(call);
    } else {
      var e := Edit(c.loc, n.last.value);
      assert n.effects == [call, e] && n.last.value.Progress?;
      TerminalEditsTwo(call, e);
    }
  }

  lemma TerminalEditsOne(a: Effect)
    ensures TerminalEdits([a]) == if IsTerminal(a) then 1 else 0
  {
    assert [a][1..] == [];
  }

  lemma TerminalEditsTwo(a: Effect, b: Effect)
    ensures TerminalEdits([a, b]) == (if IsTerminal(a) then 1 else 0) + (if IsTerminal(b) then 1 else 0)
  {
    assert [a, b][1..] == [b];
    TerminalEditsOne(b);
  }

  lemma TerminalEditsThree(a: Effect, b: Effect, d: Effect)
    ensures TerminalEdits([a, b, d]) ==
      (if IsTerminal(a) then 1 else 0) + (if IsTerminal(b) then 1 else 0) + (if IsTerminal(d) then 1 else 0)
  {
    assert [a, b, d][1..] == [b, d];
    TerminalEditsTwo(b, d);
  }

  /**
   * Over a whole run: other GIDs are never touched; the GID is removed
   * exactly when the loop ends by completion or by the GID going away; and
   * a terminal edit is made only when the GID goes away while it is still
   * registered, once.
   */
  lemma {:induction false} RunBookkeeping(c: PollCtx, i: nat, st: Poll)
    requires i <= |c.answers| && st.end == Running
    ensures var r := Run(c, i, st);
      && r.tracker == (if r.end == GoneAway || r.end == Finished then st.tracker - {c.gid} else st.tracker)
      && TerminalEdits(r.effects) == TerminalEdits(st.effects)
           + (if r.end == GoneAway && c.gid in st.tracker then 1 else 0)
    decreases |c.answers| - i
  {
    if i < |c.answers| {
      var next := PollStep(c, i, st);
      StepBookkeeping(c, i, st);
      if next.end == Running {
        RunBookkeeping(c, i + 1, next);
      }
    }
  }

  /** The last render is the loop's remembered text and time; before any render they are "" and 0. */
  predicate RenderInv(st: Poll) {
    && (st.renders == [] ==> st.last == None && st.lastTime == 0.0)
    && (st.renders != [] ==>
          st.last == Some(st.renders[|st.renders| - 1].text) && st.lastTime == st.renders[|st.renders| - 1].time)
  }

  /** Each render is at least 10 s after the previous one (after time 0 for the first) and differs from it. */
  predicate Spaced(rs: seq<Render>) {
    && (rs != [] ==> rs[0].time >= 10.0)
    && forall k :: 0 < k < |rs| ==> rs[k].time - rs[k - 1].time >= 10.0 && rs[k].text != rs[k - 1].text
  }

  /**
   * One iteration renders at most once: the remembered text and time change
   * only together with a progress edit of the status message, which is
   * then recorded as a render.
   */
  lemma StepRenders(c: PollCtx, i: nat, st: Poll)
    requires i < |c.answers| && RenderInv(st)
    ensures var r := PollStep(c, i, st);
      && RenderInv(r)
      && (r.renders == st.renders ==> r.last == st.last && r.lastTime == st.lastTime)
      && (r.renders != st.renders ==>
            && r.renders == st.renders + [Render(c.clock(i), r.last.value)]
            && r.last.value.Progress?
            && r.effects == st.effects + [Call(TellStatus(c.gid)), Edit(c.loc, r.last.value)]
            && c.clock(i) - st.lastTime >= 10.0 && Some(r.last.value) != st.last)
  {
  }

  /**
   * The render rule as the code applies it: answer i is a status that does
   * not take the completion branch, ten seconds have passed since the last
   * progress edit, and the progress text differs from the last one sent.
   */
  predicate RenderDue(c: PollCtx, i: nat, st: Poll)
    requires i < |c.answers|
  {
    && c.answers[i].Status?
    && var s := c.answers[i].snap;
    var name := FileName(s.files);
    && !(s.status == "complete" && st.last != Some(Completed(name)))
    && c.clock(i) - st.lastTime >= 10.0
    && st.last != Some(ProgressOf(c, s, name, c.clock(i)))
  }

  /**
   * An iteration renders exactly when the rule says it is due, and then it
   * edits in the current progress text and remembers it.
   */
  lemma RendersExactlyWhenDue(c: PollCtx, i: nat, st: Poll)
    requires i < |c.answers|
    ensures PollStep(c, i, st).renders != st.renders <==> RenderDue(c, i, st)
    ensures RenderDue(c, i, st) ==>
      var s := c.answers[i].snap;
      var text := ProgressOf(c, s, FileName(s.files), c.clock(i));
      var r := PollStep(c, i, st);
      && r.renders == st.renders + [Render(c.clock(i), text)]
      && r.effects == st.effects + [Call(TellStatus(c.gid)), Edit(c.loc, text)]
      && r.last == Some(text) && r.lastTime == c.clock(i) && r.end == st.end
  {
    if c.answers[i].Status? {
      var s := c.answers[i].snap;
      var polled := st.(effects := st.effects + [Call(TellStatus(c.gid))]);
      assert PollStep(c, i, st) == OnStatus(c, i, polled, s);
    }
  }

  /** One step keeps the render rule and only ever appends renders. */
  lemma StepKeepsRenders(c: PollCtx, i: nat, st: Poll)
    requires i < |c.answers| && RenderInv(st) && Spaced(st.renders)
    ensures var r := PollStep(c, i, st);
      RenderInv(r) && Spaced(r.renders) && st.renders <= r.renders
  {
    var next := PollStep(c, i, st);
    StepRenders(c, i, st);
    if next.renders != st.renders {
      SpacedAppend(st.renders, Render(c.clock(i), next.last.value));
    }
  }

  /** The render rule holds over a whole run: 10 s apart and never the same text twice in a row. */
  lemma {:induction false} RunRenders(c: PollCtx, i: nat, st: Poll)
    requires i <= |c.answers| && RenderInv(st) && Spaced(st.renders)
    ensures var r := Run(c, i, st);
      RenderInv(r) && Spaced(r.renders) && st.renders <= r.renders
    decreases |c.answers| - i
  {
    if i < |c.answers| && st.end == Running {
      StepKeepsRenders(c, i, st);
      RunRenders(c, i + 1, PollStep(c, i, st));
    }
  }

  /** A render 10 s after the previous one (or after time 0), with a new text, keeps the rule. */
  lemma SpacedAppend(rs: seq<Render>, r: Render)
    requires Spaced(rs)
    requires rs == [] ==> r.time >= 10.0
    requires rs != [] ==> r.time - rs[|rs| - 1].time >= 10.0 && r.text != rs[|rs| - 1].text
    ensures Spaced(rs + [r])
  {
    var rs' := rs + [r];
    forall k | 0 < k < |rs'|
      ensures rs'[k].time - rs'[k - 1].time >= 10.0 && rs'[k].text != rs'[k - 1].text
    {
      if k < |rs| {
        assert rs'[k] == rs[k] && rs'[k - 1] == rs[k - 1];
      }
    }
  }

  /**
   * A `complete` status ends the loop at once: the completion text is
   * edited in, the GID is deregistered and its result removed.
   */
  lemma CompletionFinishes(c: PollCtx, i: nat, st: Poll, s: Snapshot)
    requires i < |c.answers| && c.answers[i] == Status(s) && s.status == "complete"
    requires st.end == Running && RenderInv(st) && (st.last.Some? ==> st.last.value.Progress?)
    ensures var r := Run(c, i, st);
      && r.end == Finished
      && r.tracker == st.tracker - {c.gid}
      && r.effects == st.effects
           + [Call(TellStatus(c.gid)), Edit(c.loc, Completed(FileName(s.files))), Call(RemoveResult(c.gid))]
  {
    assert Run(c, i, st) == Run(c, i + 1, PollStep(c, i, st));
  }

  /**
   * An aria2 error on `tellStatus` ends the loop at once: the GID is
   * deregistered, and its status message gets the not-found edit only when
   * the GID was still registered; nothing is polled or rendered after it.
   */
  lemma NotFoundStops(c: PollCtx, i: nat, st: Poll)
    requires i < |c.answers| && c.answers[i] == NotFound && st.end == Running
    ensures var r := Run(c, i, st);
      && r.end == GoneAway
      && r.tracker == st.tracker - {c.gid}
      && r.renders == st.renders
      && r.effects == st.effects + [Call(TellStatus(c.gid))]
           + (if c.gid in st.tracker then [Edit(st.tracker[c.gid], Vanished(c.gid))] else [])
  {
    assert Run(c, i, st) == Run(c, i + 1, PollStep(c, i, st));
  }

  /**
   * While the loop has not stopped, the download stays registered with its
   * status message; a loop that ended by completion or by the GID going
   * away has deregistered it.
   */
  lemma RegisteredWhilePolling(c: PollCtx, m: map<Gid, Loc>)
    ensures var r := Run(c, 0, Start(m[c.gid := c.loc]));
      && (r.end == Running || r.end == Crashed ==> c.gid in r.tracker && r.tracker[c.gid] == c.loc)
      && (r.end == GoneAway || r.end == Finished ==> c.gid !in r.tracker)
  {
    RunBookkeeping(c, 0, Start(m[c.gid := c.loc]));
  }

  // ---------------------------------------------------------------------
  // cancel_download_handler
  // ---------------------------------------------------------------------

  /** What `remove` then `removeDownloadResult` do: both succeed, or one raises an aria2 error. */
  datatype RemoveOutcome = Removed | RemoveRaised | ResultRaised

  const TempSuffix: string := ".aria2"

  /** The paths cancel considers, in order: each file's path, then its `.aria2` control file. */
  function Candidates(files: seq<FileEntry>): seq<string> {
    if files == [] then [] else [files[0].path, files[0].path + TempSuffix] + Candidates(files[1..])
  }

  /** Unlink each candidate that exists at the moment it is checked. */
  function Sweep(cands: seq<string>, existing: set<string>): seq<Effect> {
    if cands == [] then []
    else if cands[0] in existing then [Unlink(cands[0])] + Sweep(cands[1..], existing - {cands[0]})
    else Sweep(cands[1..], existing)
  }

  /** The sweep of a candidate followed by others. */
  lemma SweepCons(p: string, rest: seq<string>, existing: set<string>)
    ensures Sweep([p] + rest, existing) ==
      if p in existing then [Unlink(p)] + Sweep(rest, existing - {p}) else Sweep(rest, existing)
  {
    assert ([p] + rest)[1..] == rest;
  }

  /** The sweep does nothing but unlink candidates that exist. */
  lemma {:induction false} SweepOnlyUnlinks(cands: seq<string>, existing: set<string>)
    ensures forall e :: e in Sweep(cands, existing) ==> e.Unlink? && e.path in cands && e.path in existing
  {
    if cands != [] {
      var ex := if cands[0] in existing then existing - {cands[0]} else existing;
      SweepOnlyUnlinks(cands[1..], ex);
    }
  }

  /** Every candidate that exists is unlinked. */
  lemma {:induction false} SweepCovers(cands: seq<string>, existing: set<string>)
    ensures forall p :: p in cands && p in existing ==> Unlink(p) in Sweep(cands, existing)
  {
    if cands != [] {
      var c := cands[0];
      var ex := if c in existing then existing - {c} else existing;
      SweepCovers(cands[1..], ex);
      forall p | p in cands && p in existing && p != c
        ensures p in cands[1..] && p in ex
      {
      }
    }
  }

  predicate Distinct(e: seq<Effect>) {
    forall k, l :: 0 <= k < l < |e| ==> e[k] != e[l]
  }

  /** No path is unlinked twice, even when two candidates name the same path. */
  lemma {:induction false} SweepOnce(cands: seq<string>, existing: set<string>)
    ensures Distinct(Sweep(cands, existing))
  {
    if cands != [] {
      var c := cands[0];
      if c in existing {
        var ex := existing - {c};
        SweepOnce(cands[1..], ex);
        SweepOnlyUnlinks(cands[1..], ex);
        var e := Sweep(cands, existing);
        var rest := Sweep(cands[1..], ex);
        assert Distinct(rest);
        assert e == [Unlink(c)] + rest;
        forall k, l | 0 <= k < l < |e|
          ensures e[k] != e[l]
        {
          assert e[l] == rest[l - 1];
          if k > 0 {
            assert e[k] == rest[k - 1];
            assert rest[k - 1] != rest[l - 1];
          } else {
            assert rest[l - 1] in rest;
            assert rest[l - 1].path in ex;
          }
        }
      } else {
        SweepOnce(cands[1..], existing);
        assert Sweep(cands, existing) == Sweep(cands[1..], existing);
      }
    }
  }

  /** The tracker after a handler and the effects it produced. */
  datatype Handled = Handled(tracker: map<Gid, Loc>, effects: seq<Effect>)

  /**
   * `cancel_download_handler`, with `files` the answer of `getFiles`
   * (`None` when it raises, which ends the handler) and `existing` the
   * paths present when the sweep starts.
   */
  function CancelSpec(
    m: map<Gid, Loc>, chat: int, command: seq<string>, files: Option<seq<FileEntry>>,
    outcome: RemoveOutcome, existing: set<string>): Handled
  {
    if |command| < 2 then Handled(m, [Reply(chat, NeedGid)])
    else
      var gid := command[1];
      if gid !in m then Handled(m, [Reply(chat, NoActive(gid))])
      else if files.None? then Handled(m, [Call(GetFiles(gid))])
      else
        var calls := [Call(GetFiles(gid)), Call(Remove(gid))]
          + (if outcome == RemoveRaised then [] else [Call(RemoveResult(gid))]);
        if outcome != Removed then Handled(m, calls + [Reply(chat, RemoveFailed(gid))])
        else
          var (m', edit) := Deregister(m, gid, CancelledEdit(gid));
          Handled(m', calls + edit + Sweep(Candidates(files.value), existing) + [Reply(chat, CancelledReply(gid))])
  }

  /**
   * The inner loop of the sweep, over one file's paths (its own path, then
   * its `.aria2` control file): each is unlinked when it exists. `rest`
   * stands for the candidates after these, so that the result composes with
   * the sweep.
   */
  method UnlinkEach(client: Client, paths: seq<string>, existing: set<string>, ghost rest: seq<string>)
    returns (left: set<string>, ghost unlinked: seq<Effect>)
    modifies client
    ensures unlinked + Sweep(rest, left) == Sweep(paths + rest, existing)
    ensures client.trace == old(client.trace) + unlinked
    ensures client.activeDownloads == old(client.activeDownloads)
    ensures client.statusMessages == old(client.statusMessages)
  {
    left, unlinked := existing, [];
    for j := 0 to |paths|
      invariant client.trace == old(client.trace) + unlinked
      invariant client.activeDownloads == old(client.activeDownloads)
      invariant client.statusMessages == old(client.statusMessages)
      invariant unlinked + Sweep(paths[j..] + rest, left) == Sweep(paths + rest, existing)
    {
      ghost var tail := paths[j + 1..] + rest;
      assert paths[j..] + rest == [paths[j]] + tail;
      SweepCons(paths[j], tail, left);
      if paths[j] in left {
        client.Emit(Unlink(paths[j]));
        unlinked := unlinked + [Unlink(paths[j])];
        left := left - {paths[j]};
      }
    }
    assert paths[|paths|..] + rest == rest;
  }

  /**
   * The file sweep of `cancel_download_handler`: for each file, its path and
   * then its `.aria2` control file are unlinked when they exist.
   */
  method UnlinkFiles(client: Client, fs: seq<FileEntry>, existing: set<string>)
    modifies client
    ensures client.trace == old(client.trace) + Sweep(Candidates(fs), existing)
    ensures client.activeDownloads == old(client.activeDownloads)
    ensures client.statusMessages == old(client.statusMessages)
  {
    ghost var done: seq<Effect> := [];
    var ex := existing;
    for i := 0 to |fs|
      invariant client.trace == old(client.trace) + done
      invariant client.activeDownloads == old(client.activeDownloads)
      invariant client.statusMessages == old(client.statusMessages)
      invariant done + Sweep(Candidates(fs[i..]), ex) == Sweep(Candidates(fs), existing)
    {
      ghost var rest := Candidates(fs[i + 1..]);
      assert fs[i..][1..] == fs[i + 1..];
      assert Candidates(fs[i..]) == [fs[i].path, fs[i].path + TempSuffix] + rest;
      ghost var unlinked;
      ex, unlinked := UnlinkEach(client, [fs[i].path, fs[i].path + TempSuffix], ex, rest);
      assert done + unlinked + Sweep(rest, ex) == done + (unlinked + Sweep(rest, ex));
      done := done + unlinked;
    }
  }

  method CancelHandler(
    client: Client, chat: int, command: seq<string>, files: Option<seq<FileEntry>>,
    outcome: RemoveOutcome, existing: set<string>)
    modifies client
    ensures var r := CancelSpec(old(client.activeDownloads), chat, command, files, outcome, existing);
      && client.activeDownloads == r.tracker
      && client.trace == old(client.trace) + r.effects
      && client.statusMessages == old(client.statusMessages)
  {
    if |command| < 2 {
      client.Emit(Reply(chat, NeedGid));
      return;
    }
    var gid := command[1];
    if gid !in client.activeDownloads {
      client.Emit(Reply(chat, NoActive(gid)));
      return;
    }
    client.Emit(Call(GetFiles(gid)));
    if files.None? {
      return;
    }
    client.Emit(Call(Remove(gid)));
    if outcome == RemoveRaised {
      client.Emit(Reply(chat, RemoveFailed(gid)));
      return;
    }
    client.Emit(Call(RemoveResult(gid)));
    if outcome == ResultRaised {
      client.Emit(Reply(chat, RemoveFailed(gid)));
      return;
    }
    var mapping := client.Pop(gid);
    if mapping.Some? {
      client.Emit(Edit(mapping.value, CancelledEdit(gid)));
    }
    UnlinkFiles(client, files.value, existing);
    client.Emit(Reply(chat, CancelledReply(gid)));
  }

  /**
   * A cancel without a GID, or for a GID that is not registered, only
   * replies: no daemon call, no edit, the tracker unchanged.
   */
  lemma CancelUnknownOnlyReplies(
    m: map<Gid, Loc>, chat: int, command: seq<string>, files: Option<seq<FileEntry>>,
    outcome: RemoveOutcome, existing: set<string>)
    requires |command| < 2 || command[1] !in m
    ensures var r := CancelSpec(m, chat, command, files, outcome, existing);
      && r.tracker == m && |r.effects| == 1 && r.effects[0].Reply?
  {
  }

  /**
   * A failed removal replies with the failure and leaves the tracker and
   * the files alone: no edit, no unlink.
   */
  lemma CancelRemoveFailed(
    m: map<Gid, Loc>, chat: int, command: seq<string>, files: seq<FileEntry>,
    outcome: RemoveOutcome, existing: set<string>)
    requires |command| >= 2 && command[1] in m && outcome != Removed
    ensures var r := CancelSpec(m, chat, command, Some(files), outcome, existing);
      && r.tracker == m
      && r.effects[|r.effects| - 1] == Reply(chat, RemoveFailed(command[1]))
      && forall k :: 0 <= k < |r.effects| ==> !r.effects[k].Edit? && !r.effects[k].Unlink?
  {
  }

  /**
   * A successful cancel deregisters the GID, edits its status message once
   * to say so, and unlinks exactly the existing paths and `.aria2` files of
   * the download, each once, before replying.
   */
  lemma CancelSucceeds(
    m: map<Gid, Loc>, chat: int, command: seq<string>, files: seq<FileEntry>, existing: set<string>)
    requires |command| >= 2 && command[1] in m
    ensures var gid := command[1];
      var r := CancelSpec(m, chat, command, Some(files), Removed, existing);
      && r.tracker == m - {gid}
      && TerminalEdits(r.effects) == 1
      && r.effects[3] == Edit(m[gid], CancelledEdit(gid))
      && r.effects[|r.effects| - 1] == Reply(chat, CancelledReply(gid))
      && (forall p :: Unlink(p) in r.effects <==> p in Candidates(files) && p in existing)
  {
    var gid := command[1];
    var calls := [Call(GetFiles(gid)), Call(Remove(gid)), Call(RemoveResult(gid))];
    var edit := [Edit(m[gid], CancelledEdit(gid))];
    var sweep := Sweep(Candidates(files), existing);
    var tail := [Reply(chat, CancelledReply(gid))];
    var r := CancelSpec(m, chat, command, Some(files), Removed, existing);
    assert r.effects == calls + edit + sweep + tail;
    SweepOnlyUnlinks(Candidates(files), existing);
    SweepCovers(Candidates(files), existing);
    forall k | 0 <= k < |sweep|
      ensures !sweep[k].Edit?
    {
      assert sweep[k] in sweep;
    }
    NoEditNoTerminal(sweep);
    TerminalEditsAppend(calls, edit);
    TerminalEditsAppend(calls + edit, sweep);
    TerminalEditsAppend(calls + edit + sweep, tail);
    NoEditNoTerminal(calls);
    assert TerminalEdits(edit) == 1 by {
      assert edit[1..] == [];
    }
    NoEditNoTerminal(tail);
    forall p
      ensures Unlink(p) in r.effects <==> Unlink(p) in sweep
    {
      if Unlink(p) in r.effects {
        var k :| 0 <= k < |r.effects| && r.effects[k] == Unlink(p);
        assert k >= 4 && k < |r.effects| - 1;
        assert sweep[k - 4] == Unlink(p);
      }
    }
  }

  // ---------------------------------------------------------------------
  // status_handler
  // ---------------------------------------------------------------------

  /**
   * What `/status` does to a user's previous session: cancel its task if it
   * is still running, then delete its message if it is in this chat.
   */
  function ReplaceSession(sessions: map<int, Session>, user: int, chat: int): (r: seq<Effect>)
    ensures CancelTask(user) in r <==> user in sessions && sessions[user].task == Live
    ensures (exists l :: DeleteMessage(l) in r) <==> user in sessions && sessions[user].loc.chat == chat
    ensures forall e :: e in r ==> user in sessions && (e == CancelTask(user) || e == DeleteMessage(sessions[user].loc))
  {
    if user !in sessions then []
    else
      var old_ := sessions[user];
      (if old_.task == Live then [CancelTask(user)] else [])
      + (if old_.loc.chat == chat then [DeleteMessage(old_.loc)] else [])
  }

  /**
   * The visible part of `status_handler`: replace the previous session, then
   * reply with the fetching notice. The new session is not stored in the
   * lines shown, so the sessions map is left as it was.
   */
  method StatusHandler(client: Client, user: int, chat: int)
    modifies client
    ensures client.trace == old(client.trace) + ReplaceSession(old(client.statusMessages), user, chat)
      + [Reply(chat, Fetching)]
    ensures client.activeDownloads == old(client.activeDownloads)
    ensures client.statusMessages == old(client.statusMessages)
  {
    if user in client.statusMessages {
      var session := client.statusMessages[user];
      if session.task == Live {
        client.Emit(CancelTask(user));
      }
      if session.loc.chat == chat {
        client.Emit(DeleteMessage(session.loc));
      }
    }
    client.Emit(Reply(chat, Fetching));
  }

  /** One entry of `tellActive`: the optional `gid` field and the status fields. */
  datatype ActiveEntry = ActiveEntry(gid: Option<Gid>, snap: Snapshot)

  /** The per-download values the status text is built from. */
  datatype Row = Row(gid: Gid, name: string, completed: nat, total: nat, speed: nat)

  function RowOf(e: ActiveEntry): Row {
    Row(e.gid.GetOr(Unknown), FileName(e.snap.files), e.snap.completed, e.snap.total, e.snap.speed)
  }

  function SumCompleted(ds: seq<ActiveEntry>): nat {
    if ds == [] then 0 else SumCompleted(ds[..|ds| - 1]) + ds[|ds| - 1].snap.completed
  }

  function SumTotal(ds: seq<ActiveEntry>): nat {
    if ds == [] then 0 else SumTotal(ds[..|ds| - 1]) + ds[|ds| - 1].snap.total
  }

  /** The rows of a list of downloads, built front to back. */
  function Rows(ds: seq<ActiveEntry>): seq<Row> {
    if ds == [] then [] else Rows(ds[..|ds| - 1]) + [RowOf(ds[|ds| - 1])]
  }

  /** There is one row per download, in the order of the downloads. */
  lemma {:induction false} RowsSpec(ds: seq<ActiveEntry>)
    ensures |Rows(ds)| == |ds|
    ensures forall k :: 0 <= k < |ds| ==> Rows(ds)[k] == RowOf(ds[k])
  {
    if ds != [] {
      RowsSpec(ds[..|ds| - 1]);
    }
  }

  /** The totals of two lists of downloads together are the sums of their totals. */
  lemma {:induction false} SumsAppend(a: seq<ActiveEntry>, b: seq<ActiveEntry>)
    ensures SumCompleted(a + b) == SumCompleted(a) + SumCompleted(b)
    ensures SumTotal(a + b) == SumTotal(a) + SumTotal(b)
    decreases |b|
  {
    if b != [] {
      var b' := b[..|b| - 1];
      assert (a + b)[..|a + b| - 1] == a + b';
      SumsAppend(a, b');
    } else {
      assert a + b == a;
    }
  }

  lemma SumsStep(ds: seq<ActiveEntry>, i: nat)
    requires i < |ds|
    ensures SumCompleted(ds[..i + 1]) == SumCompleted(ds[..i]) + ds[i].snap.completed
    ensures SumTotal(ds[..i + 1]) == SumTotal(ds[..i]) + ds[i].snap.total
    ensures Rows(ds[..i + 1]) == Rows(ds[..i]) + [RowOf(ds[i])]
  {
    assert ds[..i + 1][..i] == ds[..i];
  }

  /**
   * The loop over `enumerate(downloads, 1)`: one row per download, in
   * order, and the running totals of completed and total lengths.
   */
  method Aggregate(ds: seq<ActiveEntry>) returns (totalCompleted: nat, totalSize: nat, rows: seq<Row>)
    ensures totalCompleted == SumCompleted(ds) && totalSize == SumTotal(ds)
    ensures rows == Rows(ds)
  {
    totalCompleted, totalSize, rows := 0, 0, [];
    for i := 0 to |ds|
      invariant totalCompleted == SumCompleted(ds[..i]) && totalSize == SumTotal(ds[..i])
      invariant rows == Rows(ds[..i])
    {
      SumsStep(ds, i);
      rows := rows + [RowOf(ds[i])];
      totalCompleted := totalCompleted + ds[i].snap.completed;
      totalSize := totalSize + ds[i].snap.total;
    }
    assert ds[..|ds|] == ds;
  }

  /** What one `tellActive` call gives: the active downloads, or an exception's message. */
  datatype ActiveAnswer = FetchFailed(error: string) | Active(entries: seq<ActiveEntry>)

  /**
   * Where the update loop stands: the answers ran out, the list was empty,
   * or a non-empty list was aggregated (its rendering lies past the lines
   * shown).
   */
  datatype StatusEnd = Waiting | NoneActive | Listing(count: nat, completed: nat, size: nat, rows: seq<Row>)

  datatype StatusOutcome = StatusOutcome(effects: seq<Effect>, end: StatusEnd)

  /** `str(e)[:50]`. */
  function Clip(s: string, n: nat): (r: string)
    ensures |r| <= n && r <= s
    ensures |s| <= n ==> r == s
  {
    if |s| <= n then s else s[..n]
  }

  const ErrorClip: nat := 50

  /** One answer of `tellActive`: its effects, and `Waiting` when the loop goes on. */
  function StatusStep(loc: Loc, a: ActiveAnswer): StatusOutcome {
    match a
    case FetchFailed(err) => StatusOutcome([Call(TellActive), Edit(loc, FetchError(Clip(err, ErrorClip)))], Waiting)
    case Active(ds) =>
      if ds == [] then StatusOutcome([Call(TellActive), Edit(loc, NoDownloads)], NoneActive)
      else
        StatusOutcome([Call(TellActive)],
          Listing(|ds|, SumCompleted(ds), SumTotal(ds), Rows(ds)))
  }

  /**
   * The `update_status` loop from answer i on, after the effects `made`:
   * it stops with the first step that does not leave it waiting.
   */
  function StatusRun(loc: Loc, answers: seq<ActiveAnswer>, i: nat, made: seq<Effect>): StatusOutcome
    requires i <= |answers|
    decreases |answers| - i
  {
    if i == |answers| then StatusOutcome(made, Waiting)
    else
      var step := StatusStep(loc, answers[i]);
      if step.end != Waiting then StatusOutcome(made + step.effects, step.end)
      else StatusRun(loc, answers, i + 1, made + step.effects)
  }

  /** One iteration of `update_status`. */
  method StatusOnce(client: Client, loc: Loc, a: ActiveAnswer) returns (end: StatusEnd)
    modifies client
    ensures end == StatusStep(loc, a).end
    ensures client.trace == old(client.trace) + StatusStep(loc, a).effects
    ensures client.activeDownloads == old(client.activeDownloads)
    ensures client.statusMessages == old(client.statusMessages)
  {
    client.Emit(Call(TellActive));
    match a {
      case FetchFailed(err) =>
        client.Emit(Edit(loc, FetchError(Clip(err, ErrorClip))));
        end := Waiting;
      case Active(ds) =>
        if ds == [] {
          client.Emit(Edit(loc, NoDownloads));
          end := NoneActive;
        } else {
          var totalCompleted, totalSize, rows := Aggregate(ds);
          end := Listing(|ds|, totalCompleted, totalSize, rows);
        }
    }
  }

  /** `update_status`, up to the first non-empty list of active downloads. */
  method UpdateStatus(client: Client, loc: Loc, answers: seq<ActiveAnswer>) returns (end: StatusEnd)
    modifies client
    ensures var r := StatusRun(loc, answers, 0, []);
      end == r.end && client.trace == old(client.trace) + r.effects
    ensures client.activeDownloads == old(client.activeDownloads)
    ensures client.statusMessages == old(client.statusMessages)
  {
    ghost var effects: seq<Effect> := [];
    ghost var goal := StatusRun(loc, answers, 0, []);
    var i := 0;
    while i < |answers|
      invariant i <= |answers|
      invariant client.trace == old(client.trace) + effects
      invariant client.activeDownloads == old(client.activeDownloads)
      invariant client.statusMessages == old(client.statusMessages)
      invariant StatusRun(loc, answers, i, effects) == goal
    {
      ghost var step := StatusStep(loc, answers[i]);
      end := StatusOnce(client, loc, answers[i]);
      effects := effects + step.effects;
      if end != Waiting {
        return;
      }
      i := i + 1;
    }
    return Waiting;
  }

  /**
   * Fetch failures never stop the loop: over failures only, every answer
   * produces one call and one error edit whose message is at most 50
   * characters, and the loop is still waiting at the end.
   */
  lemma {:induction false} FailuresKeepPolling(loc: Loc, answers: seq<ActiveAnswer>, i: nat, made: seq<Effect>)
    requires i <= |answers|
    requires forall k :: i <= k < |answers| ==> answers[k].FetchFailed?
    ensures var r := StatusRun(loc, answers, i, made);
      && r.end == Waiting
      && |r.effects| == |made| + 2 * (|answers| - i)
      && r.effects[..|made|] == made
      && forall k :: |made| <= k < |r.effects| ==>
           if (k - |made|) % 2 == 0 then r.effects[k] == Call(TellActive)
           else r.effects[k].Edit? && r.effects[k].text.FetchError? && |r.effects[k].text.error| <= ErrorClip
    decreases |answers| - i
  {
    if i < |answers| {
      var step := StatusStep(loc, answers[i]);
      var made' := made + step.effects;
      FailuresKeepPolling(loc, answers, i + 1, made');
      var r := StatusRun(loc, answers, i, made).effects;
      assert r == StatusRun(loc, answers, i + 1, made').effects;
      assert r[..|made|] == made'[..|made|] == made;
      forall k | |made| <= k < |r|
        ensures if (k - |made|) % 2 == 0 then r[k] == Call(TellActive)
          else r[k].Edit? && r[k].text.FetchError? && |r[k].text.error| <= ErrorClip
      {
        if k < |made'| {
          assert r[k] == made'[k] == step.effects[k - |made|];
        } else {
          assert (k - |made'|) % 2 == (k - |made|) % 2;
        }
      }
    } else {
      assert StatusRun(loc, answers, i, made).effects == made;
    }
  }
}
