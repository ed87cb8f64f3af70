/** The invocation of `showtext` after its arguments are parsed: the start-up
    gate that may defer the request into the next-command slot, and the
    display loop, as a step function over the events the loop observes.
    SDL is reduced to the `Render`/`Clear` outputs, the clock to the readings
    of `time(NULL)` carried by ticks, and other invocations to their writes
    to the slot. */
module ShowText {
  import opened Wrappers
  import opened CLib
  import opened ShowArgs
  import opened NextCommand

  /** The idle loop's bound, in what the source's comment calls seconds. */
  const IdleLimit := 3

  /** The text that clears the screen instead of being shown. */
  const ClearText := "clear"

  // ---------------------------------------------------------------------
  // Start-up gate

  /** `fscanf(f, "%d", &current_duration) == 1 && current_duration > 0`:
      the slot exists and starts with a positive integer. A slot without a
      text after its number still makes the gate wait. */
  function PendingTimed(slot: Option<string>): (b: bool)
    ensures b ==> slot.Some?
  {
    slot.Some? && ScanInt(slot.value).Some? && ScanInt(slot.value).value.value > 0
  }

  /** On a slot the loop can read, the gate sees the very duration the loop
      would take. */
  lemma PendingTimedReadsDuration(slot: Option<string>)
    requires slot.Some? && Decode(slot.value).Some?
    ensures PendingTimed(slot) <==> Decode(slot.value).value.duration > 0
  {
  }

  /** What one invocation of `main` does before (or instead of) its loop. */
  datatype Invocation =
    | Usage                       // no text: usage printed, exit 0
    | Deferred(slot: Option<string>) // request parked in the slot, exit 0
    | InitFailed                  // SDL set-up failed, exit 1
    | Started(loop: Loop)         // the display loop runs

  /** The process's exit status for an invocation that ends before the loop,
      and for a loop that ends (always 0). */
  function ExitStatus(inv: Invocation): int {
    if inv.InitFailed? then 1 else 0
  }

  /** The start-up gate: no text means usage; a pending command with a
      positive duration means this request is saved into the slot instead of
      being shown; otherwise SDL is set up (`sdlReady` is whether `init_sdl`
      succeeds) and the loop starts on the request, the slot untouched. */
  function Gate(req: Request, slot: Option<string>, sdlReady: bool): (r: Invocation)
    ensures r.Usage? <==> req.text.None?
    ensures r.Deferred? <==> req.text.Some? && PendingTimed(slot)
    ensures r.Deferred? ==> r.slot == Save(slot, req.text.value, req.duration)
    ensures r.InitFailed? <==> req.text.Some? && !PendingTimed(slot) && !sdlReady
    ensures r.Started? ==> r.loop == Loop(req.text.value, req.duration, Show, slot)
    ensures ExitStatus(r) == 1 <==> r.InitFailed?
  {
    match req.text
    case None => Usage
    case Some(text) =>
      if PendingTimed(slot) then Deferred(Save(slot, text, req.duration))
      else if !sdlReady then InitFailed
      else Started(Loop(text, req.duration, Show, slot))
  }

  // ---------------------------------------------------------------------
  // Display loop

  /** Where the loop of `main` stands between two observable steps. */
  datatype Phase =
    | Show                 // top of the `do` loop: show or clear `text`
    | Timed(start: int)    // in the `duration > 0` wait, started at `start`
    | Waiting(idle: int)   // in the idle wait, with the `int idle_time`
    | Recheck              // at the final `check_next_command` of the iteration
    | Done                 // after `cleanup_and_exit`

  datatype Loop = Loop(text: string, duration: int, phase: Phase, slot: Option<string>)

  datatype Output = Render(text: string) | Clear

  /** What the loop observes. A `Tick` is one pass of whatever the loop is
      doing, with `quit` telling whether `SDL_PollEvent` delivers `SDL_QUIT`
      and `now` the value of `time(NULL)`. `Saved` and `Removed` are another
      invocation writing or unlinking the slot. */
  datatype Event =
    | Tick(quit: bool, now: int)
    | Saved(text: string, duration: int)
    | Removed

  datatype Stepped = Stepped(loop: Loop, out: Option<Output>)

  /** `idle_time += 0.1` on an `int`: the sum is computed in `double` and
      truncated toward zero on the way back, i.e. `(10*t + 1) / 10` in C. */
  function IntPlusTenth(t: int): (r: int)
    ensures t >= 0 ==> r == t
    ensures t < 0 ==> r == t + 1
  {
    TruncDiv(10 * t + 1, 10)
  }

  /** The increment of `idle_time` is lost: from 0 (its only start value) it
      stays 0, so the bound of 3 is never reached. */
  lemma IdleTimeNeverGrows()
    ensures IntPlusTenth(0) == 0
    ensures forall t :: t >= 0 ==> IntPlusTenth(t) == t
  {
  }

  /** `cleanup_and_exit`: SDL is torn down and the slot is unlinked. */
  function Exit(s: Loop): (r: Loop)
    ensures r.phase.Done? && r.slot.None?
    ensures r.text == s.text && r.duration == s.duration
  {
    s.(phase := Done, slot := None)
  }

  /** The output of the top of the loop: `clear` blanks the screen, anything
      else is rendered. */
  function ShowOutput(text: string): (o: Output)
    ensures o.Clear? <==> text == ClearText
    ensures o.Render? ==> o.text == text
  {
    if text == ClearText then Clear else Render(text)
  }

  /** One step of the loop of `main`, as written. */
  function Step(s: Loop, e: Event): (r: Stepped)
    // other invocations only touch the slot
    ensures e.Saved? ==> r == Stepped(s.(slot := Save(s.slot, e.text, e.duration)), None)
    ensures e.Removed? ==> r == Stepped(s.(slot := None), None)
    // only the top of the loop shows anything, and it shows the current text
    ensures r.out.Some? <==> e.Tick? && s.phase.Show?
    ensures r.out.Some? ==> r.out.value == ShowOutput(s.text) && r.loop.slot == s.slot
    // a timed display is not interrupted by the slot before its time is up
    ensures e.Tick? && s.phase.Timed? && e.now - s.phase.start < s.duration ==>
      if e.quit then r.loop == Exit(s) else r.loop == s
    // the slot is consulted only in the idle wait and at the final check
    ensures e.Tick? && r.loop.slot != s.slot ==> s.phase.Waiting? || s.phase.Recheck? || r.loop.phase.Done?
    // a command taken from the slot replaces text and duration
    ensures e.Tick? && (r.loop.text, r.loop.duration) != (s.text, s.duration) ==>
      s.slot.Some? && Decode(s.slot.value) == Some(Command(r.loop.duration, r.loop.text)) && r.loop.slot.None?
    // every way out goes through cleanup_and_exit, which removes the slot
    ensures e.Tick? && r.loop.phase.Done? && !s.phase.Done? ==> r.loop.slot.None?
    ensures s.phase.Done? && e.Tick? ==> r.loop == s
  {
    match e
    case Saved(t, d) => Stepped(s.(slot := Save(s.slot, t, d)), None)
    case Removed => Stepped(s.(slot := None), None)
    case Tick(quit, now) =>
      match s.phase
      case Done => Stepped(s, None)
      case Show =>
        var next := if s.duration > 0 then Timed(now) else Waiting(0);
        Stepped(s.(phase := next), Some(ShowOutput(s.text)))
      case Timed(start) =>
        if now - start < s.duration then
          if quit then Stepped(Exit(s), None) else Stepped(s, None)
        else Stepped(s.(phase := Recheck), None)
      case Waiting(idle) =>
        if idle < IdleLimit then
          if quit then Stepped(Exit(s), None)
          else
            var c := CheckNext(s.slot);
            match c.command
            case Some(cmd) => Stepped(Loop(cmd.text, cmd.duration, Recheck, c.slot), None)
            case None => Stepped(s.(phase := Waiting(IntPlusTenth(idle))), None)
        else Stepped(Exit(s), None)
      case Recheck =>
        var c := CheckNext(s.slot);
        match c.command
        case Some(cmd) => Stepped(Loop(cmd.text, cmd.duration, Show, c.slot), None)
        case None => Stepped(Exit(s), None)
  }

  /** The loop driven by a sequence of events, with everything it shows. */
  function Run(s: Loop, events: seq<Event>): (Loop, seq<Output>)
    decreases |events|
  {
    if |events| == 0 then (s, [])
    else
      var r := Step(s, events[0]);
      var (last, outs) := Run(r.loop, events[1..]);
      (last, Shown(r.out) + outs)
  }

  function Shown(o: Option<Output>): seq<Output> {
    if o.Some? then [o.value] else []
  }

  /** Running a non-empty event sequence is one step followed by the rest. */
  lemma RunCons(s: Loop, e: Event, rest: seq<Event>)
    ensures var r := Step(s, e);
      Run(s, [e] + rest) == (Run(r.loop, rest).0, Shown(r.out) + Run(r.loop, rest).1)
  {
    assert ([e] + rest)[1..] == rest;
  }

  /** The loop's invariant: the timed wait runs only for a positive duration,
      the idle wait only for a non-positive one and always with
      `idle_time == 0`. */
  predicate Inv(s: Loop) {
    && (s.phase.Timed? ==> s.duration > 0)
    && (s.phase.Waiting? ==> s.duration <= 0 && s.phase.idle == 0)
  }

  lemma StepKeepsInv(s: Loop, e: Event)
    requires Inv(s)
    ensures Inv(Step(s, e).loop)
  {
    IdleTimeNeverGrows();
  }

  /** Every state the loop reaches from its start satisfies the invariant. */
  lemma {:induction false} RunKeepsInv(s: Loop, events: seq<Event>)
    requires Inv(s)
    ensures Inv(Run(s, events).0)
    decreases |events|
  {
    if |events| > 0 {
      StepKeepsInv(s, events[0]);
      RunKeepsInv(Step(s, events[0]).loop, events[1..]);
    }
  }

  /** The loop starts in a state of the invariant. */
  lemma StartSatisfiesInv(req: Request, slot: Option<string>)
    requires Gate(req, slot, true).Started?
    ensures Inv(Gate(req, slot, true).loop)
  {
  }

  predicate QuietTicks(events: seq<Event>) {
    forall k :: 0 <= k < |events| ==> events[k].Tick? && !events[k].quit
  }

  /** One quiet pass of the idle wait over an empty slot changes nothing. */
  lemma QuietIdleTick(s: Loop, now: int)
    requires Inv(s) && s.phase.Waiting? && s.slot.None?
    ensures Step(s, Tick(false, now)) == Stepped(s, None)
  {
    IdleTimeNeverGrows();
    assert CheckNext(s.slot) == Checked(None, None);
  }

  /** The three-second exit of the idle wait never fires: with no quit event
      and no command arriving, an interruptible display waits forever and
      shows nothing more, however many ticks pass. */
  lemma {:induction false} IdleWaitNeverEnds(s: Loop, events: seq<Event>)
    requires Inv(s) && s.phase.Waiting? && s.slot.None?
    requires QuietTicks(events)
    ensures Run(s, events) == (s, [])
    decreases |events|
  {
    if |events| > 0 {
      QuietIdleTick(s, events[0].now);
      assert events[0] == Tick(false, events[0].now);
      assert QuietTicks(events[1..]) by {
        forall k | 0 <= k < |events[1..]|
          ensures events[1..][k].Tick? && !events[1..][k].quit
        {
          assert events[1..][k] == events[k + 1];
        }
      }
      IdleWaitNeverEnds(s, events[1..]);
      assert Run(s, events) == (Run(s, events[1..]).0, Shown(None) + Run(s, events[1..]).1);
      assert Shown(None) + [] == [];
    }
  }

  /** The idle wait takes a pending command out of the slot, unlinking it. */
  lemma IdleWaitTakesCommand(s: Loop, text: string, duration: int, now: int)
    requires Inv(s) && s.phase.Waiting?
    requires s.slot == Some(Encode(text, duration)) && SlotSafe(text)
    ensures Step(s, Tick(false, now)) == Stepped(Loop(text, duration, Recheck, None), None)
  {
    EncodedIsTaken(text, duration);
    WaitTakes(s, Command(duration, text), now);
  }

  /** A quiet pass of the idle wait over a slot the read consumes. */
  lemma WaitTakes(s: Loop, cmd: Command, now: int)
    requires Inv(s) && s.phase.Waiting?
    requires CheckNext(s.slot) == Checked(Some(cmd), None)
    ensures Step(s, Tick(false, now)) == Stepped(Loop(cmd.text, cmd.duration, Recheck, None), None)
  {
  }

  /** A quiet final check over a slot the read consumes. */
  lemma RecheckTakes(s: Loop, cmd: Command, now: int)
    requires s.phase.Recheck?
    requires CheckNext(s.slot) == Checked(Some(cmd), None)
    ensures Step(s, Tick(false, now)) == Stepped(Loop(cmd.text, cmd.duration, Show, None), None)
  {
  }

  /** The final check of an iteration over an empty slot leaves the loop. */
  lemma RecheckOfEmptySlotExits(s: Loop, quit: bool, now: int)
    requires s.phase.Recheck? && s.slot.None?
    ensures Step(s, Tick(quit, now)) == Stepped(s.(phase := Done), None)
  {
  }

  /** A command the idle wait takes from the slot is lost: the slot has just
      been unlinked, so unless another invocation writes it again the final
      check fails and the loop exits without showing the command. */
  lemma TakenCommandIsDropped(s: Loop, text: string, duration: int, t1: int, quit: bool, t2: int)
    requires Inv(s) && s.phase.Waiting?
    requires s.slot == Some(Encode(text, duration)) && SlotSafe(text)
    ensures Run(s, [Tick(false, t1), Tick(quit, t2)]) == (Loop(text, duration, Done, None), [])
  {
    IdleWaitTakesCommand(s, text, duration, t1);
    var s1 := Loop(text, duration, Recheck, None);
    RecheckOfEmptySlotExits(s1, quit, t2);
    RunCons(s1.(phase := Done), Tick(quit, t2), []);
    RunCons(s1, Tick(quit, t2), []);
    RunCons(s, Tick(false, t1), [Tick(quit, t2)]);
  }

  /** The command is shown after all when another invocation saves it again
      between the idle wait and the final check. */
  lemma RewrittenSlotIsShown(s: Loop, text: string, duration: int, t2: int, t3: int)
    requires s.phase.Recheck? && s.slot.None?
    requires SlotSafe(text)
    ensures var r := Run(s, [Saved(text, duration), Tick(false, t2), Tick(false, t3)]);
      r.1 == [ShowOutput(text)] && r.0.text == text && r.0.slot.None?
  {
    var s1 := s.(slot := Some(Encode(text, duration)));
    assert Step(s, Saved(text, duration)) == Stepped(s1, None);
    EncodedIsTaken(text, duration);
    RecheckTakes(s1, Command(duration, text), t2);
    var s2 := Loop(text, duration, Show, None);
    ShowStep(s2, t3);
    RunCons(s1, Tick(false, t2), [Tick(false, t3)]);
    assert Run(s1, [Tick(false, t2), Tick(false, t3)]).1 == [ShowOutput(text)];
    RunCons(s, Saved(text, duration), [Tick(false, t2), Tick(false, t3)]);
  }

  predicate OnlyTicks(events: seq<Event>) {
    forall k :: 0 <= k < |events| ==> events[k].Tick?
  }

  /** The loop never fills the slot: a tick only reads or unlinks it. */
  lemma TickKeepsSlotEmpty(s: Loop, quit: bool, now: int)
    requires s.slot.None?
    ensures Step(s, Tick(quit, now)).loop.slot.None?
  {
    assert CheckNext(None) == Checked(None, None);
  }

  /** Left to itself, a loop started over an empty slot keeps it empty,
      whatever it shows and however long it waits. */
  lemma {:induction false} TicksKeepSlotEmpty(s: Loop, events: seq<Event>)
    requires s.slot.None? && OnlyTicks(events)
    ensures Run(s, events).0.slot.None?
    decreases |events|
  {
    if |events| > 0 {
      TickKeepsSlotEmpty(s, events[0].quit, events[0].now);
      assert OnlyTicks(events[1..]) by {
        forall k | 0 <= k < |events[1..]|
          ensures events[1..][k].Tick?
        {
          assert events[1..][k] == events[k + 1];
        }
      }
      TicksKeepSlotEmpty(Step(s, events[0]).loop, events[1..]);
    }
  }

  /** The gate reads the pending command, not the running display: a
      display started over an empty slot, timed or not, never makes a later
      invocation wait, unless some other invocation writes the slot. */
  lemma GateIgnoresRunningDisplay(running: Loop, events: seq<Event>, req: Request)
    requires running.slot.None? && OnlyTicks(events)
    requires req.text.Some?
    ensures Gate(req, Run(running, events).0.slot, true).Started?
  {
    TicksKeepSlotEmpty(running, events);
  }

  /** The gate of the next invocation reads the duration a save wrote:
      a saved command holds the slot exactly when its duration is positive. */
  lemma SavedDurationGates(slot: Option<string>, text: string, duration: int)
    ensures PendingTimed(Save(slot, text, duration)) <==> duration > 0
  {
    var saved := Save(slot, text, duration);
    assert saved == Some(Encode(text, duration));
    EncodedDurationReads(text, duration);
  }

  /** Two requests deferred one after the other behind a timed pending
      command: the slot holds the second only, and the second is deferred as
      long as the first carried a positive duration. */
  lemma DeferralsOverwrite(slot: Option<string>, req1: Request, req2: Request)
    requires PendingTimed(slot) && req1.text.Some? && req2.text.Some?
    requires req1.duration > 0
    ensures var g1 := Gate(req1, slot, true);
      g1.Deferred? && Gate(req2, g1.slot, true) == Deferred(Save(None, req2.text.value, req2.duration))
  {
    SavedDurationGates(slot, req1.text.value, req1.duration);
  }

  /** A deferred request whose duration is not positive does not protect the
      slot: the next invocation starts displaying instead of queueing. */
  lemma InterruptibleDeferralLetsNextStart(slot: Option<string>, req1: Request, req2: Request)
    requires PendingTimed(slot) && req1.text.Some? && req2.text.Some?
    requires req1.duration <= 0
    ensures var g1 := Gate(req1, slot, true);
      g1.Deferred? && Gate(req2, g1.slot, true).Started?
  {
    SavedDurationGates(slot, req1.text.value, req1.duration);
  }

  predicate TicksBefore(events: seq<Event>, deadline: int) {
    forall k :: 0 <= k < |events| ==> events[k].Tick? && !events[k].quit && events[k].now < deadline
  }

  /** A timed display holds the screen for its whole duration: however many
      ticks pass before the time is up, nothing else is shown and the slot is
      neither read nor removed, whatever other invocations left in it. */
  lemma {:induction false} TimedWaitHolds(s: Loop, events: seq<Event>)
    requires s.phase.Timed?
    requires TicksBefore(events, s.phase.start + s.duration)
    ensures Run(s, events) == (s, [])
    decreases |events|
  {
    if |events| > 0 {
      assert Step(s, events[0]) == Stepped(s, None);
      assert TicksBefore(events[1..], s.phase.start + s.duration) by {
        forall k | 0 <= k < |events[1..]|
          ensures events[1..][k].Tick? && !events[1..][k].quit && events[1..][k].now < s.phase.start + s.duration
        {
          assert events[1..][k] == events[k + 1];
        }
      }
      TimedWaitHolds(s, events[1..]);
      assert Run(s, events) == (Run(s, events[1..]).0, Shown(None) + Run(s, events[1..]).1);
      assert Shown(None) + [] == [];
    }
  }

  /** At the end of a timed wait, the final check takes the pending command. */
  lemma ExpiryTakesPending(s: Loop, text: string, duration: int, t1: int, t2: int)
    requires s.phase.Timed? && t1 - s.phase.start >= s.duration
    requires s.slot == Some(Encode(text, duration)) && SlotSafe(text)
    ensures Step(s, Tick(false, t1)) == Stepped(s.(phase := Recheck), None)
    ensures Step(s.(phase := Recheck), Tick(false, t2)) == Stepped(Loop(text, duration, Show, None), None)
  {
    EncodedIsTaken(text, duration);
    RecheckTakes(s.(phase := Recheck), Command(duration, text), t2);
  }

  /** The top of the loop shows the text and starts the wait its duration selects. */
  lemma ShowStep(s: Loop, now: int)
    requires s.phase.Show?
    ensures var next := if s.duration > 0 then Timed(now) else Waiting(0);
      Run(s, [Tick(false, now)]) == (s.(phase := next), [ShowOutput(s.text)])
  {
    var next := if s.duration > 0 then Timed(now) else Waiting(0);
    assert [Tick(false, now)][1..] == [];
    assert Step(s, Tick(false, now)) == Stepped(s.(phase := next), Some(ShowOutput(s.text)));
    assert Shown(Some(ShowOutput(s.text))) + [] == [ShowOutput(s.text)];
  }

  /** Once the time is up, the command saved meanwhile is shown, exactly once,
      and the slot is emptied: the final check takes it, the next iteration
      shows it and starts the wait its own duration selects. */
  lemma ExpiryShowsPending(s: Loop, text: string, duration: int, t1: int, t2: int, t3: int)
    requires s.phase.Timed? && t1 - s.phase.start >= s.duration
    requires s.slot == Some(Encode(text, duration)) && SlotSafe(text)
    ensures var next := if duration > 0 then Timed(t3) else Waiting(0);
      Run(s, [Tick(false, t1), Tick(false, t2), Tick(false, t3)])
        == (Loop(text, duration, next, None), [ShowOutput(text)])
  {
    ExpiryTakesPending(s, text, duration, t1, t2);
    var s1 := s.(phase := Recheck);
    var s2 := Loop(text, duration, Show, None);
    ShowStep(s2, t3);
    assert [Tick(false, t2), Tick(false, t3)][1..] == [Tick(false, t3)];
    var next := if duration > 0 then Timed(t3) else Waiting(0);
    var s3 := Loop(text, duration, next, None);
    assert Run(s2, [Tick(false, t3)]) == (s3, [ShowOutput(text)]);
    assert Run(s1, [Tick(false, t2), Tick(false, t3)]) == (s3, Shown(None) + [ShowOutput(text)]);
    assert [Tick(false, t1), Tick(false, t2), Tick(false, t3)][1..] == [Tick(false, t2), Tick(false, t3)];
    assert Shown(None) + [ShowOutput(text)] == [ShowOutput(text)];
  }
}
