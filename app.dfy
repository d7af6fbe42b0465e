/**
 * The application's event handling and its worker callback.
 *
 * Terminal input, resize signals and update notifications arrive on one
 * channel, modelled as the sequence of items the main loop receives. The
 * threads that feed it, the locks around the shared state and the drawing
 * itself are not modelled: a redraw is recorded as the help-overlay flag
 * the frame was drawn with.
 */
module App {
  import opened Wrappers
  import opened Runner
  import opened Analysis

  /** Keys as the terminal library decodes them. */
  datatype Key =
    | Backspace | Left | Right | Up | Down | Home | End | PageUp | PageDown
    | BackTab | Delete | Insert | F(n: nat) | Char(c: char) | Alt(c: char)
    | Ctrl(c: char) | Null | Esc

  /** A decoded terminal input event. */
  datatype TermEvent = KeyPress(key: Key) | Mouse | Unsupported(bytes: seq<int>)

  /** What the main loop reacts to. */
  datatype AppEvent = Term(event: TermEvent) | Resize | Update

  /** An item taken from the channel: an event, or a failure to read terminal input. */
  datatype Received = Event(event: AppEvent) | Failed(error: IoError)

  /** The three ways to quit: Ctrl-c, `q` and Esc. */
  predicate IsQuit(e: AppEvent) {
    e == Term(KeyPress(Ctrl('c'))) || e == Term(KeyPress(Char('q'))) || e == Term(KeyPress(Esc))
  }

  /** The help toggle: `h`. */
  predicate IsHelpToggle(e: AppEvent) {
    e == Term(KeyPress(Char('h')))
  }

  /** How the application reacts to one event. */
  datatype Reaction = Reaction(quit: bool, showHelp: bool, redraw: bool)

  /**
   * The reaction to `e` while the help overlay is `showHelp`: quit on the
   * quit keys; toggle the overlay and redraw on `h`; redraw on a resize or
   * an update; ignore every other terminal event.
   */
  function React(showHelp: bool, e: AppEvent): (r: Reaction)
    ensures r.quit <==> IsQuit(e)
    ensures r.showHelp == (if IsHelpToggle(e) then !showHelp else showHelp)
    ensures r.redraw <==> IsHelpToggle(e) || e == Resize || e == Update
  {
    match e
    case Term(KeyPress(Ctrl('c'))) => Reaction(true, showHelp, false)
    case Term(KeyPress(Char('q'))) => Reaction(true, showHelp, false)
    case Term(KeyPress(Esc)) => Reaction(true, showHelp, false)
    case Term(KeyPress(Char('h'))) => Reaction(false, !showHelp, true)
    case Term(_) => Reaction(false, showHelp, false)
    case Resize => Reaction(false, showHelp, true)
    case Update => Reaction(false, showHelp, true)
  }

  /** Pressing `h` twice restores the overlay. */
  lemma HelpToggleTwice(showHelp: bool)
    ensures React(React(showHelp, Term(KeyPress(Char('h')))).showHelp, Term(KeyPress(Char('h')))).showHelp == showHelp
  {
  }

  /** Where the main loop stops: at the first failure or quit event, or after the last item. */
  function StopIndex(items: seq<Received>): (i: nat)
    ensures i <= |items|
    ensures forall k :: 0 <= k < i ==> items[k].Event? && !IsQuit(items[k].event)
    ensures i < |items| ==> items[i].Failed? || IsQuit(items[i].event)
    decreases |items|
  {
    if items == [] then 0
    else if items[0].Failed? || IsQuit(items[0].event) then 0
    else 1 + StopIndex(items[1..])
  }

  /** The overlay after reacting to `events` in order. */
  function HelpAfter(showHelp: bool, events: seq<AppEvent>): bool
    decreases |events|
  {
    if events == [] then showHelp
    else React(HelpAfter(showHelp, events[..|events| - 1]), events[|events| - 1]).showHelp
  }

  /** The number of help toggles among `events`. */
  function Toggles(events: seq<AppEvent>): nat
    decreases |events|
  {
    if events == [] then 0
    else Toggles(events[..|events| - 1]) + (if IsHelpToggle(events[|events| - 1]) then 1 else 0)
  }

  /** The overlay flags of the frames drawn while reacting to `events`. */
  function FramesAfter(showHelp: bool, events: seq<AppEvent>): seq<bool>
    decreases |events|
  {
    if events == [] then []
    else
      var before := HelpAfter(showHelp, events[..|events| - 1]);
      var r := React(before, events[|events| - 1]);
      FramesAfter(showHelp, events[..|events| - 1]) + (if r.redraw then [r.showHelp] else [])
  }

  /** The overlay is shown exactly when it started shown and was toggled an even number of times, or the reverse. */
  lemma {:induction false} HelpAfterParity(showHelp: bool, events: seq<AppEvent>)
    ensures HelpAfter(showHelp, events) == (showHelp != (Toggles(events) % 2 == 1))
    decreases |events|
  {
    if events != [] {
      HelpAfterParity(showHelp, events[..|events| - 1]);
    }
  }

  /** An event after which a frame is drawn: a help toggle, a resize or an update. */
  predicate Redraws(e: AppEvent) {
    IsHelpToggle(e) || e == Resize || e == Update
  }

  /** The positions of the events after which a frame is drawn. */
  function RedrawPositions(events: seq<AppEvent>): set<nat> {
    set k: nat | k < |events| && Redraws(events[k])
  }

  /** The number of frames drawn is the number of toggles, resizes and updates. */
  lemma {:induction false} FramesCount(showHelp: bool, events: seq<AppEvent>)
    ensures |FramesAfter(showHelp, events)| == |RedrawPositions(events)|
    decreases |events|
  {
    if events != [] {
      var n := |events| - 1;
      var pre := events[..n];
      FramesCount(showHelp, pre);
      assert |FramesAfter(showHelp, events)| == |FramesAfter(showHelp, pre)| + (if Redraws(events[n]) then 1 else 0);
      RedrawPositionsSnoc(events);
    }
  }

  lemma RedrawPositionsSnoc(events: seq<AppEvent>)
    requires events != []
    ensures var n := |events| - 1;
      |RedrawPositions(events)| == |RedrawPositions(events[..n])| + (if Redraws(events[n]) then 1 else 0)
  {
    var n := |events| - 1;
    var pre := events[..n];
    assert forall k :: 0 <= k < n ==> pre[k] == events[k];
    if Redraws(events[n]) {
      assert RedrawPositions(events) == RedrawPositions(pre) + {n};
    } else {
      assert RedrawPositions(events) == RedrawPositions(pre);
    }
  }

  /** The events the loop handles before it stops. */
  function Handled(items: seq<Received>): (events: seq<AppEvent>)
    ensures |events| == StopIndex(items)
    ensures forall k :: 0 <= k < |events| ==> items[k] == Event(events[k])
  {
    seq(StopIndex(items), k requires 0 <= k < StopIndex(items) => items[k].event)
  }

  /** How the main loop ended. */
  datatype Outcome = Quit | Error(error: IoError) | Disconnected

  /** The state of the user interface. */
  class AppState {
    var showHelp: bool
    /** The overlay flag of every frame drawn so far, oldest first. */
    var frames: seq<bool>

    constructor ()
      ensures !showHelp && frames == []
    {
      showHelp := false;
      frames := [];
    }

    /** Draws one frame: the overlay is drawn when `showHelp` is set. */
    method Draw()
      modifies this
      ensures showHelp == old(showHelp)
      ensures frames == old(frames) + [showHelp]
    {
      frames := frames + [showHelp];
    }

    /**
     * Handles one event: returns true to quit, toggles the overlay on `h`,
     * and redraws on `h`, a resize or an update.
     */
    method ProcessEvent(e: AppEvent) returns (quit: bool)
      modifies this
      ensures quit == React(old(showHelp), e).quit
      ensures showHelp == React(old(showHelp), e).showHelp
      ensures frames == old(frames) + (if React(old(showHelp), e).redraw then [showHelp] else [])
    {
      match e {
        case Term(KeyPress(Ctrl('c'))) =>
          return true;
        case Term(KeyPress(Char('q'))) =>
          return true;
        case Term(KeyPress(Esc)) =>
          return true;
        case Term(KeyPress(Char('h'))) =>
          showHelp := !showHelp;
          Draw();
        case Term(_) =>
        case Resize =>
          Draw();
        case Update =>
          Draw();
      }
      return false;
    }

    /**
     * The main loop: draws once, then handles the received items in order
     * until a quit event or a failure to read input. A finite sequence of
     * items models the channel; running out of items is `Disconnected`.
     */
    method Run(items: seq<Received>) returns (outcome: Outcome)
      modifies this
      ensures var stop := StopIndex(items);
        outcome == (if stop == |items| then Disconnected
                    else if items[stop].Failed? then Error(items[stop].error)
                    else Quit)
      ensures showHelp == HelpAfter(old(showHelp), Handled(items))
      ensures frames == old(frames) + [old(showHelp)] + FramesAfter(old(showHelp), Handled(items))
    {
      Draw();
      ghost var start := showHelp;
      ghost var drawn := frames;
      var i := 0;
      while i < |items|
        invariant i <= StopIndex(items)
        invariant showHelp == HelpAfter(start, Handled(items)[..i])
        invariant frames == drawn + FramesAfter(start, Handled(items)[..i])
      {
        match items[i] {
          case Failed(err) =>
            assert Handled(items)[..i] == Handled(items);
            return Error(err);
          case Event(e) =>
            ghost var handled := Handled(items)[..i];
            var quit := ProcessEvent(e);
            if quit {
              assert handled == Handled(items);
              return Quit;
            }
            assert Handled(items)[..i + 1] == handled + [e];
            assert (handled + [e])[..i] == handled;
        }
        i := i + 1;
      }
      assert Handled(items)[..i] == Handled(items);
      return Disconnected;
    }
  }

  /** The state the worker thread shares with the user interface. */
  class WorkerState {
    var analyzer: Analyzer
    var lastOutput: Option<CmdResult>
    /** The events this worker has sent on the channel, oldest first. */
    var sent: seq<AppEvent>

    constructor ()
      ensures fresh(analyzer) && analyzer.samples == []
      ensures lastOutput == None && sent == []
    {
      analyzer := new Analyzer();
      lastOutput := None;
      sent := [];
    }

    /**
     * The worker's callback for one run: a successful run's output is
     * given to the analyzer; every result replaces the last output; one
     * update event is sent.
     */
    method OnResult(result: CmdResult, instant: int, time: int)
      modifies this, analyzer
      ensures analyzer == old(analyzer)
      ensures analyzer.samples == (if result.Ok? then NextSamples(old(analyzer.samples), result.output, instant, time)
                                   else old(analyzer.samples))
      ensures lastOutput == Some(result)
      ensures sent == old(sent) + [Update]
    {
      if result.Ok? {
        analyzer.ProcessOutput(result.output, instant, time);
      }
      lastOutput := Some(result);
      sent := sent + [Update];
    }

    /**
     * The worker's loop over a finite prefix of its runs: each result, with
     * the clock readings of its run, goes through the callback in order.
     */
    method Watch(attempts: seq<Attempt>)
      requires |attempts| > 0
      modifies this, analyzer
      ensures analyzer == old(analyzer)
      ensures analyzer.samples == Feed(old(analyzer.samples), Successes(attempts))
      ensures lastOutput == Some(attempts[|attempts| - 1].result)
      ensures sent == old(sent) + seq(|attempts|, _ => Update)
    {
      for j := 0 to |attempts|
        invariant analyzer == old(analyzer)
        invariant analyzer.samples == Feed(old(analyzer.samples), Successes(attempts[..j]))
        invariant j > 0 ==> lastOutput == Some(attempts[j - 1].result)
        invariant sent == old(sent) + seq(j, _ => Update)
      {
        var a := attempts[j];
        WatchStep(old(analyzer.samples), attempts, j);
        OnResult(a.result, a.instant, a.time);
      }
      assert attempts[..|attempts|] == attempts;
    }
  }

  /** One run of the worker: the command's result and the clock readings taken after it. */
  datatype Attempt = Attempt(result: CmdResult, instant: int, time: int)

  /** One more result feeds the analyzer exactly when it is a success. */
  lemma WatchStep(samples: seq<Sample>, attempts: seq<Attempt>, j: nat)
    requires j < |attempts|
    ensures var a := attempts[j];
      Feed(samples, Successes(attempts[..j + 1])) ==
        if a.result.Ok? then NextSamples(Feed(samples, Successes(attempts[..j])), a.result.output, a.instant, a.time)
        else Feed(samples, Successes(attempts[..j]))
  {
    var a := attempts[j];
    var pre := attempts[..j + 1];
    assert pre[..|pre| - 1] == attempts[..j];
    assert pre[|pre| - 1] == a;
    var runs := Successes(attempts[..j]);
    if a.result.Ok? {
      assert Successes(pre) == runs + [Run(a.result.output, a.instant, a.time)];
      FeedSnoc(samples, runs, Run(a.result.output, a.instant, a.time));
    } else {
      assert Successes(pre) == runs + [];
      assert runs + [] == runs;
    }
  }

  /** The successful runs among `attempts`, as the analyzer sees them. */
  function Successes(attempts: seq<Attempt>): (runs: seq<Run>)
    ensures |runs| <= |attempts|
    ensures forall r :: r in runs ==> Attempt(Ok(r.output), r.instant, r.time) in attempts
    ensures forall a :: a in attempts && a.result.Ok? ==> Run(a.result.output, a.instant, a.time) in runs
    decreases |attempts|
  {
    if attempts == [] then []
    else
      var front := attempts[..|attempts| - 1];
      var a := attempts[|attempts| - 1];
      assert attempts == front + [a];
      Successes(front) + (if a.result.Ok? then [Run(a.result.output, a.instant, a.time)] else [])
  }
}
