/**
 The widget's view state and the three user events that change it: a wheel
 event over the text box or the dial, an edit of the text box, and a click on
 either (which resets the timer).
 */
module View {
  import Wheel
  import TextInput
  import Gauge
  import TimeFormat

  /**
   The state the widget keeps. `duration` is in minutes, `timeLeft` in
   seconds, `pausedElapsed` in milliseconds; `drawn` is the progress most
   recently passed to the dial's redraw.
   */
  datatype Timer = Timer(
    duration: nat,
    timeLeft: nat,
    isRunning: bool,
    isPaused: bool,
    pausedElapsed: nat,
    drawn: real)

  /** On mount: nothing configured, and both mount-time redraws show an empty dial. */
  const Initial: Timer := Timer(0, 0, false, false, 0, 0.0)

  /** While a countdown is running or paused, the duration cannot be edited. */
  predicate Locked(t: Timer) {
    t.isRunning || t.isPaused
  }

  /** The clock text under the dial: the configured duration as `MM:SS`. */
  function Display(t: Timer): (text: string)
    ensures |text| >= 5
    ensures t.duration < 100 ==> |text| == 5
    ensures TimeFormat.ParseTime(text) == TimeFormat.Some(t.duration * TimeFormat.SecondsPerMinute)
  {
    TimeFormat.ParseFormat(t.duration * TimeFormat.SecondsPerMinute);
    TimeFormat.FormatTime(t.duration * TimeFormat.SecondsPerMinute)
  }

  /** The dial shows what the duration asks for. */
  predicate DialAgrees(t: Timer) {
    t.drawn == Gauge.Progress(t.duration)
  }

  /**
   A wheel event: ignored while locked; otherwise the duration steps to the
   neighbouring five-minute mark and the dial is redrawn for it.
   */
  function OnWheel(t: Timer, deltaY: real): (r: Timer)
    ensures Locked(t) ==> r == t
    ensures !Locked(t) ==> r.duration == Wheel.Next(t.duration, Wheel.DirectionOf(deltaY))
    ensures !Locked(t) ==> DialAgrees(r) && Wheel.OnGrid(r.duration)
    ensures t.duration <= Wheel.MaxMinutes ==> r.duration <= Wheel.MaxMinutes
    ensures deltaY < 0.0 && t.duration <= Wheel.MaxMinutes ==> r.duration >= t.duration
    ensures deltaY >= 0.0 ==> r.duration <= t.duration
    ensures r.(duration := t.duration, drawn := t.drawn) == t
  {
    if Locked(t) then t
    else
      var next := Wheel.Next(t.duration, Wheel.DirectionOf(deltaY));
      t.(duration := next, drawn := Gauge.Progress(next))
  }

  /**
   An edit of the text box: ignored while locked; otherwise the duration
   becomes what the sanitised text asks for. The dial is redrawn only when
   the duration actually changes, since the redraw hangs off a change of the
   duration.
   */
  function OnInput(t: Timer, text: string): (r: Timer)
    ensures Locked(t) ==> r == t
    ensures !Locked(t) ==> r.duration == TextInput.Sanitise(text)
    ensures r.duration <= Wheel.MaxMinutes || r == t
    ensures r.duration != t.duration ==> DialAgrees(r)
    ensures r.duration == t.duration ==> r == t
    ensures r.(duration := t.duration, drawn := t.drawn) == t
  {
    if Locked(t) then t
    else
      var minutes := TextInput.Sanitise(text);
      if minutes == t.duration then t
      else t.(duration := minutes, drawn := Gauge.Progress(minutes))
  }

  /**
   A click: stops and unpauses the countdown, forgets the paused time, clears
   the time left and blanks the dial. The configured duration stays.
   */
  function Reset(t: Timer): (r: Timer)
    ensures !r.isRunning && !r.isPaused
    ensures r.pausedElapsed == 0 && r.timeLeft == 0
    ensures r.duration == t.duration
    ensures !Gauge.WedgeDrawn(r.drawn)
  {
    t.(isRunning := false, isPaused := false, pausedElapsed := 0, timeLeft := 0, drawn := 0.0)
  }

  /**
   After a click the clock text still shows the duration while the dial
   shows no wedge, even for a duration that draws one.
   */
  lemma ResetBlanksDialButKeepsDisplay(t: Timer)
    ensures Display(Reset(t)) == Display(t)
    ensures Reset(Reset(t)) == Reset(t)
    ensures Gauge.WedgeShown(t.duration) ==> !DialAgrees(Reset(t))
  {
  }

  datatype Event = Scrolled(deltaY: real) | Typed(text: string) | Clicked

  function Step(t: Timer, e: Event): (r: Timer) {
    match e
    case Scrolled(deltaY) => OnWheel(t, deltaY)
    case Typed(text) => OnInput(t, text)
    case Clicked => Reset(t)
  }

  /** The state after a sequence of events, oldest first. */
  function Run(t: Timer, events: seq<Event>): (r: Timer)
    decreases |events|
  {
    if |events| == 0 then t else Run(Step(t, events[0]), events[1..])
  }

  /**
   What holds of every state the widget can reach: the duration is on the
   dial, nothing is running or paused, no time is kept, and the dial either
   shows the duration or has been blanked by a click.
   */
  predicate Consistent(t: Timer) {
    && t.duration <= Wheel.MaxMinutes
    && !t.isRunning && !t.isPaused
    && t.timeLeft == 0 && t.pausedElapsed == 0
    && (DialAgrees(t) || t.drawn == 0.0)
  }

  lemma StepKeepsConsistent(t: Timer, e: Event)
    requires Consistent(t)
    ensures Consistent(Step(t, e))
  {
  }

  /** Every run of events from a consistent state ends in a consistent state. */
  lemma {:induction false} RunKeepsConsistent(t: Timer, events: seq<Event>)
    requires Consistent(t)
    ensures Consistent(Run(t, events))
    decreases |events|
  {
    if |events| > 0 {
      StepKeepsConsistent(t, events[0]);
      RunKeepsConsistent(Step(t, events[0]), events[1..]);
    }
  }

  /** Running a sequence followed by one more event is one more step. */
  lemma {:induction false} RunSnoc(t: Timer, events: seq<Event>, e: Event)
    ensures Run(t, events + [e]) == Step(Run(t, events), e)
    decreases |events|
  {
    if |events| == 0 {
      assert events + [e] == [e];
    } else {
      assert (events + [e])[1..] == events[1..] + [e];
      RunSnoc(Step(t, events[0]), events[1..], e);
    }
  }

  /**
   Nothing in the widget ever starts or pauses the countdown, so the edit
   guard never engages: every wheel event a user makes takes effect.
   */
  lemma WheelAlwaysTakesEffect(events: seq<Event>, deltaY: real)
    ensures var before := Run(Initial, events);
            Run(Initial, events + [Scrolled(deltaY)]).duration
              == Wheel.Next(before.duration, Wheel.DirectionOf(deltaY))
  {
    RunKeepsConsistent(Initial, events);
    RunSnoc(Initial, events, Scrolled(deltaY));
  }

  /**
   In every reachable state the duration is on the dial and its clock text is
   five characters; by `Display`'s contract it reads back as the duration in
   seconds.
   */
  lemma ReachableDisplay(events: seq<Event>)
    ensures var t := Run(Initial, events);
            t.duration <= Wheel.MaxMinutes && |Display(t)| == 5
  {
    RunKeepsConsistent(Initial, events);
  }

  /**
   In every reachable state a wedge on the dial is the one the duration asks
   for, so it is only ever seen for a duration strictly inside the hour.
   */
  lemma ReachableWedge(events: seq<Event>)
    ensures var t := Run(Initial, events);
            Gauge.WedgeDrawn(t.drawn) ==> DialAgrees(t) && Gauge.WedgeShown(t.duration)
  {
    RunKeepsConsistent(Initial, events);
  }
}
