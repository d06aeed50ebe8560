/**
 * The camera game's controller: the round countdown, driven by the pygame
 * tick count, and the reading of keyboard and window events into the next
 * screen. Ticks and the event list are passed in where the controller asks
 * pygame for them.
 */
module CameraController {
  import opened Wrappers
  import opened Decimal

  /** The pygame key code of the escape key. */
  const KEscape: int := 27

  /** One pygame event: a key press, a click on the window's close button, or anything else. */
  datatype Event = KeyDown(key: int) | QuitEvent | OtherEvent

  /** What next_screen answers: "quit", "continue" or "stay". */
  datatype Screen = Quit | Continue | Stay

  /** Milliseconds per countdown step. */
  const TickMillis: int := 500

  /** Elapsed milliseconds after which the round's time is up. */
  const RoundMillis: int := 5000

  /**
   * The displayed countdown, 10 - elapsed // 500. Python's // floors; for
   * the positive divisor 500 that is Dafny's division, also for a negative
   * elapsed value.
   */
  function Countdown(elapsed: int): (c: int)
    ensures TickMillis * (10 - c) <= elapsed < TickMillis * (11 - c)
  {
    10 - elapsed / TickMillis
  }

  /** More elapsed time never shows a larger countdown. */
  lemma CountdownNonIncreasing(a: int, b: int)
    requires a <= b
    ensures Countdown(b) <= Countdown(a)
  {
  }

  /** Once the round's time is up, the countdown shows zero or less. */
  lemma EndShowsZeroOrLess(elapsed: int)
    requires elapsed > RoundMillis
    ensures Countdown(elapsed) <= 0
  {
  }

  /** The countdown texts shown after 0, 2000, 5000 and 7000 milliseconds. */
  lemma CountdownTexts()
    ensures IntToString(Countdown(0)) == "10"
    ensures IntToString(Countdown(2000)) == "6"
    ensures IntToString(Countdown(5000)) == "0"
    ensures IntToString(Countdown(7000)) == "-4"
  {
    assert NatToString(1) == "1";
    assert NatToString(10) == NatToString(1) + "0";
  }

  /** The screen one event asks for on its own, Stay when it asks for none. */
  function Reaction(e: Event): (s: Screen)
    ensures s == Quit <==> e == KeyDown(KEscape) || e == QuitEvent
    ensures s == Continue <==> e.KeyDown? && e.key != KEscape
  {
    match e
    case KeyDown(k) => if k == KEscape then Quit else Continue
    case QuitEvent => Quit
    case OtherEvent => Stay
  }

  /** The answer next_screen gives for an event list: the first event that asks for a screen decides. */
  function FirstReaction(events: seq<Event>): (s: Screen)
    ensures s != Stay ==> exists e :: e in events && Reaction(e) == s
    decreases |events|
  {
    if events == [] then Stay
    else if Reaction(events[0]) != Stay then Reaction(events[0])
    else FirstReaction(events[1..])
  }

  /**
   * FirstReaction is Stay exactly when no event asks for a screen, and
   * otherwise it is what the first such event asks for.
   */
  lemma {:induction false} FirstReactionDecides(events: seq<Event>)
    ensures FirstReaction(events) == Stay <==> forall i :: 0 <= i < |events| ==> Reaction(events[i]) == Stay
    ensures FirstReaction(events) != Stay ==>
              exists k :: 0 <= k < |events| && Reaction(events[k]) == FirstReaction(events)
                          && forall j :: 0 <= j < k ==> Reaction(events[j]) == Stay
    decreases |events|
  {
    if events != [] && Reaction(events[0]) == Stay {
      var rest := events[1..];
      FirstReactionDecides(rest);
      assert forall i :: 1 <= i < |events| ==> events[i] == rest[i - 1];
      if FirstReaction(rest) != Stay {
        var k :| 0 <= k < |rest| && Reaction(rest[k]) == FirstReaction(rest)
                 && forall j :: 0 <= j < k ==> Reaction(rest[j]) == Stay;
        assert Reaction(events[k + 1]) == FirstReaction(events);
        forall j | 0 <= j < k + 1 ensures Reaction(events[j]) == Stay {
          if j > 0 {
            assert events[j] == rest[j - 1];
          }
        }
      } else {
        forall i | 0 <= i < |events| ensures Reaction(events[i]) == Stay {
          if i > 0 {
            assert events[i] == rest[i - 1];
          }
        }
      }
    }
  }

  /** Escape pressed before a letter quits; the letter is never read. */
  lemma EscapeBeforeLetterQuits(letter: int, later: seq<Event>)
    ensures FirstReaction([KeyDown(KEscape), KeyDown(letter)] + later) == Quit
  {
  }

  /** Events that are neither key presses nor the close button are skipped. */
  lemma OtherEventsSkipped(events: seq<Event>)
    ensures FirstReaction([OtherEvent] + events) == FirstReaction(events)
  {
    assert ([OtherEvent] + events)[1..] == events;
  }

  class OpenCVController {
    /** Tick count when the current round's countdown started. */
    var startTime: int
    /** Elapsed milliseconds at the last countdown reading. */
    var currentTime: int

    /** Both times start at zero; the camera is not modelled. */
    constructor ()
      ensures startTime == 0 && currentTime == 0
    {
      startTime := 0;
      currentTime := 0;
    }

    /** Starts a round's countdown at the given tick count. */
    method StartTimer(ticks: int)
      modifies this`startTime
      ensures startTime == ticks
    {
      startTime := ticks;
    }

    /**
     * Records the time elapsed since the round started and returns the
     * countdown as decimal text.
     */
    method GetTimerString(ticks: int) returns (countingString: string)
      modifies this`currentTime
      ensures currentTime == ticks - startTime
      ensures countingString == IntToString(Countdown(currentTime))
      ensures ParseTruncated(countingString) == Some(Countdown(currentTime))
    {
      currentTime := ticks - startTime;
      countingString := IntToString(10 - currentTime / 500);
      CoordinateRoundTrip(Countdown(currentTime), []);
      assert IntToString(Countdown(currentTime)) + [] == countingString;
    }

    /** True once more than 5000 milliseconds were read at the last countdown reading. */
    function DetermineEndTimer(): (done: bool)
      reads this
      ensures done <==> currentTime > RoundMillis
      ensures done ==> Countdown(currentTime) <= 0
    {
      5000 - currentTime < 0
    }

    /**
     * Scans the events in order: escape or the close button answers Quit,
     * any other key Continue, and a list with neither answers Stay.
     */
    method NextScreen(events: seq<Event>) returns (screen: Screen)
      ensures screen == FirstReaction(events)
      ensures screen == Stay <==> forall i :: 0 <= i < |events| ==> Reaction(events[i]) == Stay
    {
      FirstReactionDecides(events);
      var i := 0;
      while i < |events|
        invariant 0 <= i <= |events|
        invariant FirstReaction(events) == FirstReaction(events[i..])
      {
        var event := events[i];
        assert events[i..][1..] == events[i + 1..];
        if (event.KeyDown? && event.key == KEscape) || event.QuitEvent? {
          return Quit;
        }
        if event.KeyDown? && event.key != KEscape {
          return Continue;
        }
        i := i + 1;
      }
      return Stay;
    }
  }
}
