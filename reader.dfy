/**
 * The playback state of components/rsvp-reader.tsx: the words of the text, the
 * index of the word on screen, whether the reader is holding the pointer down,
 * and the speed. One firing of the `setInterval` timer is an explicit `Tick`.
 */
module Reader {
  import opened Text
  import Constants

  /** The wpm slider of the settings dialog, and the initial `useState` value. */
  const SLIDER_MIN: int := 100
  const SLIDER_MAX: int := 1000
  const SLIDER_STEP: int := 50
  const INITIAL_WPM: int := 300

  lemma SliderMatchesSettings()
    ensures SLIDER_MIN == Constants.MIN_WPM && SLIDER_MAX == Constants.MAX_WPM
    ensures SLIDER_STEP == Constants.WPM_STEP && INITIAL_WPM == Constants.DEFAULT_WPM
    ensures Constants.OnGrid(INITIAL_WPM, SLIDER_MIN, SLIDER_MAX, SLIDER_STEP)
  {
  }

  datatype ReaderState = ReaderState(words: seq<string>, index: nat, reading: bool, wpm: int)

  /** The index is on a word, or there are no words and it is 0. */
  predicate InRange(s: ReaderState)
  {
    s.index < |s.words| || (s.words == [] && s.index == 0)
  }

  /** The effect arms the interval only while reading with the index on a word. */
  predicate Armed(s: ReaderState)
  {
    s.reading && s.index < |s.words|
  }

  /**
   * One firing of the interval: past the last word reading stops and the index
   * wraps to 0, otherwise the index moves to the next word. Without an armed
   * interval nothing fires and nothing changes.
   */
  function Step(s: ReaderState): (t: ReaderState)
    ensures t.words == s.words && t.wpm == s.wpm
    ensures t.reading ==> s.reading
    ensures InRange(s) ==> InRange(t)
  {
    if !Armed(s) then s
    else if s.index >= |s.words| - 1 then s.(reading := false, index := 0)
    else s.(index := s.index + 1)
  }

  /** `n` firings of the interval. */
  function Steps(s: ReaderState, n: nat): ReaderState
    decreases n
  {
    if n == 0 then s else Steps(Step(s), n - 1)
  }

  /** `words[currentIndex] || ""`: the word on screen. */
  function CurrentWord(s: ReaderState): (w: string)
    ensures s.index < |s.words| ==> w == s.words[s.index]
    ensures s.index >= |s.words| ==> w == ""
  {
    if s.index < |s.words| && s.words[s.index] != "" then s.words[s.index] else ""
  }

  /** Before the last word, a tick moves on by exactly one and keeps reading. */
  lemma TickAdvances(s: ReaderState)
    requires s.reading && s.index < |s.words| - 1
    ensures Step(s) == s.(index := s.index + 1)
  {
  }

  /** At the last word, a tick stops reading and wraps the index to 0. */
  lemma TickWrapsAtEnd(s: ReaderState)
    requires s.reading && s.words != [] && s.index == |s.words| - 1
    ensures Step(s) == s.(index := 0, reading := false)
  {
  }

  /** With no interval armed the state is frozen, however many ticks are asked for. */
  lemma {:induction false} DisarmedFrozen(s: ReaderState, n: nat)
    requires !Armed(s)
    ensures Steps(s, n) == s
    decreases n
  {
    if n > 0 {
      DisarmedFrozen(s, n - 1);
    }
  }

  /** Ticks keep the index on a word (or at 0 with no words). */
  lemma {:induction false} StepsKeepInRange(s: ReaderState, n: nat)
    requires InRange(s)
    ensures InRange(Steps(s, n)) && Steps(s, n).words == s.words && Steps(s, n).wpm == s.wpm
    decreases n
  {
    if n > 0 {
      StepsKeepInRange(Step(s), n - 1);
    }
  }

  /** Holding from index `i`, `|words| - 1 - i` ticks reach the last word, still reading. */
  lemma {:induction false} HoldReachesLastWord(s: ReaderState)
    requires Armed(s)
    ensures Steps(s, |s.words| - 1 - s.index) == s.(index := |s.words| - 1)
    decreases |s.words| - s.index
  {
    if s.index < |s.words| - 1 {
      HoldReachesLastWord(Step(s));
    }
  }

  /** Holding from index `i`, `|words| - i` ticks stop reading with the index back at 0. */
  lemma {:induction false} HoldStopsAtStart(s: ReaderState)
    requires Armed(s)
    ensures Steps(s, |s.words| - s.index) == s.(index := 0, reading := false)
    decreases |s.words| - s.index
  {
    if s.index < |s.words| - 1 {
      HoldStopsAtStart(Step(s));
    } else {
      assert Steps(Step(s), 0) == Step(s);
    }
  }

  /** A loaded reader never shows an empty word; with no words it shows "". */
  lemma WordOnScreen(s: ReaderState)
    requires InRange(s) && WordList(s.words)
    ensures CurrentWord(s) == "" <==> s.words == []
  {
  }

  /** `RSVPReader`'s state: `wpm`, `words`, `currentIndex` and `isReading`. */
  class RsvpReader {
    var words: seq<string>
    var currentIndex: nat
    var isReading: bool
    var wpm: int

    function State(): ReaderState
      reads this
    {
      ReaderState(words, currentIndex, isReading, wpm)
    }

    /** The words come from the segmentation and the index is in range. */
    ghost predicate Valid()
      reads this
    {
      InRange(State()) && WordList(words)
    }

    /** The initial state after the mount effect has segmented `text` (the built-in sample). */
    constructor (text: string)
      ensures Valid()
      ensures words == Words(text) && currentIndex == 0 && !isReading && wpm == INITIAL_WPM
    {
      words := Words(text);
      currentIndex := 0;
      isReading := false;
      wpm := INITIAL_WPM;
    }

    /** One firing of the interval (a no-op when none is armed). */
    method Tick()
      requires Valid()
      modifies this
      ensures Valid()
      ensures State() == Step(old(State()))
    {
      if isReading && currentIndex < |words| {
        if currentIndex >= |words| - 1 {
          isReading := false;
          currentIndex := 0;
        } else {
          currentIndex := currentIndex + 1;
        }
      }
    }

    method PointerDown()
      requires Valid()
      modifies this`isReading
      ensures Valid()
      ensures State() == old(State()).(reading := true)
    {
      isReading := true;
    }

    method PointerUp()
      requires Valid()
      modifies this`isReading
      ensures Valid()
      ensures State() == old(State()).(reading := false)
    {
      isReading := false;
    }

    method PointerLeave()
      requires Valid()
      modifies this`isReading
      ensures Valid()
      ensures State() == old(State()).(reading := false)
    {
      isReading := false;
    }

    /** The slider's `onValueChange`. */
    method SetWpm(value: int)
      requires Valid()
      modifies this`wpm
      ensures Valid()
      ensures State() == old(State()).(wpm := value)
    {
      wpm := value;
    }

    /**
     * The pointer held down while the interval keeps firing: from index `i`
     * reading stops after `|words| - i` ticks, with the index back at 0.
     */
    method HoldUntilStop() returns (ticks: nat)
      requires Valid() && Armed(State())
      modifies this
      ensures Valid()
      ensures ticks == |old(words)| - old(currentIndex)
      ensures State() == old(State()).(index := 0, reading := false)
      ensures State() == Steps(old(State()), ticks)
    {
      ghost var start := State();
      ticks := 0;
      while isReading && currentIndex < |words|
        invariant Valid()
        invariant words == start.words && wpm == start.wpm
        invariant State() == Steps(start, ticks)
        invariant isReading ==> currentIndex == start.index + ticks
        invariant !isReading ==> currentIndex == 0 && ticks == |words| - start.index
        decreases |words| - start.index - ticks
      {
        StepsThenStep(start, ticks);
        Tick();
        ticks := ticks + 1;
      }
      assert isReading ==> currentIndex < |words|;
    }
  }

  lemma {:induction false} StepsThenStep(s: ReaderState, n: nat)
    ensures Steps(s, n + 1) == Step(Steps(s, n))
    decreases n
  {
    if n > 0 {
      StepsThenStep(Step(s), n - 1);
    }
  }
}
