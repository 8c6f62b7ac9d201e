/** The typewriter effect of the portfolio page (the `typeText` closure
    and the variables it captures). One `Tick` is one run of `typeText`;
    instead of re-arming a timer it returns the delay it would have passed
    to `setTimeout`, or `None` when it stops for good. */
module Typewriter {
  import opened TypewriterSpec

  class Sequencer {
    /** The fixed list of texts to type, in order. */
    const texts: seq<string>
    /** Index of the text being typed (`currentTextIndex`). */
    var textIndex: nat
    /** Number of characters of that text the next typing tick shows
        (`currentCharIndex`). */
    var charIndex: nat
    /** Texts typed in full so far (`completedTexts`). */
    var completed: seq<string>
    /** The buffer written to the React state `typedText`, which nothing
        on the page reads. */
    var display: string
    /** False once the last text is finished (`isTyping`). */
    var typing: bool

    /** The state between two ticks: the completed texts are the first
        `textIndex` texts; typing goes on exactly while a text is left;
        the character index runs from 0 to one past the text's length; the
        buffer is what the previous tick showed. */
    ghost predicate Valid()
      reads this
      ensures Valid() ==> completed <= texts && |completed| == textIndex
    {
      |texts| >= 1 &&
      textIndex <= |texts| &&
      completed == texts[..textIndex] &&
      (typing <==> textIndex < |texts|) &&
      (typing ==> charIndex <= |texts[textIndex]| + 1) &&
      (!typing ==> charIndex == 0) &&
      (charIndex == 0 ==> display == Join(completed)) &&
      (typing && charIndex > 0 ==> display == Lead(completed) + texts[textIndex][..charIndex - 1])
    }

    /** The state set up when the effect mounts, before the first tick. */
    constructor (ts: seq<string>)
      requires |ts| >= 1
      ensures Valid()
      ensures texts == ts && textIndex == 0 && charIndex == 0
      ensures completed == [] && display == "" && typing
    {
      texts := ts;
      textIndex := 0;
      charIndex := 0;
      completed := [];
      display := "";
      typing := true;
    }

    /** One run of `typeText`. A typing tick shows the next prefix of the
        current text and asks for the character delay; the tick after the
        whole text was shown files it under the completed texts, moves to
        the next one and asks for the sentence pause, or stops typing when
        no text is left. */
    method Tick() returns (delay: Option<nat>)
      requires Valid() && typing
      modifies this
      ensures Valid()
      ensures old(charIndex) <= |texts[old(textIndex)]| ==>
        display == Lead(old(completed)) + texts[old(textIndex)][..old(charIndex)] &&
        charIndex == old(charIndex) + 1 &&
        textIndex == old(textIndex) && completed == old(completed) &&
        typing && delay == Some(CharDelayMs)
      ensures old(charIndex) > |texts[old(textIndex)]| ==>
        display == old(display) &&
        completed == old(completed) + [texts[old(textIndex)]] &&
        textIndex == old(textIndex) + 1 && charIndex == 0 &&
        (typing <==> textIndex < |texts|) &&
        delay == (if typing then Some(SentencePauseMs) else None)
      ensures old(display) <= display && display <= Join(texts)
      ensures delay.Some? <==> typing
    {
      var current := texts[textIndex];
      if charIndex <= |current| {
        display := Lead(completed) + current[..charIndex];
        charIndex := charIndex + 1;
        delay := Some(CharDelayMs);
        TypedIsPrefix(texts, textIndex, charIndex - 1);
        if charIndex == 1 {
          assert old(display) == Join(completed);
        } else {
          assert current[..charIndex - 2] <= current[..charIndex - 1];
        }
      } else {
        LeadThenText(completed, current);
        assert current[..charIndex - 1] == current;
        TypedIsPrefix(texts, textIndex, |current|);
        completed := completed + [current];
        textIndex := textIndex + 1;
        charIndex := 0;
        assert completed == texts[..textIndex];
        if textIndex < |texts| {
          delay := Some(SentencePauseMs);
        } else {
          typing := false;
          delay := None;
        }
      }
    }
  }

  /** The self-rescheduling timer chain, from a sequencer that is still
      typing: tick once, then tick again for as long as the tick returns a
      delay. Returns the buffer shown and the delay returned by each tick;
      they are exactly what was pending before the first of them. */
  method Drive(s: Sequencer) returns (frames: seq<string>, delays: seq<Option<nat>>)
    requires s.Valid() && s.typing
    modifies s
    ensures s.Valid() && !s.typing
    ensures frames == PendingFrames(s.texts, old(s.textIndex), old(s.charIndex))
    ensures delays == PendingDelays(s.texts, old(s.textIndex), old(s.charIndex))
  {
    ghost var ts, whole, wholeDelays := s.texts, PendingFrames(s.texts, s.textIndex, s.charIndex),
      PendingDelays(s.texts, s.textIndex, s.charIndex);
    frames, delays := [], [];
    // Only starts the loop: the first tick always runs.
    var d := Some(0);
    while d.Some?
      invariant s.Valid() && s.texts == ts
      invariant d.Some? <==> s.typing
      invariant frames + PendingFrames(ts, s.textIndex, s.charIndex) == whole
      invariant delays + PendingDelays(ts, s.textIndex, s.charIndex) == wholeDelays
      decreases |whole| - |frames|
    {
      ghost var before, beforeDelays := frames, delays;
      ghost var shown, delay, i, c := PendingStep(ts, s.textIndex, s.charIndex);
      ghost var rest, restDelays := PendingFrames(ts, i, c), PendingDelays(ts, i, c);
      ShiftOne(before, shown, rest);
      ShiftOne(beforeDelays, delay, restDelays);
      d := s.Tick();
      frames, delays := frames + [s.display], delays + [d];
      assert s.display == shown && d == delay;
      assert s.textIndex == i && s.charIndex == c;
    }
  }

  /** A whole run of the typewriter over the texts `ts`: set the state up
      as the effect does on mount, then let the timer chain run out.
      Returns the buffer shown and the delay returned by each tick, and the
      final list of completed texts and typing flag. */
  method Run(ts: seq<string>) returns (frames: seq<string>, delays: seq<Option<nat>>,
                                       completed: seq<string>, typing: bool)
    requires |ts| >= 1
    ensures frames == Frames(ts, 0) && delays == Schedule(ts, 0)
    ensures |frames| == |delays| == TotalTicks(ts)
    ensures frames[0] == "" && frames[|frames| - 1] == Join(ts)
    ensures forall j :: 0 <= j < |frames| ==> frames[j] <= Join(ts)
    ensures forall j :: 0 < j < |frames| ==> frames[j - 1] <= frames[j]
    ensures completed == ts && !typing
  {
    var s := new Sequencer(ts);
    frames, delays := Drive(s);
    StartPending(ts);
    ScheduleShape(ts, 0);
    FirstFrame(ts, 0);
    LastFrame(ts, 0);
    FramesArePrefixes(ts, 0);
    FramesGrow(ts, 0);
    completed, typing := s.completed, s.typing;
  }

  /** Moving the element a tick consumes from the pending part to the
      part already seen leaves the whole unchanged. */
  lemma ShiftOne<T>(seen: seq<T>, x: T, rest: seq<T>)
    ensures (seen + [x]) + rest == seen + ([x] + rest)
  {
  }
}
