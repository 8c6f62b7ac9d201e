# Portfolio page typewriter effect, in Dafny

This project models the typewriter effect of the portfolio page's `App`
component (`src/App.tsx`, the `useEffect` at lines 88-126). When the page
mounts, the effect types a fixed, ordered list of texts into the React
state `typedText`, one character per tick. Texts that are fully typed are
kept at the front of that buffer, separated by a blank line (`"\n\n"`).
Nothing on the page reads `typedText` or `isTyping`, so the buffer is written
but never rendered. Between two characters the
effect waits 50 ms. Between two texts it waits 800 ms. After the last text
it clears `isTyping` and schedules nothing more.

The model has two modules:

- `TypewriterSpec` (`typewriter_spec.dfy`) describes the run as values:
  - `Join` is JavaScript's `join("\n\n")`.
  - `Lead` is the part of the buffer before the text being typed.
  - `Frames` lists the buffer each tick of a run shows.
  - `Schedule` lists the delay each tick returns.
  - `TicksFrom` and `TotalTicks` count the ticks.
  - The lemmas state what the page promises about these values.
- `Typewriter` (`typewriter.dfy`) is the imperative sequencer.
  - Class `Sequencer` holds the closure's variables as fields.
  - `Tick` is one run of `typeText`. It returns the delay it would pass to
    `setTimeout`, or `None` when it stops.
  - `Drive` is the self-rescheduling timer chain.
  - `Run` sets up the state and drives it to the end.

  `Drive` and `Run` are proved against `Frames` and `Schedule`.

The fields of `Sequencer` stand for these variables of the source:

| field | source variable |
|---|---|
| `textIndex` | `currentTextIndex` |
| `charIndex` | `currentCharIndex` |
| `completed` | `completedTexts` |
| `display` | `typedText` |
| `typing` | `isTyping` |

`Sequencer.Valid()` states the invariant kept between ticks:

- `completed` is the first `textIndex` texts, in order.
- `typing` holds exactly while `textIndex` is below the number of texts.
- While typing, `charIndex` runs from 0 to one past the current text's length.
- `display` is the buffer the previous tick showed.

### What the first tick and the finishing tick show

- The test at `src/App.tsx:97` is `currentCharIndex <= currentText.length`.
  So the first tick of each text shows that text's empty prefix. The very
  first tick of a run shows `""`.
- The tick after a text is fully shown only files it. It leaves the buffer
  unchanged.
- The first tick of the next text shows the completed texts plus the
  separator and nothing of the new text.

Lemma `TypewriterSpec.TwoTexts` states the exact sequence for the texts "AB"
and "CD": `"", "A", "AB", "AB", "AB\n\n", "AB\n\nC", "AB\n\nCD", "AB\n\nCD"`.

## Model

| member | source | states |
|---|---|---|
| `Typewriter.Sequencer.constructor` | src/App.tsx:88-92 | The state on mount: text index 0, character index 0 and no completed texts (lines 89-91), an empty buffer (the initial `typedText` at line 22) and typing on (the initial `isTyping` at line 24); the list of texts must be non-empty because `textsToType[0]` is read on the first tick. |
| `Typewriter.Sequencer.Valid` | src/App.tsx:89-108 | The invariant between ticks over the effect's variables: the completed texts are the first `textIndex` texts in order (lines 106-107), typing holds exactly while a text is left (lines 110-114), the character index stays within 0..\|text\|+1 (lines 97, 102, 108), and the buffer is what the previous tick showed (lines 98-101). Its own contract (the completed list is a prefix of the text list with `textIndex` elements) follows directly from the definition; the invariant's weight is in `Tick`, `Drive` and `Run`, which keep it. |
| `TypewriterSpec.Join` | src/App.tsx:98 | `completedTexts.join('\n\n')`: the empty list gives `""`, the separator goes only between neighbouring texts; its contract: the first text is a prefix of the join. |
| `TypewriterSpec.Lead` | src/App.tsx:98-99 | The part of the buffer before the current text's prefix: the join of the completed texts, then `"\n\n"` when at least one is completed. Its own contract (the join of the completed texts is a prefix of it) follows directly from the definition; what the lead means is stated by `LeadThenText` (lead plus a whole text is the longer join) and `TypedIsPrefix` (lead plus any prefix of the text is a prefix of all texts joined). |
| `TypewriterSpec.Frames` | src/App.tsx:97-114 | The buffer shown by each tick of a run from text i on: for each text, its prefixes of length 0..\|t\| after the lead, then the unchanged buffer on the finishing tick. Its contract: the run from text i on has Σ(\|t\|+2) ticks, one per character index 0..\|t\| plus one finishing tick per text. |
| `TypewriterSpec.Schedule` | src/App.tsx:103-114 | The delay returned by each tick of a run from text i on: 50 ms per typing tick, then 800 ms on a finishing tick, or none after the last text. Its contract: one delay per tick, Σ(\|t\|+2) in all. |
| `Typewriter.Sequencer.Tick` | src/App.tsx:94-116 | Only entered while a text is left, so the text index stays in bounds. A typing tick (character index at most the text's length) sets the buffer to the completed texts joined by `"\n\n"`, a separator if any text is completed, and the first `charIndex` characters; it advances the character index by one and returns 50. A finishing tick leaves the buffer unchanged, appends exactly the current text to the completed list, moves to the next text with character index 0, and returns 800 if a text is left; otherwise it clears `typing` and returns `None`. Either way the invariant is kept, the old buffer is a prefix of the new one, and the buffer is a prefix of all texts joined. |
| `Typewriter.Drive` | src/App.tsx:103-120 | Following the timer chain from a state that is still typing ends with typing off, and the buffers and delays of its ticks are exactly those still pending in that state. |
| `Typewriter.Run` | src/App.tsx:88-126 | A whole run shows exactly `Frames(ts, 0)` and returns exactly `Schedule(ts, 0)`. That is Σ(\|t\|+2) ticks. The first buffer is `""` and the last is the full `"\n\n"`-joined text. Every buffer is a prefix of that text, and each is a prefix of the next. It ends with every text completed, in order, and typing off. |
| `TypewriterSpec.LeadThenText` | src/App.tsx:98-100 | The completed texts, the separator (when any is completed) and a whole text, in that order, are the join of the completed texts extended by that text. |
| `TypewriterSpec.JoinPrefix` | src/App.tsx:98-100 | Joining the first i texts gives a prefix of joining the first j texts, for i ≤ j. |
| `TypewriterSpec.TypedIsPrefix` | src/App.tsx:97-101 | Every buffer a typing tick can show, for any text and any character index up to its length, is a prefix of all texts joined. |
| `TypewriterSpec.FirstFrame` | src/App.tsx:97-102 | The first tick of text i shows the completed texts and the separator, and nothing of text i. For i = 0 that is `""`. |
| `TypewriterSpec.LastFrame` | src/App.tsx:104-114 | The last tick of a run shows the full `"\n\n"`-joined text. |
| `TypewriterSpec.FramesArePrefixes` | src/App.tsx:98-101 | Every buffer shown in a run is a prefix of the full joined text. |
| `TypewriterSpec.FramesGrow` | src/App.tsx:98-108 | Each buffer shown in a run is a prefix of the next one, so the display never shrinks. This holds across a finishing tick and into the first tick of the next text too. |
| `TypewriterSpec.ScheduleShape` | src/App.tsx:103-114 | A run returns one delay per tick. Only its last tick returns no delay. There are exactly \|texts\|−1 pauses of 800 ms, and every other tick returns 50 ms, one per typing tick. |
| `TypewriterSpec.StartPending` | src/App.tsx:89-91 | Before the first tick, the whole run's buffers and delays are still pending. |
| `TypewriterSpec.TypingStepFrames` | src/App.tsx:97-102 | At a character index up to the text's length, the next tick shows the completed texts, the separator and that many characters. The rest of the run is the same text one character further. |
| `TypewriterSpec.TypingStepDelays` | src/App.tsx:103 | At a character index up to the text's length, the next tick returns the 50 ms character delay. |
| `TypewriterSpec.FinishingStep` | src/App.tsx:104-114 | One past the text's length, the next tick shows the join of the texts up to and including the current one. It returns 800 ms if a text is left and no delay otherwise. The rest of the run starts at the next text's first character. |
| `TypewriterSpec.PendingStep` | src/App.tsx:94-116 | From any reachable index pair, one tick consumes exactly one pending buffer and one pending delay. Case by case it says which buffer and delay, and which index pair comes next. |
| `TypewriterSpec.PageTextsTicks` | src/App.tsx:46-50 | The three texts the page's effect types (`textsToType`) take 208 ticks in all. |
| `TypewriterSpec.TwoTexts` | src/App.tsx:94-116 | For the texts "AB" and "CD", it gives the exact buffer of each of the 8 ticks and the exact delays 50, 50, 50, 800, 50, 50, 50, none. |

## Left out

- Timer mechanics are not modelled: `setTimeout`, `clearTimeout`, the 1000 ms delay before the first tick, and the cleanup that cancels pending timers on unmount (src/App.tsx:103, 111, 118-125). Delays are returned values. `Drive` and `Run` call `Tick` again at once, instead of after the returned delay.
- React state semantics are not modelled. `setTypedText` and `setIsTyping` are plain field writes, with no batching or re-render.
- The outer React state `currentTextIndex` (src/App.tsx:23) is not modelled. The effect's local variable of the same name hides it, and nothing updates it.
- The scroll handler is not modelled (src/App.tsx:64-72). It does a floating-point division by `scrollHeight - innerHeight`, with no guard against a zero divisor, and it reads browser globals.
- `worldOffset`, `characterJump` and `isRunning` are not modelled (src/App.tsx:129-131). They are floating-point arithmetic and `Math.sin`, used only for styling.
- Mouse tracking and `handleSectionChange` are not modelled (src/App.tsx:54-62). They only store UI state.
- The contact form handler is not modelled (src/App.tsx:30-43). It uses `FormData`, `alert` and a form reset, which are browser I/O.
- `typedText` and `isTyping` are never read: they are declared at src/App.tsx:22 and 24 and set at lines 101 and 113, and the JSX at lines 135-313 uses neither. The model's `display` and `typing` are therefore outputs that no view uses.
- The JSX markup (src/App.tsx:135-313) and `src/PersonImageTest.tsx` are not modelled. They are rendering, image loading and console logging.
- Strings are sequences of Dafny characters. JavaScript counts `length` and `substring` in UTF-16 code units. The page's texts are ASCII, where the two agree.
