# WordScramble — a Dafny model of the game screen's logic

WordScramble is a small SwiftUI word game. In this version of `ContentView.swift`, `ContentView`
holds three pieces of state: the list of accepted answers (`usedWords`), the
root word shown as the screen title (`rootWord`), and the text field's
contents (`newWord`). Submitting the text field runs `addNewWord`. That step
lower-cases and trims the entry. It ignores the entry if nothing is left.
Otherwise it inserts the entry at the front of `usedWords` and clears the
field. A free function `getStartingWord` splits an embedded word list on
newlines and force-unwraps a random element.

The model has three modules:

- `StringOps` (`string_ops.dfy`) covers the string operations the screen
  relies on. `lowercased()` is modelled for ASCII. Trimming uses the
  `whitespacesAndNewlines` character set, and `components(separatedBy:)`
  splits on a one-character separator. Trimming is also characterised
  independently, as a "trim window", and `Components` is paired with its
  inverse `Joined`.
- `WordScramble` (`word_scramble.dfy`) holds the `ContentView` state record
  and `AddNewWord`. It also has the normalised `Answer`, `RandomElement` and
  `GetStartingWord`. A run of the screen is a sequence of `Type` and `Submit`
  actions, and invariants are stated over such runs.
- `Wrappers` (`wrappers.dfy`) models Swift's `Optional`. Its `Extract` stands
  for the force-unwrap `!`. Its precondition means every unwrap must be
  proved safe.

The random generator is a parameter: `choice: nat` stands for whatever
`randomElement()` drew, and the element at index `choice % n` is returned.

`addNewWord` makes no other check: line 64 is only a TODO, so repeated
answers are stored again. Nothing calls `getStartingWord`, and nothing
assigns `rootWord`, so the title stays at its initial `""`. The model starts
from `InitialView`, which holds the initial values of lines 31-33: no
answers, `rootWord` `""` and `newWord` `""`.

## Model

| member | source | states |
|---|---|---|
| StringOps.LowercaseChar | WordScramble/ContentView.swift:59 | one character lower-cased: never an upper-case ASCII letter afterwards, other characters untouched, whitespace status kept |
| StringOps.Lowercased | WordScramble/ContentView.swift:59 | `lowercased()` keeps the length, maps each character on its own, leaves no upper-case ASCII letter and keeps "all whitespace" unchanged |
| StringOps.LowercasedFixedPoint | WordScramble/ContentView.swift:59 | lower-casing leaves a string unchanged exactly when it has no upper-case letter |
| StringOps.TrimLeading | WordScramble/ContentView.swift:59 | the leading trim returns a suffix of the input, everything cut off is whitespace, and the result does not start with whitespace |
| StringOps.TrimTrailing | WordScramble/ContentView.swift:59 | the trailing trim returns a prefix of the input, everything cut off is whitespace, and the result does not end with whitespace |
| StringOps.Trimmed | WordScramble/ContentView.swift:59 | trimming never lengthens, leaves no whitespace or newline at either end, and yields "" exactly when the input is all whitespace |
| StringOps.TrimmedIsWindow | WordScramble/ContentView.swift:59 | the trimmed string is a contiguous slice of the input with only whitespace cut off on either side |
| StringOps.TrimWindowUnique | WordScramble/ContentView.swift:59 | every such trim window holds exactly the trimmed string, which characterises trimming independently of its computation |
| StringOps.TrimmedFixedPoint | WordScramble/ContentView.swift:59 | trimming leaves a string unchanged exactly when neither end is whitespace |
| StringOps.TrimmedIdempotent | WordScramble/ContentView.swift:59 | trimming a trimmed string returns it unchanged |
| StringOps.TrimmedKeepsNoAsciiUpper | WordScramble/ContentView.swift:59 | trimming a lower-cased string keeps it free of upper-case letters |
| StringOps.Components | WordScramble/ContentView.swift:16 | splitting on a separator always gives at least one piece, one more than the separator's occurrences, and no piece contains the separator |
| StringOps.JoinedComponents | WordScramble/ContentView.swift:16 | re-joining the pieces with the separator gives back the original text |
| StringOps.ComponentsJoined | WordScramble/ContentView.swift:16 | splitting a join of separator-free pieces gives back exactly those pieces |
| WordScramble.RandomElement | WordScramble/ContentView.swift:18 | `randomElement()` is nil exactly on an empty sequence, otherwise returns a member; every index is picked by some outcome of the generator |
| WordScramble.StartingWordListComponents | WordScramble/ContentView.swift:11-16 | the embedded literal splits on newlines into exactly "a", "b", "c" |
| WordScramble.GetStartingWord | WordScramble/ContentView.swift:10-20 | the force-unwrap cannot trap, and the result is one of the split pieces, so it is "a", "b" or "c" |
| WordScramble.ComponentsUnwrapNeverTraps | WordScramble/ContentView.swift:16-19 | for any text and separator, a random element of the split exists, so force-unwrapping it is safe |
| WordScramble.StartingWordsAllReachable | WordScramble/ContentView.swift:10-20 | each of "a", "b", "c" is returned for some outcome of the generator |
| WordScramble.Answer | WordScramble/ContentView.swift:59-62 | the normalised answer is a trim window of the lower-cased text, has no upper-case letter and no edge whitespace, and is empty exactly when the typed text is empty or only whitespace |
| WordScramble.AnswerFixedPoint | WordScramble/ContentView.swift:59 | normalising leaves a text unchanged exactly when it has no upper-case letter and no edge whitespace |
| WordScramble.AnswerIdempotent | WordScramble/ContentView.swift:59 | normalising a normalised answer returns it unchanged |
| WordScramble.AddNewWord | WordScramble/ContentView.swift:57-71 | a blank entry leaves the whole state unchanged; any other entry grows `usedWords` by one, puts the normalised answer at index 0, keeps the old list as the tail in order and clears `newWord`; `rootWord` is never changed |
| WordScramble.Step | WordScramble/ContentView.swift:39-40 | typing (the `TextField` binding) replaces only `newWord` and keeps the answers; submitting (`onSubmit`) is `addNewWord`; neither touches `rootWord` |
| WordScramble.Run | WordScramble/ContentView.swift:31-71 | a run of typing and submitting never changes `rootWord`; the answers never shrink, and they grow by at most one per submit, since typing adds none |
| WordScramble.StepPreservesReachable | WordScramble/ContentView.swift:31-71 | typing or submitting keeps the root word "" and every stored answer non-empty and normalised |
| WordScramble.RunPreservesReachable | WordScramble/ContentView.swift:31-71 | any sequence of typing and submitting preserves that invariant |
| WordScramble.InitialRunsReachable | WordScramble/ContentView.swift:31-71 | from the initial view, in every run the root word stays "" and every stored answer is non-empty and normalised |
| WordScramble.RunOnlyPrepends | WordScramble/ContentView.swift:67 | answers are only inserted at the front, so the earlier list survives as the tail of every later one, in order |
| WordScramble.SubmitTwiceStoresTwice | WordScramble/ContentView.swift:64-67 | there is no duplicate check: the same non-blank entry submitted twice sits at indices 0 and 1 above the old list |
| WordScramble.ResubmitStoredAnswer | WordScramble/ContentView.swift:59-67 | re-entering a stored answer prepends that very string again |

## Left out

- The SwiftUI `body` (lines 35-55) is presentation only. This covers the navigation view, the list, the row icons, the title binding, `.textInputAutocapitalization(.never)` and `withAnimation`. `ContentView_Previews` (lines 75-79) is left out too. The text field's binding and its `onSubmit` appear only as the `Type` and `Submit` actions.
- `isSpelledCorrectly` (lines 22-28) wraps the platform spell checker `UITextChecker`, whose behaviour is not visible. It is not called anywhere.
- The randomness of `randomElement()` is not modelled. The generator's outcome is the parameter `choice`.
- StringOps.Lowercased: only ASCII `A`-`Z` are lower-cased. Swift's full Unicode case mapping is not modelled, including mappings that change the length.
- The whitespace set `StringOps.IsWhitespaceOrNewline` is the union of Foundation's documented `whitespaces` set and its `newlines` set. `whitespaces` is general category Zs plus the tab U+0009. `newlines` is U+000A-U+000D, U+0085, U+2028 and U+2029. Foundation's own character tables are not part of this model.
- WordScramble.AddNewWord: Swift's `answer.count > 0` counts grapheme clusters. The model counts Unicode scalar values. Both are zero for the same strings, so the guard is the same, but grapheme segmentation is not modelled.
- StringOps.Components: only a one-character separator is modelled, which is all the source uses. The handling of a "\r\n" pair is not modelled.
- `addNewWord` performs no validation beyond the blank-entry guard: line 64 is only a TODO. The model adds none, so there is no duplicate check, no check against the root word, no dictionary lookup and no length check. Scoring is absent as well.
