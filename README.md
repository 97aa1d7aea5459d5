# Word Scramble: the guess-validation pipeline, in Dafny

This project models the game logic of the Word Scramble screen (`ContentView`). The player
gets a root word, such as "silkworm". They then type words made from its letters. Every
submission goes through the same steps:

1. The text field is lower-cased and trimmed.
2. Empty input is ignored without a message.
3. Three checks run in a fixed order, and the first failure raises an alert:
   - originality: the word is not in the history yet;
   - letters: the root word has enough of each letter;
   - dictionary: the platform spell checker accepts the word.
4. A word that passes all three goes to the front of the history, and the text field is
   cleared.

There are three files:

- `text.dfy` (module `Text`) holds the string operations the view uses. These are
  `lowercased()`, `trimmingCharacters(in:)`, `firstIndex(of:)`, `remove(at:)` and
  `components(separatedBy:)`. Each is stated with a contract, so later proofs never rely
  on how it is implemented.
- `letters.dfy` (module `Letters`) holds the meaning of "spellable from the root word":
  the guess's characters are contained in the root word's, counted as multisets.
- `scramble.dfy` (module `Scramble`) holds the class `ContentView`. Its fields are the
  view's six `@State` variables. The decision `Judge` is what `addNewWord` does in what
  order. The session invariant has two halves. `WellFormedHistory` says no word appears
  twice and every entry is a non-empty, normalised word; it does not depend on the root
  word, and every method keeps it. `SpelledFrom` says every entry can be spelled from the
  root word. `AddNewWord` keeps it, and `StartGame` establishes it only for an empty
  history: `startGame` replaces the root word without clearing the history.

`isPossible` is a method with the source's loop. It copies the root word and strikes out the
first remaining occurrence of each letter of the guess. It returns false as soon as a letter
has run out. The loop invariant says the copy always equals the root word minus the letters
consumed so far, taken as multisets. The method's postcondition says the result is true
exactly when the guess's multiset is contained in the root word's.

Three consequences of the code that are easy to miss:

- The empty guess passes `isPossible`. The loop never runs, so the result is true.
  `addNewWord` rejects empty input before it gets that far.
- A guess equal to the root word is accepted if it is new and the dictionary knows it.
  Nothing in the code rejects it (`RootWordIsAccepted`).
- The "silkworm" fallback cannot fire once the word file has been read.
  `components(separatedBy:)` always returns at least one piece, and an empty file gives
  `[""]`. So the fallback only covers a word list that is empty in itself
  (`RandomElementOr`), and an empty file yields the empty root word.

## Model

| member | source | states |
|---|---|---|
| `Scramble.ContentView.IsPossible` | wordScramble/ContentView.swift:97-109 | Works on a copy and leaves `rootword` unchanged. It returns true exactly when the multiset of the guess's letters is contained in that of the root word's. The loop invariant says the copy equals the root word minus the letters consumed so far, as a multiset. |
| `Scramble.LetterConsumed` | wordScramble/ContentView.swift:102-103 | Striking out an occurrence of the current letter keeps the copy equal to the root word minus the consumed letters, now including this one. |
| `Scramble.LetterExhausted` | wordScramble/ContentView.swift:104-105 | If the copy has no occurrence of the current letter left, the guess is not spellable, so the early `return false` is correct. |
| `Scramble.ContentView.IsOriginal` | wordScramble/ContentView.swift:92-94 | False exactly when some entry of `usedWords` equals the word. |
| `Scramble.Contains` | wordScramble/ContentView.swift:93 | The front-to-back scan of `contains` is true exactly when the word is an element of the history. |
| `Scramble.ContentView.AddNewWord` | wordScramble/ContentView.swift:47-73 | Normalises `newWord`. On blank input no field changes. On a rejection, `usedWords` and `newWord` are unchanged and the alert fields carry the title and message of the first failing check (originality, then letters, then dictionary). On acceptance, the answer is put in front of the old history and `newWord` becomes "". The root word never changes. The history stays well formed, and a history spelled from the root word stays so. |
| `Scramble.Judge` | wordScramble/ContentView.swift:50-65 | Ignored exactly for an empty answer. Rejected as already used exactly when the answer is in the history. Rejected as not possible exactly when the answer is new and cannot be spelled from the root word. Accepted exactly when the answer is new, spellable and known to the dictionary. The letters check decides only for a new answer, and the dictionary only for a new, spellable one. |
| `Scramble.TitlesTellReasonsApart` | wordScramble/ContentView.swift:53-63 | The three alert titles are pairwise different, so the title tells which check failed. |
| `Scramble.MessageNamesRoot` | wordScramble/ContentView.swift:58 | The "not possible" message names the root word: two such messages are equal exactly when their root words are. |
| `Scramble.ContentView.WordError` | wordScramble/ContentView.swift:119-123 | Sets the alert's title and message to the arguments and sets `showingError`; no other field changes. |
| `Scramble.ContentView.StartGame` | wordScramble/ContentView.swift:79-85 | The root word is one of the lines of the loaded file, and the history is untouched and stays well formed. For an empty history, every entry is trivially spelled from the new root word. |
| `Scramble.RandomElementOr` | wordScramble/ContentView.swift:84 | Gives "silkworm" (the fallback) for an empty word list, and otherwise some element of the list. |
| `Scramble.LoadedWordListNeverEmpty` | wordScramble/ContentView.swift:81-84 | Splitting the file's text on newlines never gives an empty list, and joining the lines gives the text back. |
| `Scramble.ContentView.constructor` | wordScramble/ContentView.swift:11-17 | Fields start at an empty history, empty strings and no alert; both halves of the invariant hold. |
| `Scramble.AcceptKeepsInvariant` | wordScramble/ContentView.swift:52-72 | Put an accepted answer in normal form in front of a well-formed history: the result is still well formed, with no duplicates and every entry non-empty and normalised. If every old entry was spellable from the root word, every new entry is too. |
| `Scramble.PrependKeepsWellFormed` | wordScramble/ContentView.swift:70 | Inserting at index 0 a well-formed word that is not yet in the history keeps the history free of duplicates and well formed. |
| `Scramble.PrependKeepsSpelled` | wordScramble/ContentView.swift:70 | Inserting at index 0 a spellable word keeps every entry spellable from the root word. |
| `Scramble.HistoryIsNormalised` | wordScramble/ContentView.swift:48-70 | Every entry of a well-formed history is its own normalisation. |
| `Scramble.ResubmitIsAlreadyUsed` | wordScramble/ContentView.swift:52-55 | The same text submitted again right after it was accepted is rejected as already used. |
| `Scramble.BlankIsIgnored` | wordScramble/ContentView.swift:48-50 | Input made only of whitespace is ignored, whatever the history and root word. |
| `Scramble.RootWordIsAccepted` | wordScramble/ContentView.swift:52-65 | The root word, when new and known to the dictionary, is accepted. |
| `Scramble.AlarmScenarios` | wordScramble/ContentView.swift:52-65 | With root "alarm": "liar" is rejected as not possible; "mar" with "mar" in the history is rejected as already used; "mar" with an empty history is accepted or rejected as not recognised, according to the dictionary alone. |
| `Letters.OccurrencesIsMultiplicity` | wordScramble/ContentView.swift:100-107 | Counting a letter position by position gives its multiplicity in the multiset of the word. |
| `Letters.SpellableIffCounts` | wordScramble/ContentView.swift:97-109 | A guess is spellable exactly when no letter occurs in it more often than in the root word. |
| `Letters.RepeatedLetterNeedsRepeats` | wordScramble/ContentView.swift:100-107 | A letter that appears twice in the guess but at most once in the root word makes the guess unspellable. |
| `Letters.SpellableIgnoresOrder` | wordScramble/ContentView.swift:100-107 | Rearranging the guess's letters does not change whether it is spellable. |
| `Letters.SpellableBounds` | wordScramble/ContentView.swift:98-108 | The empty guess and the root word itself are spellable. |
| `Letters.AlarmRejections` | wordScramble/ContentView.swift:97-109 | "liar" (no 'i') and "llama" (two 'l's) cannot be spelled from "alarm". |
| `Letters.AlarmAcceptsMar` | wordScramble/ContentView.swift:97-109 | "mar" can be spelled from "alarm". |
| `Text.Normalise` | wordScramble/ContentView.swift:48 | The result has no upper-case letter and no whitespace at either end. It is empty exactly when the input is all whitespace. |
| `Text.NormalFormIsFixpoint` | wordScramble/ContentView.swift:48 | A string with no upper-case letter and no whitespace at its ends is left unchanged by normalisation. |
| `Text.NormaliseIdempotent` | wordScramble/ContentView.swift:48 | Normalising twice gives the same result as normalising once. |
| `Text.Lower` | wordScramble/ContentView.swift:48 | `lowercased()`, restricted to the ASCII letters, keeps the length. No 'A' to 'Z' is left, each one becomes the lower-case letter at the same place in the alphabet, and every other character, whitespace included, is kept. |
| `Text.LeadingSpaces` | wordScramble/ContentView.swift:48 | Counts the whitespace prefix: every character before the count is whitespace, and the one at the count, if any, is not. |
| `Text.TrailingSpaces` | wordScramble/ContentView.swift:48 | Counts the whitespace suffix: every character after the cut is whitespace, and the one just before it, if any, is not. |
| `Text.Trim` | wordScramble/ContentView.swift:48-50 | `trimmingCharacters(in:)`, over the model's whitespace set, gives a slice of the text after its leading whitespace, with only whitespace after it. The result does not start or end with whitespace, and it is empty exactly when the text is all whitespace. |
| `Text.FirstIndex` | wordScramble/ContentView.swift:102 | `firstIndex(of:)` finds nothing exactly when the letter is absent. Otherwise it gives a position holding the letter, with no earlier occurrence. |
| `Text.RemoveAt` | wordScramble/ContentView.swift:103 | `remove(at:)` shortens the text by one and takes exactly one occurrence of the removed letter out of its multiset. |
| `Text.Split` | wordScramble/ContentView.swift:81 | `components(separatedBy:)` gives at least one piece, and no piece contains the separator. |
| `Text.JoinSplit` | wordScramble/ContentView.swift:81 | Joining the pieces with the separator gives back the original text. |

## Left out

- The SwiftUI `body` is left out because it is presentation only. That covers the list, the text field, the navigation title, the `.alert` presentation, `withAnimation`, `onSubmit`/`onAppear` and `ContentView_Previews`.
- `isReal` calls the platform spell checker (`UITextChecker`, `NSRange`). It is a parameter `isReal: string -> bool` of `AddNewWord`, and the model assumes nothing about it.
- Locating and reading `start.txt` in `startGame` (`Bundle.main.url`, `String(contentsOf:)`) and the `fatalError` when that fails are file I/O. `StartGame` takes the file's text as a parameter.
- Scramble.RandomElementOr: which element is picked is nondeterministic; the model does not capture the uniform distribution of `randomElement()`.
- Text.Lower: maps only the ASCII capitals 'A' to 'Z'. Every other character is kept, so a non-ASCII capital such as 'É', which `lowercased()` maps to 'é', stays unchanged here.
- Text.Trim: removes only the model's whitespace set: tab, line feed, vertical tab, form feed, carriage return, space, U+0085 and U+00A0. The other Unicode space separators that `.whitespacesAndNewlines` trims, such as U+2003 and U+3000, are kept here.
- Text.Normalise: lower-cases only 'A' to 'Z'. Its whitespace set is tab, line feed, vertical tab, form feed, carriage return, space, U+0085 and U+00A0. Full Unicode case mapping and the other Unicode space separators are not modelled.
- Swift `Character` is a grapheme cluster. The model treats a string as a sequence of Unicode scalar values.
- Swift compares `String` and `Character` values by canonical equivalence. That applies to `contains` in `isOriginal` and to `firstIndex(of:)` in `isPossible`. The model compares sequences of scalars exactly, so two spellings of the same accented letter count as different here.
