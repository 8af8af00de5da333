# WordScramble game rules in Dafny

WordScramble is a one-screen word game. The player sees a root word and types
words made from its letters. A submitted word scores a point when it passes
four checks, in this order:

1. it is original: not accepted before and not the root word itself;
2. it is possible: it uses each letter of the root word at most once;
3. it is real: the dictionary knows it;
4. it is long enough: at least three letters.

The first check that fails raises an alert with its own title and message.
An answer that is empty after normalisation is ignored without an alert.
"Restart" starts a new game: no accepted words, score zero, and a new root
word picked from a bundled word list.

This project models that core: the view's stored state and the functions
`addNewWord`, `startGame`, `isOriginal`, `isPossible`, `isMoreThanThreeLetters`
and `showingError` of `WordScramble/ContentView.swift`.

- `string_ops.dfy`, module `StringOps`: the Swift `String` operations the rules
  rely on, on `seq<char>`. These are `firstIndex(of:)`, `remove(at:)`,
  `lowercased()`, `trimmingCharacters(in: .whitespaces)` and
  `components(separatedBy: .newlines)`. Each comes with what it promises:
  position and multiset facts, the trimming and lower-casing guarantees,
  idempotence of normalisation, and the split/join round trips.
- `content_view.dfy`, module `WordScramble`: class `ContentView` with the
  view's state as fields: `usedWords`, `rootWord`, `newWord`, `score`,
  `errorTitle`, `errorMessage` and `showError`. The dictionary is the
  constant function field `isReal`, given to the constructor.
  - `IsPossible` keeps the source's loop: it strikes letters out of a local
    copy of the root word. It is proved equal to
    `multiset(word) <= multiset(rootWord)`.
  - `Verdict` states what `addNewWord` decides for an answer. Lemmas
    characterise it as "the first failing check in pipeline order".
  - `AddNewWord` normalises the text field and hands the answer to `Submit`,
    which runs the checks of lines 56-78. Both are proved to change the state
    exactly as `Verdict` says.
  - `GameInvariant`, the class invariant `Valid()`, is kept by every method:
    - `score == |usedWords|`;
    - no word is accepted twice;
    - the root word is never among the accepted words;
    - every accepted word is in normal form, non-empty, spellable from the
      root word, real and at least three letters long.

Three points where the code behaves in a way its names and messages do not
suggest:

- `startGame` uses the root word as read from the list, not normalised: a
  line may be empty or hold capital letters or trailing spaces.
- The length rule is `>= 3`, although the alert says "longer than three
  letters" and the function is called `isMoreThanThreeLetters`.
- The fallback root word "Word" of `startGame` is unreachable.
  `components(separatedBy:)` always yields at least one component, even for
  empty text, and `SplitLines` proves this (`|r| == NewlineCount(s) + 1`).
  `StartGame` still models the fallback as Swift writes it.

## Model

| member | source | states |
|---|---|---|
| StringOps.FirstIndex | WordScramble/ContentView.swift:103 | none exactly when the letter does not occur; otherwise a position holding the letter with no earlier occurrence |
| StringOps.RemoveAt | WordScramble/ContentView.swift:104 | one letter shorter, the other letters in their order, and the multiset of letters loses exactly the removed letter |
| StringOps.IsWhitespace | WordScramble/ContentView.swift:55 | the members of `.whitespaces`: the tab and the Unicode space separators (category Zs) |
| StringOps.ToLower | WordScramble/ContentView.swift:55 | the result is never an upper-case ASCII letter; A-Z map to a-z, every other character is kept |
| StringOps.Lowercase | WordScramble/ContentView.swift:55 | same length, each character lower-cased as `ToLower` does, so no upper-case ASCII letter is left and other characters are kept; a lower-case string is unchanged |
| StringOps.TrimStart | WordScramble/ContentView.swift:55 | the result is the suffix after a whitespace-only prefix and does not start with whitespace |
| StringOps.TrimEnd | WordScramble/ContentView.swift:55 | the result is the prefix before a whitespace-only suffix, does not end with whitespace, and starts with the input's first character when that is not whitespace |
| StringOps.Trim | WordScramble/ContentView.swift:55 | the result is a slice of the input with only whitespace cut off before and after it, has no whitespace at either end, is empty exactly when the input is all whitespace, and is the input itself when that is already trimmed |
| StringOps.Normalize | WordScramble/ContentView.swift:55 | the answer is a slice of the lower-cased input with only whitespace cut off before and after it, so it has no upper-case letter and no surrounding whitespace, and is empty exactly when the raw input is all whitespace |
| StringOps.TrimmedLettersStayLower | WordScramble/ContentView.swift:55 | trimming a lower-case string leaves it lower-case |
| StringOps.NormalizeIdempotent | WordScramble/ContentView.swift:55 | normalising an answer a second time changes nothing |
| StringOps.NormalizeFixesNormalForm | WordScramble/ContentView.swift:55 | a lower-case, trimmed string is its own normal form |
| StringOps.IsNewline | WordScramble/ContentView.swift:86 | the members of `.newlines`: U+000A through U+000D, U+0085, U+2028 and U+2029 |
| StringOps.SplitLines | WordScramble/ContentView.swift:86 | one component more than there are newline characters, so never an empty list, and no component contains a newline |
| StringOps.SplitLinesPrefix | WordScramble/ContentView.swift:86 | a newline-free prefix is glued onto the first component of the rest |
| StringOps.SplitLinesSingle | WordScramble/ContentView.swift:86 | a text without newline characters is a single component, itself |
| StringOps.SplitLinesCut | WordScramble/ContentView.swift:86 | the first newline character, "\n", "\r", U+2028 or any other of `.newlines`, ends the first component, and the components after it are those of the rest; with `SplitLinesSingle` this fixes every component of every text, so "ab\r\ncd" gives "ab", "" and "cd" |
| StringOps.SplitJoin | WordScramble/ContentView.swift:86 | splitting lines joined with "\n" gives back the lines |
| StringOps.JoinGlue | WordScramble/ContentView.swift:86 | putting a letter in front of the first line puts it in front of the joined text |
| StringOps.JoinSplit | WordScramble/ContentView.swift:86 | joining the components of a text whose only line break is "\n" gives back the text |
| WordScramble.Title | WordScramble/ContentView.swift:58-70 | the alert title of each check: "Word used already", "Not a valid word", "Not a real word", "Too short!" |
| WordScramble.Message | WordScramble/ContentView.swift:58-70 | the alert message of each check: "Be more original!", "Words must be in the current word list.", "Words must be the real world.", "Words must be longer than three letters." |
| WordScramble.Original | WordScramble/ContentView.swift:95-97 | originality over explicit values: the word is not among the accepted words and is not the root word |
| WordScramble.Verdict | WordScramble/ContentView.swift:56-72 | Ignored for the empty answer; otherwise Rejected for the first failing check in the order original, possible, real, length; otherwise Accepted |
| WordScramble.CannotSpellIffOverusedLetter | WordScramble/ContentView.swift:99-110 | a word cannot be spelt from the root exactly when some letter of it is used more often than the root holds it |
| WordScramble.ContentView.constructor | WordScramble/ContentView.swift:11-19 | the initial state: no words, empty root, empty input, score 0, no alert; the invariant holds |
| WordScramble.ContentView.IsOriginal | WordScramble/ContentView.swift:95-97 | true exactly when no accepted word equals the word and it differs from the root word |
| WordScramble.ContentView.IsPossible | WordScramble/ContentView.swift:99-110 | the letter-striking loop answers yes exactly when multiset(word) <= multiset(rootWord); it changes no state, the root word included |
| WordScramble.ContentView.IsMoreThanThreeLetters | WordScramble/ContentView.swift:120-122 | true exactly when the word has at least three letters (three is enough) |
| WordScramble.VerdictReportsFirstFailure | WordScramble/ContentView.swift:56-72 | an answer is rejected for a reason exactly when it is non-empty, fails that check and passes every check before it in the order original, possible, real, length |
| WordScramble.VerdictAccepts | WordScramble/ContentView.swift:56-79 | an answer is accepted exactly when it is non-empty and passes all four checks |
| WordScramble.VerdictIgnoresOnlyEmpty | WordScramble/ContentView.swift:55-56 | only the empty normalised answer is ignored |
| WordScramble.AcceptKeepsInvariant | WordScramble/ContentView.swift:74-78 | putting an accepted answer in front of the accepted words with one more point keeps the invariant (score equals the number of words, no duplicates, root not among them, all admissible) |
| WordScramble.ContentView.ShowingError | WordScramble/ContentView.swift:124-128 | sets the alert title and message to the given ones and shows the alert; touches no other field |
| WordScramble.ContentView.Submit | WordScramble/ContentView.swift:56-78 | for a normalised answer: empty: nothing changes; rejected: words, score, input and root kept, the title and message of the first failing check shown; accepted: the answer is put in front of the words, score + 1, input cleared, alert fields kept; the invariant is kept |
| WordScramble.ContentView.AddNewWord | WordScramble/ContentView.swift:54-79 | the same as `Submit`, for the lower-cased and trimmed text field contents: empty: nothing changes; rejected: the first failing check's alert; accepted: the normalised answer in front of the words, score + 1, input cleared; the invariant is kept |
| WordScramble.ContentView.StartGame | WordScramble/ContentView.swift:81-88 | no accepted words, score 0, the root word is one of the lines of the word list; the invariant holds |

## Left out

- The SwiftUI `body` and `#Preview`: the text field, the score and word list, the alert, the toolbar button. This is presentation; the
  alert is represented only by `errorTitle`, `errorMessage` and `showError`.
- Loading `start.txt` from the app bundle, and the `fatalError` when it cannot be
  read: file I/O. `StartGame` takes the file's contents as its parameter.
- `randomElement()`: modelled as an arbitrary choice among the lines, not a uniform distribution.
- `isReal`: the `UITextChecker` and `NSRange` calls (with language "eng") are a
  platform service. The model keeps only a fixed yes/no function `isReal`.
- Normalize: `lowercased()` is modelled for the ASCII letters A-Z only. Unicode
  case mappings, some of which change a string's length, are not modelled.
  `.whitespaces` is modelled as the tab plus the Unicode space separators.
- Swift's `Character` is an extended grapheme cluster; the model's `char` is one Unicode scalar. `word.count`,
  `for letter in word` and `firstIndex(of:)` therefore count and compare scalars, which differs
  from Swift for combined characters such as accented letters written with combining marks.
- Original, IsOriginal, GameInvariant: Swift compares whole `String`s by canonical equivalence, so
  `usedWords.contains(word)` and `word != rootWord` treat a precomposed "café" (U+00E9) and "cafe"
  followed by U+0301 as the same word. The model compares sequences of scalars, so it lets such a
  second spelling pass the originality check, and the no-duplicates clause of the invariant only
  rules out scalar-for-scalar repeats.
- `withAnimation`: presentation only. Its body is a plain state update.
- AddNewWord: requires the class invariant `Valid()`, which the constructor sets up and every method keeps.
  The source has no such precondition.
- Submit: requires its answer to be in normal form (lower-case, trimmed), which `AddNewWord` gives it.
  In the source the checks follow the normalisation inside one function.
