/**
 The game rules of the WordScramble screen: the state the view keeps, the
 checks a submitted word goes through, and what accepting a word or starting
 a new game does to that state.
 */
module WordScramble {
  import opened StringOps

  /** Why a submitted word was turned down, one per check, in the order the checks run. */
  datatype Rejection = AlreadyUsed | NotPossible | NotReal | TooShort

  /** What a submission leads to: nothing at all, an error alert, or a new accepted word. */
  datatype Outcome = Ignored | Rejected(reason: Rejection) | Accepted

  /** The position of each check in the submission pipeline. */
  function Rank(r: Rejection): nat {
    match r
    case AlreadyUsed => 0
    case NotPossible => 1
    case NotReal => 2
    case TooShort => 3
  }

  /** The alert title shown for each rejection. */
  function Title(r: Rejection): string {
    match r
    case AlreadyUsed => "Word used already"
    case NotPossible => "Not a valid word"
    case NotReal => "Not a real word"
    case TooShort => "Too short!"
  }

  /** The alert message shown for each rejection. */
  function Message(r: Rejection): string {
    match r
    case AlreadyUsed => "Be more original!"
    case NotPossible => "Words must be in the current word list."
    case NotReal => "Words must be the real world."
    case TooShort => "Words must be longer than three letters."
  }

  /* ---------------------------------------------------------------------- */
  /* The checks, over the game's values                                      */
  /* ---------------------------------------------------------------------- */

  /** `isOriginal` over explicit values: not among the accepted words, and not the root word. */
  predicate Original(word: string, used: seq<string>, root: string) {
    !(word in used) && word != root
  }

  /** Whether a normalised answer passes the check that `r` reports the failure of. */
  ghost predicate Passes(answer: string, used: seq<string>, root: string, isReal: string -> bool, r: Rejection) {
    match r
    case AlreadyUsed => Original(answer, used, root)
    case NotPossible => multiset(answer) <= multiset(root)
    case NotReal => isReal(answer)
    case TooShort => ContentView.IsMoreThanThreeLetters(answer)
  }

  /** The decision `addNewWord` takes for a normalised answer, check by check. */
  ghost function Verdict(answer: string, used: seq<string>, root: string, isReal: string -> bool): Outcome {
    if answer == [] then Ignored
    else if !Original(answer, used, root) then Rejected(AlreadyUsed)
    else if !(multiset(answer) <= multiset(root)) then Rejected(NotPossible)
    else if !isReal(answer) then Rejected(NotReal)
    else if !ContentView.IsMoreThanThreeLetters(answer) then Rejected(TooShort)
    else Accepted
  }

  /** The reported reason is the first check, in pipeline order, that the answer fails. */
  lemma VerdictReportsFirstFailure(answer: string, used: seq<string>, root: string, isReal: string -> bool, r: Rejection)
    ensures Verdict(answer, used, root, isReal) == Rejected(r)
        <==> && answer != []
             && !Passes(answer, used, root, isReal, r)
             && forall q :: Rank(q) < Rank(r) ==> Passes(answer, used, root, isReal, q)
  {
    if answer != [] && !Passes(answer, used, root, isReal, r)
       && forall q :: Rank(q) < Rank(r) ==> Passes(answer, used, root, isReal, q)
    {
      match r
      case AlreadyUsed =>
      case NotPossible =>
        assert Passes(answer, used, root, isReal, AlreadyUsed);
      case NotReal =>
        assert Passes(answer, used, root, isReal, AlreadyUsed);
        assert Passes(answer, used, root, isReal, NotPossible);
      case TooShort =>
        assert Passes(answer, used, root, isReal, AlreadyUsed);
        assert Passes(answer, used, root, isReal, NotPossible);
        assert Passes(answer, used, root, isReal, NotReal);
    }
  }

  /** An answer is accepted exactly when it is not empty and passes every check. */
  lemma VerdictAccepts(answer: string, used: seq<string>, root: string, isReal: string -> bool)
    ensures Verdict(answer, used, root, isReal) == Accepted
        <==> answer != [] && forall r :: Passes(answer, used, root, isReal, r)
  {
    if answer != [] && forall r :: Passes(answer, used, root, isReal, r) {
      assert Passes(answer, used, root, isReal, AlreadyUsed);
      assert Passes(answer, used, root, isReal, NotPossible);
      assert Passes(answer, used, root, isReal, NotReal);
      assert Passes(answer, used, root, isReal, TooShort);
    }
  }

  /** Only the empty answer is ignored; every other answer is either accepted or rejected with a reason. */
  lemma VerdictIgnoresOnlyEmpty(answer: string, used: seq<string>, root: string, isReal: string -> bool)
    ensures Verdict(answer, used, root, isReal) == Ignored <==> answer == []
  {
  }

  /**
   The letter rule in terms of single letters: a word cannot be spelt from the
   root word exactly when one of its letters occurs in it more often than in
   the root word.
   */
  lemma CannotSpellIffOverusedLetter(word: string, root: string)
    ensures !(multiset(word) <= multiset(root))
        <==> exists i :: 0 <= i < |word| && multiset(word)[word[i]] > multiset(root)[word[i]]
  {
    if !(multiset(word) <= multiset(root)) {
      var c :| multiset(word)[c] > multiset(root)[c];
      assert c in multiset(word);
      var i :| 0 <= i < |word| && word[i] == c;
    }
  }

  /* ---------------------------------------------------------------------- */
  /* The game's invariant                                                    */
  /* ---------------------------------------------------------------------- */

  /**
   `w` is an answer in normal form (see `NormalizeFixesNormalForm`)
   that passes the letter, dictionary and length checks of `Passes` against `root`.
   */
  ghost predicate Admissible(w: string, root: string, isReal: string -> bool) {
    && NoUpper(w) && Trimmed(w)
    && Passes(w, [], root, isReal, NotPossible)
    && Passes(w, [], root, isReal, NotReal)
    && Passes(w, [], root, isReal, TooShort)
  }

  /**
   The game's invariant: one point per accepted word, no word accepted twice,
   the root word never among them, and every accepted word one that would pass
   every check other than originality against the root word.
   */
  ghost predicate GameInvariant(used: seq<string>, root: string, score: int, isReal: string -> bool) {
    && score == |used|
    && (forall i, j :: 0 <= i < j < |used| ==> used[i] != used[j])
    && root !in used
    && forall w :: w in used ==> Admissible(w, root, isReal)
  }

  /** Putting an accepted answer in front of the accepted words, with one more point, keeps the invariant. */
  lemma AcceptKeepsInvariant(answer: string, used: seq<string>, root: string, score: int, isReal: string -> bool)
    requires GameInvariant(used, root, score, isReal)
    requires Verdict(answer, used, root, isReal) == Accepted && NoUpper(answer) && Trimmed(answer)
    ensures GameInvariant([answer] + used, root, score + 1, isReal)
  {
    var s := [answer] + used;
    forall i, j | 0 <= i < j < |s| ensures s[i] != s[j] {
      if i == 0 {
        assert s[j] == used[j - 1];
      } else {
        assert s[i] == used[i - 1] && s[j] == used[j - 1];
      }
    }
  }

  /* ---------------------------------------------------------------------- */
  /* The view                                                                */
  /* ---------------------------------------------------------------------- */

  /**
   The view's state. `isReal` stands for the dictionary (the platform's spell
   checker for English), which the game only asks yes-or-no questions.
   */
  class ContentView {
    var usedWords: seq<string>
    var rootWord: string
    var newWord: string
    var score: int
    var errorTitle: string
    var errorMessage: string
    var showError: bool
    const isReal: string -> bool

    /** The game's invariant holds of the current state. */
    ghost predicate Valid()
      reads this`usedWords, this`rootWord, this`score
    {
      GameInvariant(usedWords, rootWord, score, isReal)
    }

    /** The initial values of the view's state; `startGame` runs when the view appears. */
    constructor (isReal: string -> bool)
      ensures Valid()
      ensures usedWords == [] && rootWord == "" && newWord == "" && score == 0
      ensures errorTitle == "" && errorMessage == "" && !showError
      ensures this.isReal == isReal
    {
      usedWords := [];
      rootWord := "";
      newWord := "";
      score := 0;
      errorTitle := "";
      errorMessage := "";
      showError := false;
      this.isReal := isReal;
    }

    /** A word is original when it has not been accepted before and is not the root word itself. */
    function IsOriginal(word: string): (r: bool)
      reads this`usedWords, this`rootWord
      ensures r <==> (forall i :: 0 <= i < |usedWords| ==> usedWords[i] != word) && word != rootWord
    {
      Original(word, usedWords, rootWord)
    }

    /**
     Whether `word` can be spelt with the letters of the root word, each used at
     most once: the letters of `word` are struck out of a copy of the root word
     one by one, and the answer is no as soon as a letter is not left in the copy.
     */
    method IsPossible(word: string) returns (ok: bool)
      ensures ok <==> multiset(word) <= multiset(rootWord)
    {
      var tempword := rootWord;
      for i := 0 to |word|
        invariant multiset(tempword) + multiset(word[..i]) == multiset(rootWord)
      {
        var letter := word[i];
        assert word[..i + 1] == word[..i] + [letter];
        var pos := FirstIndex(tempword, letter);
        if pos.Some? {
          tempword := RemoveAt(tempword, pos.value);
        } else {
          assert word == word[..i + 1] + word[i + 1..];
          assert multiset(word)[letter] > multiset(rootWord)[letter];
          return false;
        }
      }
      assert word[..|word|] == word;
      return true;
    }

    /** The length rule: at least three letters (the message shown speaks of more than three). */
    static function IsMoreThanThreeLetters(word: string): (r: bool)
      ensures r <==> |word| >= 3
    {
      |word| >= 3
    }

    /** Sets the alert's title and message and asks for it to be shown. */
    method ShowingError(title: string, message: string)
      modifies this`errorTitle, this`errorMessage, this`showError
      ensures errorTitle == title && errorMessage == message && showError
    {
      errorTitle := title;
      errorMessage := message;
      showError := true;
    }

    /**
     Submits `newWord`: the answer is the text field's contents lower-cased and
     trimmed, and `Submit` runs the checks on it.
     */
    method AddNewWord()
      requires Valid()
      modifies this
      ensures Valid()
      ensures rootWord == old(rootWord)
      ensures Verdict(Normalize(old(newWord)), old(usedWords), old(rootWord), isReal) == Ignored ==> unchanged(this)
      ensures Verdict(Normalize(old(newWord)), old(usedWords), old(rootWord), isReal).Rejected? ==>
        && usedWords == old(usedWords) && score == old(score) && newWord == old(newWord)
        && errorTitle == Title(Verdict(Normalize(old(newWord)), old(usedWords), old(rootWord), isReal).reason)
        && errorMessage == Message(Verdict(Normalize(old(newWord)), old(usedWords), old(rootWord), isReal).reason)
        && showError
      ensures Verdict(Normalize(old(newWord)), old(usedWords), old(rootWord), isReal) == Accepted ==>
        && usedWords == [Normalize(old(newWord))] + old(usedWords)
        && score == old(score) + 1
        && newWord == ""
        && errorTitle == old(errorTitle) && errorMessage == old(errorMessage) && showError == old(showError)
    {
      var answer := Normalize(newWord);
      Submit(answer);
    }

    /**
     Runs the checks on a normalised answer. An empty answer changes nothing.
     Otherwise the first failing check raises its alert and leaves the game as
     it was; an answer that passes every check goes to the front of the
     accepted words, scores one point, and the text field is cleared.
     */
    method Submit(answer: string)
      requires Valid() && NoUpper(answer) && Trimmed(answer)
      modifies this
      ensures Valid()
      ensures rootWord == old(rootWord)
      ensures Verdict(answer, old(usedWords), old(rootWord), isReal) == Ignored ==> unchanged(this)
      ensures Verdict(answer, old(usedWords), old(rootWord), isReal).Rejected? ==>
        && usedWords == old(usedWords) && score == old(score) && newWord == old(newWord)
        && errorTitle == Title(Verdict(answer, old(usedWords), old(rootWord), isReal).reason)
        && errorMessage == Message(Verdict(answer, old(usedWords), old(rootWord), isReal).reason)
        && showError
      ensures Verdict(answer, old(usedWords), old(rootWord), isReal) == Accepted ==>
        && usedWords == [answer] + old(usedWords)
        && score == old(score) + 1
        && newWord == ""
        && errorTitle == old(errorTitle) && errorMessage == old(errorMessage) && showError == old(showError)
    {
      ghost var verdict := Verdict(answer, usedWords, rootWord, isReal);
      if answer == [] {
        return;
      }
      var original := IsOriginal(answer);
      if !original {
        assert verdict == Rejected(AlreadyUsed);
        ShowingError(Title(AlreadyUsed), Message(AlreadyUsed));
        return;
      }
      var possible := IsPossible(answer);
      if !possible {
        assert verdict == Rejected(NotPossible);
        ShowingError(Title(NotPossible), Message(NotPossible));
        return;
      }
      if !isReal(answer) {
        assert verdict == Rejected(NotReal);
        ShowingError(Title(NotReal), Message(NotReal));
        return;
      }
      if !IsMoreThanThreeLetters(answer) {
        assert verdict == Rejected(TooShort);
        ShowingError(Title(TooShort), Message(TooShort));
        return;
      }
      assert verdict == Accepted;
      AcceptKeepsInvariant(answer, usedWords, rootWord, score, isReal);
      usedWords := [answer] + usedWords;
      score := score + 1;
      newWord := "";
    }

    /**
     Starts a new game: no accepted words, no points, and a root word picked from
     the lines of `startWords` (the contents of the bundled word list), falling
     back to "Word" when there is no line to pick.
     */
    method StartGame(startWords: string)
      modifies this`usedWords, this`score, this`rootWord
      ensures Valid()
      ensures usedWords == [] && score == 0
      ensures rootWord in SplitLines(startWords)
    {
      usedWords := [];
      score := 0;
      var allWords := SplitLines(startWords);
      var picked: Option<string> := None;
      if |allWords| > 0 {
        assert allWords[0] in allWords;
        var w :| w in allWords;
        picked := Some(w);
      }
      rootWord := if picked.Some? then picked.value else "Word";
    }
  }
}
