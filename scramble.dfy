/**
 The game screen's state and its word-validation pipeline. The six `@State` fields of the
 view become the fields of `ContentView`; submitting the text field runs `AddNewWord`,
 which normalises the entry and puts it through three checks in a fixed order
 (originality, letters, dictionary). The platform spell checker is the parameter `isReal`.
 */
module Scramble {
  import opened Text
  import opened Letters

  /** Why a non-empty answer was turned down. */
  datatype Reason = AlreadyUsed | NotPossible | NotRecognized

  /** What submitting an answer leads to. */
  datatype Verdict = Ignored | Rejected(reason: Reason) | Accepted

  /** The decision `addNewWord` takes for the normalised `answer`: an empty answer is
      ignored; otherwise the first failing check, in the order originality, letters,
      dictionary, names the rejection; an answer that passes all three is accepted. A
      later check decides only when every earlier one has passed. */
  ghost function Judge(answer: string, used: seq<string>, root: string, isReal: string -> bool): (v: Verdict)
    ensures v == Ignored <==> |answer| == 0
    ensures v == Accepted <==>
      |answer| > 0 && answer !in used && Spellable(answer, root) && isReal(answer)
    ensures v == Rejected(AlreadyUsed) <==> |answer| > 0 && answer in used
    ensures v == Rejected(NotPossible) <==>
      |answer| > 0 && answer !in used && !Spellable(answer, root)
    ensures v == Rejected(NotRecognized) ==> answer !in used && Spellable(answer, root)
  {
    if |answer| == 0 then Ignored
    else if answer in used then Rejected(AlreadyUsed)
    else if !Spellable(answer, root) then Rejected(NotPossible)
    else if !isReal(answer) then Rejected(NotRecognized)
    else Accepted
  }

  /** The alert title for each rejection. */
  function Title(reason: Reason): string {
    match reason
    case AlreadyUsed => "Word already used"
    case NotPossible => "Word not possible"
    case NotRecognized => "Word not recognized"
  }

  /** The alert message for each rejection; the letters rejection names the root word. */
  function Message(reason: Reason, root: string): string {
    match reason
    case AlreadyUsed => "Please select another!"
    case NotPossible => "That word cannot be spelled from " + root + "!"
    case NotRecognized => "The word is either misspelled or made up !"
  }

  /** Each rejection has its own title, so the alert tells which check failed. */
  lemma TitlesTellReasonsApart(a: Reason, b: Reason)
    ensures Title(a) == Title(b) <==> a == b
  {
    if a != b {
      assert Title(a)[5] != Title(b)[5] || Title(a)[9] != Title(b)[9];
    }
  }

  /** The letters rejection names the root word: its message determines the root word. */
  lemma MessageNamesRoot(root1: string, root2: string)
    ensures Message(NotPossible, root1) == Message(NotPossible, root2) <==> root1 == root2
  {
    var prefix := "That word cannot be spelled from ";
    if Message(NotPossible, root1) == Message(NotPossible, root2) {
      var m := Message(NotPossible, root1);
      assert m == prefix + root1 + "!";
      assert root1 == m[|prefix|..|m| - 1];
      assert root2 == Message(NotPossible, root2)[|prefix|..|m| - 1];
    }
  }

  /** A history entry as the game stores it: a non-empty, normalised word. */
  ghost predicate WellFormedEntry(w: string) {
    |w| > 0 && NormalForm(w)
  }

  /** The half of the session invariant that does not depend on the root word: no word
      twice, every entry well formed. */
  ghost predicate WellFormedHistory(used: seq<string>) {
    (forall i, j :: 0 <= i < j < |used| ==> used[i] != used[j]) &&
    (forall i :: 0 <= i < |used| ==> WellFormedEntry(used[i]))
  }

  /** The half that does: every entry can be spelled from the root word. */
  ghost predicate SpelledFrom(used: seq<string>, root: string) {
    forall i :: 0 <= i < |used| ==> Spellable(used[i], root)
  }

  /** `contains(_:)` on the history: a scan from the front. */
  function Contains(used: seq<string>, word: string): (r: bool)
    ensures r <==> word in used
  {
    if used == [] then false
    else used[0] == word || Contains(used[1..], word)
  }

  /** `randomElement() ?? fallback`: some element of a non-empty list, the fallback for
      an empty one. Which element is picked is left open. */
  method RandomElementOr(words: seq<string>, fallback: string) returns (w: string)
    ensures words == [] ==> w == fallback
    ensures words != [] ==> w in words
  {
    if words == [] {
      w := fallback;
    } else {
      assert words[0] in words;
      w :| w in words;
    }
  }

  /** Accepting an answer keeps the session invariant: the accepted answer is new,
      non-empty and in normal form (as every normalised answer is), so putting it in
      front of the history keeps it well formed; and it is spellable, so a history
      spelled from the root word stays so. */
  lemma AcceptKeepsInvariant(answer: string, used: seq<string>, root: string, isReal: string -> bool)
    requires WellFormedHistory(used) && NormalForm(answer)
    requires Judge(answer, used, root, isReal) == Accepted
    ensures WellFormedHistory([answer] + used)
    ensures SpelledFrom(used, root) ==> SpelledFrom([answer] + used, root)
  {
    PrependKeepsWellFormed(answer, used);
    if SpelledFrom(used, root) {
      PrependKeepsSpelled(answer, used, root);
    }
  }

  /** Inserting at index 0 a well-formed word not yet in the history keeps it well formed. */
  lemma PrependKeepsWellFormed(answer: string, used: seq<string>)
    requires WellFormedHistory(used)
    requires WellFormedEntry(answer) && answer !in used
    ensures WellFormedHistory([answer] + used)
  {
    var next := [answer] + used;
    forall i, j | 0 <= i < j < |next| ensures next[i] != next[j] {
      assert next[j] == used[j - 1];
      if i > 0 {
        assert next[i] == used[i - 1];
      }
    }
    forall i | 0 <= i < |next| ensures WellFormedEntry(next[i]) {
      if i > 0 {
        assert next[i] == used[i - 1];
      }
    }
  }

  /** Inserting at index 0 a spellable word keeps every entry spellable. */
  lemma PrependKeepsSpelled(answer: string, used: seq<string>, root: string)
    requires SpelledFrom(used, root) && Spellable(answer, root)
    ensures SpelledFrom([answer] + used, root)
  {
    var next := [answer] + used;
    forall i | 0 <= i < |next| ensures Spellable(next[i], root) {
      if i > 0 {
        assert next[i] == used[i - 1];
      }
    }
  }

  /** Every entry of a valid history is its own normal form, so re-normalising the
      history would change nothing. */
  lemma HistoryIsNormalised(used: seq<string>)
    requires WellFormedHistory(used)
    ensures forall i :: 0 <= i < |used| ==> Normalise(used[i]) == used[i]
  {
    forall i | 0 <= i < |used| ensures Normalise(used[i]) == used[i] {
      NormalFormIsFixpoint(used[i]);
    }
  }

  /** Submitting the same text again right after it was accepted is turned down as
      already used. */
  lemma ResubmitIsAlreadyUsed(raw: string, used: seq<string>, root: string, isReal: string -> bool)
    requires Judge(Normalise(raw), used, root, isReal) == Accepted
    ensures Judge(Normalise(raw), [Normalise(raw)] + used, root, isReal) == Rejected(AlreadyUsed)
  {
  }

  /** Blank input, whatever the history and the root word, is ignored. */
  lemma BlankIsIgnored(raw: string, used: seq<string>, root: string, isReal: string -> bool)
    requires forall i :: 0 <= i < |raw| ==> IsSpace(raw[i])
    ensures Judge(Normalise(raw), used, root, isReal) == Ignored
  {
  }

  /** Nothing turns down the root word itself: once it passes the dictionary and is not
      yet in the history, it is accepted. */
  lemma RootWordIsAccepted(used: seq<string>, root: string, isReal: string -> bool)
    requires |root| > 0 && root !in used && isReal(root)
    ensures Judge(root, used, root, isReal) == Accepted
  {
  }

  /** The worked examples with root word "alarm": "liar" fails the letter check, "mar"
      with "mar" already in the history fails the originality check, and "mar" with an
      empty history passes both and is left to the dictionary. */
  lemma AlarmScenarios(isReal: string -> bool)
    ensures Judge("liar", [], "alarm", isReal) == Rejected(NotPossible)
    ensures Judge("mar", ["mar"], "alarm", isReal) == Rejected(AlreadyUsed)
    ensures Judge("mar", [], "alarm", isReal) == (if isReal("mar") then Accepted else Rejected(NotRecognized))
  {
    AlarmRejections();
    AlarmAcceptsMar();
  }

  /** Reading the word file never yields an empty list of lines: `components(separatedBy:)`
      returns at least one piece, so the fallback root word can only come from a word
      list that is empty before the file is involved. */
  lemma LoadedWordListNeverEmpty(contents: string)
    ensures Split(contents, '\n') != []
    ensures Join(Split(contents, '\n'), '\n') == contents
  {
    JoinSplit(contents, '\n');
  }

  class ContentView {
    var usedWords: seq<string>
    var rootword: string
    var newWord: string
    var errorTitle: string
    var errorMessage: string
    var showingError: bool

    /** The object invariant every method keeps, whatever the root word. */
    ghost predicate Valid()
      reads this
    {
      WellFormedHistory(usedWords)
    }

    /** Every entry of the history can be spelled from the current root word. */
    ghost predicate Spelled()
      reads this
    {
      SpelledFrom(usedWords, rootword)
    }

    /** The initial values of the view's state. */
    constructor ()
      ensures Valid() && Spelled()
      ensures usedWords == [] && rootword == "" && newWord == ""
      ensures errorTitle == "" && errorMessage == "" && !showingError
    {
      usedWords := [];
      rootword := "";
      newWord := "";
      errorTitle := "";
      errorMessage := "";
      showingError := false;
    }

    /** `startGame`, once the word file has been read into `contents`: the root word is one
        of its lines, picked at random, with "silkworm" as the fallback for an empty list. */
    method StartGame(contents: string)
      requires Valid()
      modifies this`rootword
      ensures Valid()
      ensures rootword in Split(contents, '\n')
      ensures old(usedWords) == [] ==> Spelled()
    {
      var allWords := Split(contents, '\n');
      rootword := RandomElementOr(allWords, "silkworm");
    }

    /** `isOriginal`: the word is not in the history yet. */
    function IsOriginal(word: string): (r: bool)
      reads this
      ensures !r <==> exists i :: 0 <= i < |usedWords| && usedWords[i] == word
    {
      !Contains(usedWords, word)
    }

    /** `isPossible`: works through the guess letter by letter on a copy of the root
        word, striking out the first remaining occurrence of each letter, and fails as soon
        as a letter has none left. The answer is multiset containment. */
    method IsPossible(word: string) returns (ok: bool)
      ensures ok <==> Spellable(word, rootword)
    {
      var tempWord := rootword;
      for i := 0 to |word|
        invariant multiset(word[..i]) <= multiset(rootword)
        invariant multiset(tempWord) == multiset(rootword) - multiset(word[..i])
      {
        var letter := word[i];
        match FirstIndex(tempWord, letter)
        case Some(pos) =>
          LetterConsumed(word, i, rootword, tempWord, pos);
          tempWord := RemoveAt(tempWord, pos);
        case None =>
          LetterExhausted(word, i, rootword, tempWord);
          return false;
      }
      assert word[..|word|] == word;
      return true;
    }

    /** `wordError`: sets the alert's title and message and shows it. */
    method WordError(title: string, message: string)
      modifies this`errorTitle, this`errorMessage, this`showingError
      ensures errorTitle == title && errorMessage == message && showingError
    {
      errorTitle := title;
      errorMessage := message;
      showingError := true;
    }

    /** `addNewWord`: normalises the text field; ignores an empty answer; otherwise raises
        the alert for the first failing check, or puts the answer at the front of the
        history and clears the text field. */
    method AddNewWord(isReal: string -> bool)
      requires Valid()
      modifies this
      ensures Valid()
      ensures old(Spelled()) ==> Spelled()
      ensures rootword == old(rootword)
      ensures var answer := Normalise(old(newWord));
        match Judge(answer, old(usedWords), rootword, isReal)
        case Ignored =>
          usedWords == old(usedWords) && newWord == old(newWord) &&
          errorTitle == old(errorTitle) && errorMessage == old(errorMessage) &&
          showingError == old(showingError)
        case Rejected(reason) =>
          usedWords == old(usedWords) && newWord == old(newWord) &&
          errorTitle == Title(reason) && errorMessage == Message(reason, rootword) &&
          showingError
        case Accepted =>
          usedWords == [answer] + old(usedWords) && newWord == "" &&
          errorTitle == old(errorTitle) && errorMessage == old(errorMessage) &&
          showingError == old(showingError)
    {
      var answer := Normalise(newWord);
      if |answer| == 0 {
        return;
      }
      if !IsOriginal(answer) {
        WordError(Title(AlreadyUsed), Message(AlreadyUsed, rootword));
        return;
      }
      var possible := IsPossible(answer);
      if !possible {
        WordError(Title(NotPossible), Message(NotPossible, rootword));
        return;
      }
      if !isReal(answer) {
        WordError(Title(NotRecognized), Message(NotRecognized, rootword));
        return;
      }
      AcceptKeepsInvariant(answer, usedWords, rootword, isReal);
      usedWords := [answer] + usedWords;
      newWord := "";
    }
  }

  /** Striking out an occurrence of `word[i]` from the copy keeps it equal to the root
      word minus the letters consumed so far, now including `word[i]`. */
  lemma LetterConsumed(word: string, i: nat, root: string, temp: string, pos: nat)
    requires i < |word| && pos < |temp| && temp[pos] == word[i]
    requires multiset(word[..i]) <= multiset(root)
    requires multiset(temp) == multiset(root) - multiset(word[..i])
    ensures multiset(word[..i + 1]) <= multiset(root)
    ensures multiset(RemoveAt(temp, pos)) == multiset(root) - multiset(word[..i + 1])
  {
    var c := word[i];
    assert word[..i + 1] == word[..i] + [c];
    assert c in multiset(temp);
    assert multiset(word[..i + 1]) == multiset(word[..i]) + multiset{c};
    assert multiset(RemoveAt(temp, pos)) == multiset(temp) - multiset{c};
  }

  /** When the copy of the root word has no `word[i]` left, the guess asks for that
      letter more often than the root word has it. */
  lemma LetterExhausted(word: string, i: nat, root: string, temp: string)
    requires i < |word|
    requires multiset(word[..i]) <= multiset(root)
    requires multiset(temp) == multiset(root) - multiset(word[..i])
    requires word[i] !in temp
    ensures !Spellable(word, root)
  {
    var c := word[i];
    assert word == word[..i] + [c] + word[i + 1..];
    assert multiset(temp)[c] == 0;
    assert multiset(word)[c] >= multiset(word[..i])[c] + 1;
  }
}
