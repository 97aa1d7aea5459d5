/**
 What it means for a guess to be spellable from the root word: every letter of the guess
 is matched by its own occurrence in the root word, so a repeated letter needs as many
 occurrences in the root word as it has in the guess. The order of the letters plays no
 part.
 */
module Letters {

  /** The multiset of the guess's characters is contained in that of the root word's. */
  ghost predicate Spellable(word: string, root: string) {
    multiset(word) <= multiset(root)
  }

  /** How many times `c` occurs in `s`, counted one position at a time. */
  function Occurrences(s: string, c: char): nat {
    if s == [] then 0
    else (if s[0] == c then 1 else 0) + Occurrences(s[1..], c)
  }

  /** The counting definition agrees with the multiplicity in the multiset. */
  lemma {:induction false} OccurrencesIsMultiplicity(s: string, c: char)
    ensures Occurrences(s, c) == multiset(s)[c]
  {
    if s != [] {
      assert s == [s[0]] + s[1..];
      OccurrencesIsMultiplicity(s[1..], c);
    }
  }

  /** A guess is spellable exactly when no letter occurs in it more often than in the
      root word. */
  lemma SpellableIffCounts(word: string, root: string)
    ensures Spellable(word, root) <==>
      forall c :: Occurrences(word, c) <= Occurrences(root, c)
  {
    if Spellable(word, root) {
      forall c ensures Occurrences(word, c) <= Occurrences(root, c) {
        OccurrencesIsMultiplicity(word, c);
        OccurrencesIsMultiplicity(root, c);
      }
    } else {
      var c :| multiset(word)[c] > multiset(root)[c];
      OccurrencesIsMultiplicity(word, c);
      OccurrencesIsMultiplicity(root, c);
    }
  }

  /** A letter the root word has only once cannot be used twice. */
  lemma {:induction false} RepeatedLetterNeedsRepeats(word: string, root: string, i: nat, j: nat)
    requires i < j < |word| && word[i] == word[j]
    requires Occurrences(root, word[i]) < 2
    ensures !Spellable(word, root)
  {
    var c := word[i];
    assert word == word[..i] + [c] + word[i + 1..j] + [c] + word[j + 1..];
    assert multiset(word)[c] >= 2;
    OccurrencesIsMultiplicity(root, c);
  }

  /** The letters of a guess can be taken in any order: rearranging it does not change
      whether it is spellable. */
  lemma SpellableIgnoresOrder(word: string, anagram: string, root: string)
    requires multiset(word) == multiset(anagram)
    ensures Spellable(word, root) <==> Spellable(anagram, root)
  {
  }

  /** The empty guess and the root word itself are both spellable; nothing in the
      letter check rejects a guess equal to the root word. */
  lemma SpellableBounds(root: string)
    ensures Spellable([], root) && Spellable(root, root)
  {
  }

  /** The worked examples for the root word "alarm": "liar" needs an 'i' the root word
      lacks, and "llama" needs two 'l's where the root word has one. */
  lemma AlarmRejections()
    ensures !Spellable("liar", "alarm")
    ensures !Spellable("llama", "alarm")
  {
    OccurrencesIsMultiplicity("liar", 'i');
    OccurrencesIsMultiplicity("alarm", 'i');
    OccurrencesIsMultiplicity("llama", 'l');
    OccurrencesIsMultiplicity("alarm", 'l');
  }

  /** "mar" is spellable from "alarm": 'm', 'a' and 'r' each occur in it. */
  lemma AlarmAcceptsMar()
    ensures Spellable("mar", "alarm")
  {
    assert "alarm" == "al" + "arm";
    assert multiset("arm") == multiset("mar");
  }
}
