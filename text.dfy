/**
 The string operations of Swift's standard library and Foundation that the game's
 validation code relies on: `lowercased()`, `trimmingCharacters(in: .whitespacesAndNewlines)`,
 `firstIndex(of:)`, `remove(at:)` and `components(separatedBy:)`. Strings are sequences of
 characters; case mapping is restricted to the ASCII letters.
 */
module Text {

  datatype Option<T> = None | Some(value: T)

  /** The characters `.whitespacesAndNewlines` removes that this model knows about:
      tab, line feed, vertical tab, form feed, carriage return, space, NEL and no-break space. */
  predicate IsSpace(c: char) {
    ('\t' <= c <= '\r') || c == ' ' || c == '\U{85}' || c == '\U{A0}'
  }

  predicate IsUpper(c: char) {
    'A' <= c <= 'Z'
  }

  function LowerChar(c: char): char {
    if IsUpper(c) then (c as int + 32) as char else c
  }

  /** `lowercased()`, character by character: every upper-case letter becomes the
      lower-case letter at the same place in the alphabet, and every other character,
      whitespace included, is kept. */
  function Lower(s: string): (r: string)
    ensures |r| == |s|
    ensures forall i :: 0 <= i < |s| ==> !IsUpper(r[i])
    ensures forall i :: 0 <= i < |s| && !IsUpper(s[i]) ==> r[i] == s[i]
    ensures forall i :: 0 <= i < |s| && IsUpper(s[i]) ==>
      'a' <= r[i] <= 'z' && r[i] as int - 'a' as int == s[i] as int - 'A' as int
    ensures forall i :: 0 <= i < |s| ==> (IsSpace(r[i]) <==> IsSpace(s[i]))
  {
    seq(|s|, i requires 0 <= i < |s| => LowerChar(s[i]))
  }

  /** How many whitespace characters `s` starts with. */
  function LeadingSpaces(s: string): (n: nat)
    ensures n <= |s|
    ensures forall i :: 0 <= i < n ==> IsSpace(s[i])
    ensures n < |s| ==> !IsSpace(s[n])
  {
    if s != [] && IsSpace(s[0]) then 1 + LeadingSpaces(s[1..]) else 0
  }

  /** How many whitespace characters `s` ends with. */
  function TrailingSpaces(s: string): (n: nat)
    ensures n <= |s|
    ensures forall i :: |s| - n <= i < |s| ==> IsSpace(s[i])
    ensures n < |s| ==> !IsSpace(s[|s| - 1 - n])
  {
    if s != [] && IsSpace(s[|s| - 1]) then 1 + TrailingSpaces(s[..|s| - 1]) else 0
  }

  /** `trimmingCharacters(in: .whitespacesAndNewlines)`: the slice of `s` that starts
      at its first and ends at its last non-whitespace character. Everything cut off is
      whitespace, the result neither starts nor ends with whitespace, and it is empty
      exactly when `s` is blank. */
  function Trim(s: string): (r: string)
    ensures LeadingSpaces(s) + |r| <= |s|
    ensures r == s[LeadingSpaces(s)..LeadingSpaces(s) + |r|]
    ensures forall k :: LeadingSpaces(s) + |r| <= k < |s| ==> IsSpace(s[k])
    ensures r == [] || (!IsSpace(r[0]) && !IsSpace(r[|r| - 1]))
    ensures r == [] <==> forall k :: 0 <= k < |s| ==> IsSpace(s[k])
  {
    var a := LeadingSpaces(s);
    if a == |s| then []
    else
      var b := |s| - TrailingSpaces(s);
      assert !IsSpace(s[a]);
      assert a < b;
      s[a..b]
  }

  /** What a normalised string looks like: no upper-case letter, no whitespace at
      either end. */
  predicate NormalForm(w: string) {
    (forall i :: 0 <= i < |w| ==> !IsUpper(w[i])) &&
    (w == [] || (!IsSpace(w[0]) && !IsSpace(w[|w| - 1])))
  }

  /** The normalisation `addNewWord` applies to the text field before any check:
      lower-case first, then trim. The result has no upper-case letter and no whitespace
      at either end, and it is empty exactly when the input is blank. */
  function Normalise(s: string): (r: string)
    ensures NormalForm(r)
    ensures r == [] <==> forall i :: 0 <= i < |s| ==> IsSpace(s[i])
  {
    NormaliseFacts(s);
    Trim(Lower(s))
  }

  lemma NormaliseFacts(s: string)
    ensures NormalForm(Trim(Lower(s)))
    ensures Trim(Lower(s)) == [] <==> forall i :: 0 <= i < |s| ==> IsSpace(s[i])
  {
    TrimKeepsLowerCase(Lower(s));
    BlankAfterLower(s);
  }

  lemma TrimKeepsLowerCase(low: string)
    requires forall i :: 0 <= i < |low| ==> !IsUpper(low[i])
    ensures forall i :: 0 <= i < |Trim(low)| ==> !IsUpper(Trim(low)[i])
  {
    var r := Trim(low);
    var off := LeadingSpaces(low);
    forall i | 0 <= i < |r| ensures !IsUpper(r[i]) {
      assert r[i] == low[off + i];
    }
  }

  lemma BlankAfterLower(s: string)
    ensures (forall i :: 0 <= i < |s| ==> IsSpace(s[i])) <==>
            (forall i :: 0 <= i < |Lower(s)| ==> IsSpace(Lower(s)[i]))
  {
    var low := Lower(s);
    if forall i :: 0 <= i < |low| ==> IsSpace(low[i]) {
      forall i | 0 <= i < |s| ensures IsSpace(s[i]) {
        assert IsSpace(low[i]);
      }
    }
  }

  lemma LowerOfLowerCase(s: string)
    requires forall i :: 0 <= i < |s| ==> !IsUpper(s[i])
    ensures Lower(s) == s
  {
  }

  /** A string in normal form is left as it is by the normalisation. */
  lemma NormalFormIsFixpoint(w: string)
    requires NormalForm(w)
    ensures Normalise(w) == w
  {
    LowerOfLowerCase(w);
    assert LeadingSpaces(w) == 0;
    assert w != [] ==> TrailingSpaces(w) == 0;
  }

  /** Normalising twice is normalising once. */
  lemma NormaliseIdempotent(s: string)
    ensures Normalise(Normalise(s)) == Normalise(s)
  {
    NormalFormIsFixpoint(Normalise(s));
  }

  /** `firstIndex(of:)`: the position of the first occurrence of `c`, if there is one. */
  function FirstIndex(s: string, c: char): (r: Option<nat>)
    ensures r.None? <==> c !in s
    ensures r.Some? ==> r.value < |s| && s[r.value] == c && c !in s[..r.value]
  {
    if s == [] then None
    else if s[0] == c then Some(0)
    else match FirstIndex(s[1..], c)
      case None => None
      case Some(k) =>
        assert s[..k + 1] == [s[0]] + s[1..][..k];
        Some(k + 1)
  }

  /** `remove(at:)`: one occurrence of `s[i]` leaves the multiset of characters. */
  function RemoveAt(s: string, i: nat): (r: string)
    requires i < |s|
    ensures |r| == |s| - 1
    ensures multiset(r) == multiset(s) - multiset{s[i]}
  {
    assert s == s[..i] + [s[i]] + s[i + 1..];
    s[..i] + s[i + 1..]
  }

  /** `components(separatedBy:)` with a one-character separator: the pieces between
      the separators, empty pieces included. */
  function Split(s: string, sep: char): (parts: seq<string>)
    ensures |parts| >= 1
    ensures forall k :: 0 <= k < |parts| ==> sep !in parts[k]
    decreases |s|
  {
    match FirstIndex(s, sep)
    case None => [s]
    case Some(i) => [s[..i]] + Split(s[i + 1..], sep)
  }

  /** The inverse of `Split`: the pieces with the separator between each two. */
  function Join(parts: seq<string>, sep: char): string {
    if |parts| == 0 then []
    else if |parts| == 1 then parts[0]
    else parts[0] + [sep] + Join(parts[1..], sep)
  }

  /** Splitting loses nothing: joining the pieces gives back the text. */
  lemma {:induction false} JoinSplit(s: string, sep: char)
    ensures Join(Split(s, sep), sep) == s
    decreases |s|
  {
    match FirstIndex(s, sep)
    case None =>
    case Some(i) =>
      var rest := Split(s[i + 1..], sep);
      JoinSplit(s[i + 1..], sep);
      assert Split(s, sep) == [s[..i]] + rest;
      assert ([s[..i]] + rest)[1..] == rest;
      assert s == s[..i] + [sep] + s[i + 1..];
  }
}
