/** The regular-expression matcher of grep.c.

A C string is the sequence of its characters before the NUL; reading one past
the end yields NUL. */
module Grep {

  const NUL: char := '\0'

  function At(s: string, i: nat): char {
    if i < |s| then s[i] else NUL
  }

  ghost predicate CString(s: string) {
    NUL !in s
  }

  // ----- The language of a pattern --------------------------------------------

  /** A pattern read from left to right: a character class, possibly starred. */
  datatype Atom = One(c: char) | Star(c: char)

  /** '.' stands for every character, any other character for itself. */
  predicate Fits(c: char, x: char) {
    c == '.' || c == x
  }

  /** Whether the pattern ends in a '$' that is not itself starred or starring. */
  predicate Anchored(re: string)
    decreases |re|
  {
    if re == [] then false
    else if At(re, 1) == '*' then Anchored(re[2..])
    else re == "$" || Anchored(re[1..])
  }

  function Atoms(re: string): seq<Atom>
    decreases |re|
  {
    if re == [] || re == "$" then []
    else if At(re, 1) == '*' then [Star(re[0])] + Atoms(re[2..])
    else [One(re[0])] + Atoms(re[1..])
  }

  /** w is a word of the language: the concatenation of one word for each atom. */
  ghost predicate InLanguage(atoms: seq<Atom>, w: string)
    decreases |atoms|
  {
    if atoms == [] then w == []
    else exists k: nat :: k <= |w| && InAtom(atoms[0], w[..k]) && InLanguage(atoms[1..], w[k..])
  }

  ghost predicate InAtom(a: Atom, w: string) {
    match a
    case One(c) => |w| == 1 && Fits(c, w[0])
    case Star(c) => forall i :: 0 <= i < |w| ==> Fits(c, w[i])
  }

  /** Some word of the language is a prefix of the text, and the whole text if the
      pattern ends in '$'. */
  ghost predicate MatchesHere(re: string, text: string) {
    exists k: nat :: MatchesUpTo(re, text, k)
  }

  ghost predicate MatchesUpTo(re: string, text: string, k: nat) {
    k <= |text| && InLanguage(Atoms(re), text[..k]) && (Anchored(re) ==> k == |text|)
  }

  /** The pattern matches somewhere in the text, or at its start if it begins with
      '^'. */
  ghost predicate MatchesText(re: string, text: string) {
    if At(re, 0) == '^' then MatchesHere(re[1..], text)
    else exists i: nat :: i <= |text| && MatchesHere(re, text[i..])
  }

  // ----- Reading one atom -----------------------------------------------------

  lemma OneHere(re: string, text: string)
    requires re != [] && re != "$" && At(re, 1) != '*'
    ensures MatchesHere(re, text) <==> text != [] && Fits(re[0], text[0]) && MatchesHere(re[1..], text[1..])
  {
    assert Atoms(re) == [One(re[0])] + Atoms(re[1..]) && Atoms(re)[1..] == Atoms(re[1..]);
    if k: nat :| MatchesUpTo(re, text, k) {
      var w := text[..k];
      var j: nat :| j <= |w| && InAtom(Atoms(re)[0], w[..j]) && InLanguage(Atoms(re)[1..], w[j..]);
      assert w[..j][0] == text[0] && w[1..] == text[1..][..k - 1];
      assert MatchesUpTo(re[1..], text[1..], k - 1);
    }
    if text != [] && Fits(re[0], text[0]) && MatchesHere(re[1..], text[1..]) {
      var k: nat :| MatchesUpTo(re[1..], text[1..], k);
      var w := text[..k + 1];
      assert w[..1] == [text[0]] && w[1..] == text[1..][..k];
      assert InAtom(Atoms(re)[0], w[..1]) && InLanguage(Atoms(re)[1..], w[1..]);
      assert MatchesUpTo(re, text, k + 1);
    }
  }

  /** The first n characters of the text can be taken by c*. */
  ghost predicate Run(c: char, text: string, n: nat) {
    n <= |text| && forall i :: 0 <= i < n ==> Fits(c, text[i])
  }

  lemma StarHere(re: string, text: string)
    requires re != [] && At(re, 1) == '*'
    ensures MatchesHere(re, text) <==> exists n: nat :: Run(re[0], text, n) && MatchesHere(re[2..], text[n..])
  {
    assert Atoms(re)[1..] == Atoms(re[2..]);
    if k: nat :| MatchesUpTo(re, text, k) {
      var w := text[..k];
      var n: nat :| n <= |w| && InAtom(Atoms(re)[0], w[..n]) && InLanguage(Atoms(re)[1..], w[n..]);
      assert forall i :: 0 <= i < n ==> text[i] == w[..n][i];
      assert w[n..] == text[n..][..k - n];
      assert Run(re[0], text, n) && MatchesUpTo(re[2..], text[n..], k - n);
    }
    if n: nat :| Run(re[0], text, n) && MatchesHere(re[2..], text[n..]) {
      var k: nat :| MatchesUpTo(re[2..], text[n..], k);
      var w := text[..n + k];
      assert w[..n] == text[..n] && w[n..] == text[n..][..k];
      assert InAtom(Atoms(re)[0], w[..n]) && InLanguage(Atoms(re)[1..], w[n..]);
      assert MatchesUpTo(re, text, n + k);
    }
  }

  lemma EmptyHere(text: string)
    ensures MatchesHere("", text)
    ensures MatchesHere("$", text) <==> text == []
  {
    assert MatchesUpTo("", text, 0);
    if text == [] {
      assert MatchesUpTo("$", text, 0);
    }
  }

  // ----- grep.c ---------------------------------------------------------------

  /** matchhere decides whether a prefix of text is in the language of re. */
  method MatchHere(re: string, text: string) returns (b: bool)
    requires CString(re) && CString(text)
    ensures b <==> MatchesHere(re, text)
    decreases |re|, 0
  {
    if At(re, 0) == NUL {
      EmptyHere(text);
      return true;
    }
    if At(re, 1) == '*' {
      StarHere(re, text);
      b := MatchStar(re[0], re[2..], text);
      return;
    }
    if re[0] == '$' && At(re, 1) == NUL {
      EmptyHere(text);
      assert re == "$";
      return At(text, 0) == NUL;
    }
    OneHere(re, text);
    if At(text, 0) != NUL && (re[0] == '.' || re[0] == At(text, 0)) {
      b := MatchHere(re[1..], text[1..]);
      return;
    }
    return false;
  }

  /** matchstar lets c stand for every run of characters it can, shortest first. */
  method MatchStar(c: char, re: string, text: string) returns (b: bool)
    requires CString(re) && CString(text)
    ensures b <==> exists n: nat :: Run(c, text, n) && MatchesHere(re, text[n..])
    decreases |re|, 1
  {
    var i: nat := 0;
    while true
      invariant Run(c, text, i)
      invariant forall n: nat :: n < i ==> !MatchesHere(re, text[n..])
      decreases |text| - i
    {
      var here := MatchHere(re, text[i..]);
      if here {
        return true;
      }
      // The test moves on even when it fails, but nothing reads text after that.
      if !(At(text, i) != NUL && (At(text, i) == c || c == '.')) {
        return false;
      }
      i := i + 1;
    }
  }

  /** match: does the pattern match anywhere in text? */
  method Match(re: string, text: string) returns (b: bool)
    requires CString(re) && CString(text)
    ensures b <==> MatchesText(re, text)
  {
    if At(re, 0) == '^' {
      b := MatchHere(re[1..], text);
      return;
    }
    var i: nat := 0;
    while true
      invariant i <= |text|
      invariant forall n: nat :: n < i ==> !MatchesHere(re, text[n..])
      decreases |text| - i
    {
      var here := MatchHere(re, text[i..]);
      if here {
        return true;
      }
      if At(text, i) == NUL {
        return false;
      }
      i := i + 1;
    }
  }
}
