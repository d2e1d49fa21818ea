/** Normalising and clipping what speech-to-text returns. */
module Transcript {
  import opened Prelude
  import opened Text

  const MAX_TRANSCRIPT_LENGTH: nat := 6000
  const MARKER: char := '\U{2026}'

  datatype NormalizedTranscript = NormalizedTranscript(text: string, originalLength: nat, truncated: bool)

  datatype TranscriptError = TranscriptionEmpty

  // ---- What normalising means: the words of the input, one space between them ----

  /** Control characters other than the line breaks are dropped, tabs among them. */
  predicate IsDropped(c: char) {
    IsControl(c) && c != '\n' && c != '\r'
  }

  function Kept(s: string): string {
    if s == [] then []
    else Kept(s[..|s| - 1]) + if IsDropped(s[|s| - 1]) then [] else [s[|s| - 1]]
  }

  function Normalised(raw: string): string {
    Joined(Words(Kept(raw)))
  }

  predicate IsWord(w: string) {
    w != [] && forall i :: 0 <= i < |w| ==> !IsWhitespace(w[i]) && !IsDropped(w[i])
  }

  predicate AreWords(words: seq<string>) {
    forall i :: 0 <= i < |words| ==> IsWord(words[i])
  }

  lemma OneMoreKept(s: string, c: char)
    ensures Kept(s + [c]) == Kept(s) + (if IsDropped(c) then [] else [c])
  {
    assert (s + [c])[..|s|] == s;
  }

  /** Single spaces are the only whitespace, none leads, and nothing is left to drop. */
  predicate IsSingleSpaced(s: string) {
    && (forall i :: 0 <= i < |s| ==> !IsDropped(s[i]) && (IsWhitespace(s[i]) ==> s[i] == ' '))
    && (s != [] ==> s[0] != ' ')
    && (forall i :: 0 < i < |s| && s[i] == ' ' ==> s[i - 1] != ' ')
  }

  predicate IsNormal(s: string) {
    IsSingleSpaced(s) && (s == [] || EndsInWord(s))
  }

  lemma {:induction false} KeptOnly(s: string)
    ensures forall i :: 0 <= i < |Kept(s)| ==> !IsDropped(Kept(s)[i])
  {
    if s != [] {
      KeptOnly(s[..|s| - 1]);
    }
  }

  lemma {:induction false} WordsAreWords(s: string)
    requires forall i :: 0 <= i < |s| ==> !IsDropped(s[i])
    ensures AreWords(Words(s))
  {
    if s != [] {
      WordsAreWords(s[..|s| - 1]);
    }
  }

  lemma {:induction false} JoinedIsNormal(words: seq<string>)
    requires AreWords(words)
    ensures IsNormal(Joined(words)) && (words != [] ==> Joined(words) != [])
  {
    if |words| > 1 {
      JoinedIsNormal(words[..|words| - 1]);
    }
  }

  lemma {:induction false} SingleSpacedIsKept(s: string)
    requires forall i :: 0 <= i < |s| ==> !IsDropped(s[i])
    ensures Kept(s) == s
  {
    if s != [] {
      SingleSpacedIsKept(s[..|s| - 1]);
    }
  }

  lemma NormalisingKeepsTheWords(raw: string)
    ensures IsNormal(Normalised(raw))
    ensures Words(Normalised(raw)) == Words(Kept(raw))
    ensures Normalised(raw) == [] <==> Words(Kept(raw)) == []
  {
    KeptOnly(raw);
    WordsAreWords(Kept(raw));
    JoinedIsNormal(Words(Kept(raw)));
    WordsOfJoined(Words(Kept(raw)));
  }

  /** A single-spaced text is its words joined, and possibly one last space. */
  lemma {:induction false} SingleSpacedIsJoined(s: string)
    requires IsSingleSpaced(s)
    ensures Joined(Words(s)) + (if s == [] || EndsInWord(s) then [] else [' ']) == s
  {
    if s != [] {
      var before, c := s[..|s| - 1], s[|s| - 1];
      SingleSpacedIsJoined(before);
      if !IsWhitespace(c) {
        assert s == before + [c];
        OneMoreCharacter(before, c);
      }
    }
  }

  /** How the joined words grow with a character that is not whitespace. */
  lemma OneMoreCharacter(s: string, c: char)
    requires !IsWhitespace(c)
    ensures Joined(Words(s + [c])) == Joined(Words(s)) + (if EndsInWord(s) || Words(s) == [] then [] else [' ']) + [c]
  {
    hide Words;
    OneMoreOfWords(s, c);
    var words, more := Words(s), Words(s + [c]);
    if EndsInWord(s) {
      assert more[..|more| - 1] == words[..|words| - 1];
    } else {
      assert more[..|more| - 1] == words;
    }
  }

  /** The texts that normalising leaves alone are exactly the normal ones, so a second pass changes nothing. */
  lemma NormalisingIsIdempotent(s: string)
    ensures Normalised(s) == s <==> IsNormal(s)
    ensures Normalised(Normalised(s)) == Normalised(s)
  {
    NormalisingKeepsTheWords(s);
    NormalIsFixed(Normalised(s));
    if IsNormal(s) {
      NormalIsFixed(s);
    }
  }

  lemma NormalIsFixed(s: string)
    requires IsNormal(s)
    ensures Normalised(s) == s
  {
    SingleSpacedIsKept(s);
    SingleSpacedIsJoined(s);
  }

  /** Only an input with nothing but whitespace and control characters comes out empty. */
  lemma {:induction false} EmptyExactlyWhenBlank(raw: string)
    ensures Words(Kept(raw)) == [] <==> forall i :: 0 <= i < |raw| ==> IsWhitespace(raw[i]) || IsDropped(raw[i])
  {
    if raw != [] {
      var before, c := raw[..|raw| - 1], raw[|raw| - 1];
      EmptyExactlyWhenBlank(before);
      if !IsDropped(c) {
        assert Kept(raw)[..|Kept(raw)| - 1] == Kept(before);
      } else {
        assert Kept(raw) == Kept(before);
      }
    }
  }

  lemma {:induction false} KeptTogether(s: string, t: string)
    ensures Kept(s + t) == Kept(s) + Kept(t)
  {
    if t == [] {
      assert s + t == s;
    } else {
      var before, c := t[..|t| - 1], t[|t| - 1];
      KeptTogether(s, before);
      assert s + t == (s + before) + [c];
      OneMoreKept(s + before, c);
    }
  }

  /** A dropped character is no gap between words: a tab glues its two neighbours together. */
  lemma DroppedLeaveNoGap(s: string, c: char, t: string)
    requires IsDropped(c)
    ensures Normalised(s + [c] + t) == Normalised(s + t)
    ensures IsDropped('\t') && IsWhitespace('\t')
  {
    KeptTogether(s + [c], t);
    OneMoreKept(s, c);
    assert Kept(s + [c]) == Kept(s);
    KeptTogether(s, t);
  }

  // ---- When dropping whitespace first makes no difference ----

  // ---- No letter is lost ----

  function LettersOf(s: string): string {
    if s == [] then [] else LettersOf(s[..|s| - 1]) + if IsLetter(s[|s| - 1]) then [s[|s| - 1]] else []
  }

  lemma OneMoreLetter(s: string, c: char)
    ensures LettersOf(s + [c]) == LettersOf(s) + if IsLetter(c) then [c] else []
  {
    assert (s + [c])[..|s|] == s;
  }

  /**
   * How the result grows with the input: a letter is put at its end, behind a space if whitespace
   * that is kept came before it, and nothing else changes it.
   */
  lemma NormalisedGrows(s: string, c: char)
    ensures Normalised([]) == []
    ensures Normalised(s + [c]) ==
            if !IsLetter(c) then Normalised(s)
            else Normalised(s) + (if Normalised(s) != [] && LastKept(s) >= 0 && IsWhitespace(s[LastKept(s)]) then [' '] else []) + [c]
  {
    hide Words, Kept, Joined, IsWhitespace, IsDropped;
    NothingYet();
    OneMoreKept(s, c);
    OneMoreOfWords(Kept(s), c);
    LastKeptIsLetter(s);
    LastKeptIsKept(s);
    NormalisingKeepsTheWords(s);
    if IsDropped(c) {
      assert Kept(s + [c]) == Kept(s);
    } else if !IsWhitespace(c) {
      OneMoreCharacter(Kept(s), c);
    }
  }

  lemma {:induction false} LastKeptIsKept(s: string)
    ensures Kept(s) == [] <==> LastKept(s) < 0
    ensures LastKept(s) >= 0 ==> Kept(s)[|Kept(s)| - 1] == s[LastKept(s)]
  {
    hide IsDropped;
    if s != [] && IsDropped(s[|s| - 1]) {
      LastKeptIsKept(s[..|s| - 1]);
    }
  }

  /** The letters of the result are the letters of the input, in order. */
  lemma {:induction false} LettersSurvive(raw: string)
    ensures LettersOf(Normalised(raw)) == LettersOf(raw)
  {
    hide Normalised, IsWhitespace, IsDropped, LettersOf;
    if raw == [] {
      NormalisedGrows([], ' ');
    } else {
      var before, c := raw[..|raw| - 1], raw[|raw| - 1];
      LettersSurvive(before);
      assert raw == before + [c];
      NormalisedGrows(before, c);
      OneMoreLetter(before, c);
      if IsLetter(c) {
        var shorter := Normalised(before);
        OneMoreLetter(shorter, ' ');
        OneMoreLetter(shorter, c);
        OneMoreLetter(shorter + [' '], c);
        SpaceIsNoLetter();
        assert shorter + [] + [c] == shorter + [c];
      }
    }
  }

  /** A line break or a space between two letters becomes one space. */
  lemma BreaksSeparate(s: string, b: char, c: char)
    requires s != [] && IsLetter(s[|s| - 1]) && IsLetter(c) && (b == '\n' || b == '\r' || b == ' ')
    ensures Normalised(s + [b] + [c]) == Normalised(s) + [' ', c]
  {
    BreaksAreKept(b);
    LastBreakIsKept(s, b);
    LetterShows(s);
    hide Normalised, IsWhitespace, IsDropped, LastKept;
    NormalisedGrows(s, b);
    NormalisedGrows(s + [b], c);
    assert Normalised(s) + [' '] + [c] == Normalised(s) + [' ', c];
  }

  lemma BreaksAreKept(b: char)
    requires b == '\n' || b == '\r' || b == ' '
    ensures !IsDropped(b) && IsWhitespace(b)
  {
  }

  lemma LastBreakIsKept(s: string, b: char)
    requires !IsDropped(b)
    ensures LastKept(s + [b]) == |s|
  {
  }

  lemma LetterShows(s: string)
    requires s != [] && IsLetter(s[|s| - 1])
    ensures Normalised(s) != []
  {
    hide Normalised;
    var before := s[..|s| - 1];
    assert s == before + [s[|s| - 1]];
    NormalisedGrows(before, s[|s| - 1]);
  }

  /** No control character is left, and no whitespace but plain spaces. */
  lemma NothingOddIsLeft(raw: string)
    ensures forall i :: 0 <= i < |Normalised(raw)| ==>
              var c := Normalised(raw)[i]; c as int >= 0x20 && !(0x7F <= c as int <= 0x9F) && (IsWhitespace(c) ==> c == ' ')
  {
    NormalisingKeepsTheWords(raw);
    hide Normalised;
    var s := Normalised(raw);
    forall i | 0 <= i < |s| ensures !IsControl(s[i]) {
      assert !IsDropped(s[i]) && (IsWhitespace(s[i]) ==> s[i] == ' ');
      BreaksAreWhite(s[i]);
    }
  }

  lemma BreaksAreWhite(c: char)
    ensures IsControl(c) ==> IsDropped(c) || (IsWhitespace(c) && c != ' ')
  {
  }

  lemma SpaceIsNoLetter()
    ensures !IsLetter(' ')
  {
  }

  /** What the documented order would keep: whitespace is never dropped. */
  function KeptWhite(s: string): string {
    if s == [] then []
    else KeptWhite(s[..|s| - 1]) + if IsDropped(s[|s| - 1]) && !IsWhitespace(s[|s| - 1]) then [] else [s[|s| - 1]]
  }

  predicate IsLetter(c: char) {
    !IsWhitespace(c) && !IsDropped(c)
  }

  /** Everything behind character `i` is dropped. */
  predicate IsLastKept(s: string, i: int) {
    0 <= i < |s| && forall k :: i < k < |s| ==> IsDropped(s[k])
  }

  /** Whitespace `k` is dropped between the letters `i` and `m`, and so is all else between them. */
  predicate Glues(s: string, i: int, k: int, m: int) {
    && 0 <= i < k < m < |s| && IsLetter(s[i]) && IsLetter(s[m])
    && IsWhitespace(s[k]) && IsLastKept(s[..m], i)
  }

  ghost predicate HasGlue(s: string) {
    exists i, k, m :: Glues(s, i, k, m)
  }

  /** The last character that is kept, or -1. */
  function LastKept(s: string): (i: int)
    ensures -1 <= i < |s| && (i >= 0 ==> !IsDropped(s[i]))
    ensures forall k :: i < k < |s| ==> IsDropped(s[k])
  {
    if s == [] then -1
    else if IsDropped(s[|s| - 1]) then LastKept(s[..|s| - 1])
    else |s| - 1
  }

  lemma {:induction false} LastKeptIsLetter(s: string)
    ensures EndsInWord(Kept(s)) <==> LastKept(s) >= 0 && IsLetter(s[LastKept(s)])
  {
    hide IsWhitespace, IsDropped;
    if s != [] && IsDropped(s[|s| - 1]) {
      LastKeptIsLetter(s[..|s| - 1]);
    }
  }

  lemma {:induction false} LastWhiteIsBehind(s: string)
    ensures EndsInWord(KeptWhite(s)) <==> LastKept(s) >= 0 && IsLetter(s[LastKept(s)]) && NoWhiteBehind(s, LastKept(s))
  {
    hide IsWhitespace, IsDropped;
    if s != [] && IsDropped(s[|s| - 1]) {
      var before, last := s[..|s| - 1], |s| - 1;
      LastWhiteIsBehind(before);
      assert LastKept(s) == LastKept(before);
      assert NoWhiteBehind(s, LastKept(s)) ==> !IsWhitespace(s[last]);
      assert NoWhiteBehind(before, LastKept(s)) && !IsWhitespace(s[last]) ==> NoWhiteBehind(s, LastKept(s));
      assert NoWhiteBehind(s, LastKept(s)) ==> NoWhiteBehind(before, LastKept(s)) by {
        assert forall k :: 0 <= k < last ==> before[k] == s[k];
      }
    }
  }

  predicate NoWhiteBehind(s: string, i: int) {
    forall k :: i < k < |s| && 0 <= k ==> !IsWhitespace(s[k])
  }

  /** The glue a letter adds to the text before it. */
  lemma GlueOfOneMore(s: string, c: char)
    ensures HasGlue(s + [c]) <==> HasGlue(s) || (IsLetter(c) && EndsInWord(Kept(s)) && !EndsInWord(KeptWhite(s)))
  {
    hide IsWhitespace, IsDropped, Kept, KeptWhite, EndsInWord;
    var longer, last := s + [c], LastKept(s);
    LastKeptIsLetter(s);
    LastWhiteIsBehind(s);
    forall i, k, m | m < |s| ensures Glues(longer, i, k, m) <==> Glues(s, i, k, m) {
      if 0 <= m {
        assert longer[..m] == s[..m];
      }
    }
    assert longer[..|s|] == s;
    forall i | IsLastKept(s, i) && IsLetter(s[i]) ensures i == last {
    }
    if last >= 0 && IsLetter(s[last]) && IsLetter(c) && !NoWhiteBehind(s, last) {
      var k :| last < k < |s| && IsWhitespace(s[k]);
      assert Glues(longer, last, k, |s|);
    }
    forall i, k | Glues(longer, i, k, |s|) ensures i == last && IsLetter(s[last]) && !NoWhiteBehind(s, last) {
    }
  }

  /** Dropping first never makes more words, and as many exactly if it makes the same ones: if nothing is glued. */
  lemma {:induction false} GlueLosesWords(s: string)
    ensures GlueTellsWords(s)
  {
    if s != [] {
      var before, c := s[..|s| - 1], s[|s| - 1];
      assert s == before + [c];
      GlueLosesWords(before);
      GlueLosesWordsOnce(before, c);
    }
  }

  ghost predicate GlueTellsWords(s: string) {
    var kept, white := Words(Kept(s)), Words(KeptWhite(s));
    (!HasGlue(s) ==> kept == white) && (HasGlue(s) ==> |kept| < |white|)
  }

  lemma GlueLosesWordsOnce(s: string, c: char)
    requires GlueTellsWords(s)
    ensures GlueTellsWords(s + [c])
  {
    hide HasGlue, IsWhitespace, IsDropped, Words, Kept, KeptWhite, EndsInWord;
    GlueOfOneMore(s, c);
    OneMoreKept(s, c);
    OneMoreKeptWhite(s, c);
    WhiteEndsInWord(s);
    WordsOfMaybe(Kept(s), c, !IsDropped(c));
    WordsOfMaybe(KeptWhite(s), c, !(IsDropped(c) && !IsWhitespace(c)));
  }

  lemma WordsOfMaybe(s: string, c: char, kept: bool)
    ensures var words := Words(s + if kept then [c] else []);
            if !kept || IsWhitespace(c) then words == Words(s)
            else if EndsInWord(s) then Words(s) != [] && words == Grown(Words(s), c)
            else words == Words(s) + [[c]]
  {
    if kept {
      OneMoreOfWords(s, c);
    } else {
      assert s + [] == s;
    }
  }

  lemma WhiteEndsInWord(s: string)
    ensures EndsInWord(KeptWhite(s)) ==> EndsInWord(Kept(s))
  {
    LastKeptIsLetter(s);
    LastWhiteIsBehind(s);
  }

  lemma OneMoreKeptWhite(s: string, c: char)
    ensures KeptWhite(s + [c]) == KeptWhite(s) + (if IsDropped(c) && !IsWhitespace(c) then [] else [c])
  {
    assert (s + [c])[..|s|] == s;
  }

  /**
   * The documentation has runs of whitespace, tabs too, become one space. Texts come out that
   * way exactly if no dropped whitespace separates two letters with nothing kept between them.
   */
  lemma DocumentedExactlyWhen(raw: string)
    ensures Normalised(raw) == Joined(Words(KeptWhite(raw))) <==> !HasGlue(raw)
  {
    GlueLosesWords(raw);
    KeptOnly(raw);
    WordsAreWords(Kept(raw));
    WordsOfJoined(Words(Kept(raw)));
    WhiteWordsAreWords(raw);
    WordsOfJoined(Words(KeptWhite(raw)));
    hide HasGlue, Words, Kept, KeptWhite, Joined;
  }

  lemma {:induction false} WhiteWordsAreWords(s: string)
    ensures AreWords(Words(KeptWhite(s)))
  {
    hide Words, KeptWhite, IsWhitespace, IsDropped, EndsInWord;
    if s == [] {
      NothingYet();
    } else {
      var before, c := s[..|s| - 1], s[|s| - 1];
      WhiteWordsAreWords(before);
      assert s == before + [c];
      OneMoreKeptWhite(before, c);
      WordsOfMaybe(KeptWhite(before), c, !(IsDropped(c) && !IsWhitespace(c)));
    }
  }

  lemma TabGluesLetters()
    ensures Normalised("a\tb") == "ab" && HasGlue("a\tb")
  {
    hide Normalised;
    DroppedLeaveNoGap("a", '\t', "b");
    assert "a" + ['\t'] + "b" == "a\tb" && "a" + "b" == "ab";
    assert IsNormal("ab");
    NormalIsFixed("ab");
    assert Glues("a\tb", 0, 1, 2);
  }

  lemma NothingYet()
    ensures Kept([]) == [] && KeptWhite([]) == [] && Words([]) == [] && Joined([]) == []
  {
  }

  method NormaliseWhitespace(raw: string) returns (text: string)
    ensures text == Normalised(raw)
  {
    hide Words, Kept, Joined, IsWhitespace, IsDropped, Trim, IsNormal, IsSingleSpaced;
    NothingYet();
    var out: string := [];
    var prevSpace := true;
    for i := 0 to |raw|
      invariant prevSpace <==> !EndsInWord(Kept(raw[..i]))
      invariant out == [] <==> Words(Kept(raw[..i])) == []
      invariant out == Joined(Words(Kept(raw[..i]))) + (if prevSpace && out != [] then [' '] else [])
    {
      var ch := raw[i];
      assert raw[..i + 1] == raw[..i] + [ch];
      OneMoreKept(raw[..i], ch);
      ghost var kept := Kept(raw[..i]);
      if IsDropped(ch) {
        assert Kept(raw[..i + 1]) == kept;
        continue;
      }
      assert EndsInWord(kept) ==> Words(kept) != [];
      OneMoreOfWords(kept, ch);
      if IsWhitespace(ch) {
        if !prevSpace {
          out := out + [' '];
          prevSpace := true;
        }
        continue;
      }
      OneMoreCharacter(kept, ch);
      out := out + [ch];
      prevSpace := false;
    }
    assert raw[..|raw|] == raw;
    NormalisingKeepsTheWords(raw);
    assert out == Normalised(raw) || (out == Normalised(raw) + [' '] && Normalised(raw) != []);
    text := Trim(out);
    NormalIsTrimmed(Normalised(raw));
  }

  lemma EndsOfNormal(s: string)
    requires IsNormal(s) && s != []
    ensures !IsWhitespace(s[0]) && !IsWhitespace(s[|s| - 1]) && IsWhitespace(' ')
  {
  }

  lemma NormalIsTrimmed(s: string)
    requires IsNormal(s)
    ensures Trim(s) == s
    ensures s != [] ==> Trim(s + [' ']) == s
  {
    if s != [] {
      EndsOfNormal(s);
    }
    hide IsWhitespace;
    TrimmedStays(s);
    if s != [] {
      var spaced := s + [' '];
      assert TrimStart(spaced) == spaced;
      assert spaced[..|spaced| - 1] == s;
      assert TrimEnd(spaced) == TrimEnd(s) == s;
    }
  }

  // ---- Clipping to a budget of characters ----

  /** How far back from the end of the budget a break is looked for, in bytes of UTF-8. */
  const BACKOFF_BYTES: nat := 160

  function LenUtf8(c: char): (n: nat)
    ensures 1 <= n <= 4
  {
    if c as int < 0x80 then 1 else if c as int < 0x800 then 2 else if c as int < 0x1_0000 then 3 else 4
  }

  /** The bytes of a character in UTF-8. */
  function Utf8(c: char): seq<nat> {
    var n := c as int;
    if n < 0x80 then [n]
    else if n < 0x800 then [0xC0 + n / 0x40, 0x80 + n % 0x40]
    else if n < 0x1_0000 then [0xE0 + n / 0x1000, 0x80 + n / 0x40 % 0x40, 0x80 + n % 0x40]
    else [0xF0 + n / 0x4_0000, 0x80 + n / 0x1000 % 0x40, 0x80 + n / 0x40 % 0x40, 0x80 + n % 0x40]
  }

  lemma Utf8HasItsLength(c: char)
    ensures |Utf8(c)| == LenUtf8(c) && forall i :: 0 <= i < |Utf8(c)| ==> Utf8(c)[i] < 0x100
  {
  }

  function ByteLen(s: string): nat {
    if s == [] then 0 else ByteLen(s[..|s| - 1]) + LenUtf8(s[|s| - 1])
  }

  predicate IsSentenceEnd(c: char) {
    c == '.' || c == '!' || c == '?'
  }

  /** Character `i` is wanted and does not start before byte `limit`. */
  predicate BreaksAt(s: string, limit: nat, wanted: char -> bool, i: int) {
    0 <= i < |s| && wanted(s[i]) && ByteLen(s[..i]) >= limit
  }

  /** Searching backwards finds the last of them. */
  function LastBreak(s: string, limit: nat, wanted: char -> bool): (found: Option<nat>)
    ensures found.Some? ==> IsLastBreak(s, limit, wanted, found.value)
    ensures found.None? ==> forall i :: !BreaksAt(s, limit, wanted, i)
  {
    if s == [] then None
    else
      var last := |s| - 1;
      if ByteLen(s[..last]) >= limit && wanted(s[last]) then Some(last)
      else
        assert forall i | 0 <= i < last :: s[..last][..i] == s[..i];
        assert forall i | BreaksAt(s, limit, wanted, i) :: BreaksAt(s[..last], limit, wanted, i);
        LastBreak(s[..last], limit, wanted)
  }

  ghost predicate IsLastBreak(s: string, limit: nat, wanted: char -> bool, i: int) {
    BreaksAt(s, limit, wanted, i) && forall k :: k > i ==> !BreaksAt(s, limit, wanted, k)
  }

  function Limit(window: string): nat {
    if ByteLen(window) > BACKOFF_BYTES then ByteLen(window) - BACKOFF_BYTES else 0
  }

  /**
   * Where a budget window is cut: after its last sentence end near the end, failing that
   * before its last whitespace there, failing that at its very end.
   */
  ghost predicate IsCut(window: string, cut: int) {
    || IsLastBreak(window, Limit(window), IsSentenceEnd, cut - 1)
    || (HasNoBreak(window, IsSentenceEnd) && IsLastBreak(window, Limit(window), IsWhitespace, cut))
    || (HasNoBreak(window, IsSentenceEnd) && HasNoBreak(window, IsWhitespace) && cut == |window|)
  }

  ghost predicate HasNoBreak(window: string, wanted: char -> bool) {
    forall i :: !BreaksAt(window, Limit(window), wanted, i)
  }

  ghost predicate IsClipped(text: string, maxChars: nat, clipped: string) {
    if |text| <= maxChars then clipped == text
    else exists cut | 0 <= cut <= maxChars :: IsCut(text[..maxChars], cut) && clipped == TrimEnd(text[..cut]) + [MARKER]
  }

  method ClipToBudget(text: string, maxChars: nat) returns (clipped: string, truncated: bool)
    ensures truncated <==> |text| > maxChars
    ensures IsClipped(text, maxChars, clipped)
  {
    if |text| <= maxChars {
      return text, false;
    }
    var byteEnd, idx := 0, 0;
    while idx < |text| && idx < maxChars
      invariant idx <= maxChars
      invariant byteEnd == ByteLen(text[..idx])
    {
      assert text[..idx + 1][..idx] == text[..idx];
      byteEnd := byteEnd + LenUtf8(text[idx]);
      idx := idx + 1;
    }
    var window := text[..idx];
    var backoffLimit := if byteEnd > BACKOFF_BYTES then byteEnd - BACKOFF_BYTES else 0;
    var breakpoint := idx;
    var sentence := LastBreak(window, backoffLimit, IsSentenceEnd);
    if sentence.Some? {
      breakpoint := sentence.value + 1;
    } else {
      var space := LastBreak(window, backoffLimit, IsWhitespace);
      if space.Some? {
        breakpoint := space.value;
      }
    }
    clipped := TrimEnd(text[..breakpoint]) + [MARKER];
    truncated := true;
    assert IsCut(window, breakpoint);
  }

  lemma {:induction false} ByteLenIsMonotone(s: string, i: nat, k: nat)
    requires i <= k <= |s|
    ensures ByteLen(s[..i]) <= ByteLen(s[..k])
  {
    if i < k {
      ByteLenIsMonotone(s, i, k - 1);
      assert s[..k][..k - 1] == s[..k - 1];
    }
  }

  lemma BackoffIsShort(window: string, i: nat)
    requires i < |window| && ByteLen(window[..i]) >= Limit(window)
    ensures ByteLen(window) <= ByteLen(window[..i]) + BACKOFF_BYTES
    ensures ByteLen(window[..i]) <= ByteLen(window[..i + 1]) <= ByteLen(window)
  {
    ByteLenIsMonotone(window, i, i + 1);
    ByteLenIsMonotone(window, i + 1, |window|);
    assert window[..|window|] == window;
  }

  /** A cut in a normal text leaves nothing to trim and gives up at most 160 bytes of the budget. */
  lemma CutKeepsAlmostAll(text: string, maxChars: nat, cut: nat)
    requires IsNormal(text) && 0 < maxChars < |text| && IsCut(text[..maxChars], cut)
    ensures 0 < cut <= maxChars && EndsInWord(text[..cut]) && TrimEnd(text[..cut]) == text[..cut]
    ensures ByteLen(text[..maxChars]) <= ByteLen(text[..cut]) + BACKOFF_BYTES
  {
    var window := text[..maxChars];
    if IsLastBreak(window, Limit(window), IsSentenceEnd, cut - 1) {
      assert window[..cut - 1] == text[..cut - 1] && window[..cut] == text[..cut];
      BackoffIsShort(window, cut - 1);
    } else if cut < maxChars {
      assert window[..cut] == text[..cut];
      BackoffIsShort(window, cut);
    } else {
      LastCharacterIsInReach(window);
      assert !BreaksAt(window, Limit(window), IsWhitespace, maxChars - 1);
      assert cut == maxChars && text[..cut] == window;
    }
  }

  lemma LastCharacterIsInReach(window: string)
    requires window != []
    ensures ByteLen(window[..|window| - 1]) >= Limit(window)
  {
  }

  /**
   * A clipped transcript is a prefix of the text and the marker: one character over the
   * budget at most, short of it by at most 160 bytes, and normal again.
   */
  lemma ClippedIsAPrefix(text: string, maxChars: nat, clipped: string)
    requires IsNormal(text) && 0 < maxChars < |text| && IsClipped(text, maxChars, clipped)
    ensures 1 < |clipped| <= maxChars + 1 && clipped == text[..|clipped| - 1] + [MARKER]
    ensures EndsInWord(text[..|clipped| - 1]) && IsNormal(clipped)
    ensures ByteLen(text[..maxChars]) - 160 <= ByteLen(text[..|clipped| - 1]) <= ByteLen(text[..maxChars])
  {
    var cut :| 0 <= cut <= maxChars && IsCut(text[..maxChars], cut) && clipped == TrimEnd(text[..cut]) + [MARKER];
    CutKeepsAlmostAll(text, maxChars, cut);
    ByteLenIsMonotone(text, cut, maxChars);
    hide IsCut, IsClipped;
    MarkedIsNormal(text, cut);
  }

  lemma MarkedIsNormal(text: string, cut: nat)
    requires IsNormal(text) && cut <= |text| && EndsInWord(text[..cut])
    ensures IsNormal(text[..cut] + [MARKER])
  {
  }

  /**
   * A word is cut in two exactly when the last mark in reach stands inside it, or when there
   * is no break in reach and the text goes on without a space.
   */
  lemma WordsAreCutExactlyWhen(text: string, maxChars: nat, clipped: string)
    requires IsNormal(text) && 0 < maxChars < |text| && IsClipped(text, maxChars, clipped)
    ensures var window := text[..maxChars]; (!IsWhitespace(text[|clipped| - 1])
      <==> (exists i :: IsLastBreak(window, Limit(window), IsSentenceEnd, i) && !IsWhitespace(text[i + 1]))
           || (HasNoBreak(window, IsSentenceEnd) && HasNoBreak(window, IsWhitespace) && !IsWhitespace(text[maxChars])))
  {
    hide IsWhitespace, IsDropped, IsNormal, Limit, ByteLen;
    var window := text[..maxChars];
    var cut :| 0 <= cut <= maxChars && IsCut(window, cut) && clipped == TrimEnd(text[..cut]) + [MARKER];
    CutKeepsAlmostAll(text, maxChars, cut);
    if IsLastBreak(window, Limit(window), IsSentenceEnd, cut - 1) {
      assert cut - 1 + 1 == cut;
    }
  }

  /** Which happens to a decimal number at the end of the budget. */
  lemma DecimalIsCutInTwo()
    ensures IsNormal("3.14 kg")
    ensures forall clipped :: IsClipped("3.14 kg", 4, clipped) ==> clipped == "3." + [MARKER]
  {
    var text := "3.14 kg";
    var window := text[..4];
    assert window == "3.14";
    ByteLenIsBounded(window);
    assert BreaksAt(window, 0, IsSentenceEnd, 1);
    forall clipped | IsClipped(text, 4, clipped) ensures clipped == "3." + [MARKER] {
      var cut :| 0 <= cut <= 4 && IsCut(window, cut) && clipped == TrimEnd(text[..cut]) + [MARKER];
      assert cut == 2 && text[..cut] == "3.";
    }
  }

  lemma {:induction false} ByteLenIsBounded(s: string)
    ensures |s| <= ByteLen(s) <= 4 * |s|
  {
    if s != [] {
      ByteLenIsBounded(s[..|s| - 1]);
    }
  }

  method FromRaw(raw: string) returns (result: Result<NormalizedTranscript, TranscriptError>)
    ensures result.Err? <==> forall i :: 0 <= i < |raw| ==> IsWhitespace(raw[i]) || IsDropped(raw[i])
    ensures result.Ok? ==> var t := result.value; t.originalLength == |Normalised(raw)| && (t.truncated <==> t.originalLength > MAX_TRANSCRIPT_LENGTH)
    ensures result.Ok? ==> IsClipped(Normalised(raw), MAX_TRANSCRIPT_LENGTH, result.value.text)
    ensures result.Ok? ==> IsNormal(result.value.text) && 0 < |result.value.text| <= 6001
    ensures result.Ok? ==> (result.value.truncated <==> result.value.originalLength > 6000)
    ensures result.Ok? && result.value.truncated ==> result.value.text[|result.value.text| - 1] == '\U{2026}'
  {
    hide IsNormal, IsClipped, Words, Kept;
    var normalised := NormaliseWhitespace(raw);
    NormalisingKeepsTheWords(raw);
    EmptyExactlyWhenBlank(raw);
    if normalised == [] {
      return Err(TranscriptionEmpty);
    }
    var text, truncated := ClipToBudget(normalised, MAX_TRANSCRIPT_LENGTH);
    if truncated {
      ClippedIsAPrefix(normalised, MAX_TRANSCRIPT_LENGTH, text);
    } else {
      assert text == normalised by { ShortIsWhole(normalised, MAX_TRANSCRIPT_LENGTH, text); }
    }
    result := Ok(NormalizedTranscript(text, |normalised|, truncated));
  }

  lemma ShortIsWhole(text: string, maxChars: nat, clipped: string)
    requires |text| <= maxChars && IsClipped(text, maxChars, clipped)
    ensures clipped == text
  {
  }
}
