/** Character classes, trimming and words, over sequences of Unicode scalar values. */
module Text {

  /** The Unicode `White_Space` property. */
  predicate IsWhitespace(c: char) {
    var n := c as int;
    || 0x09 <= n <= 0x0D || n == 0x20 || n == 0x85 || n == 0xA0 || n == 0x1680
    || 0x2000 <= n <= 0x200A || n == 0x2028 || n == 0x2029 || n == 0x202F || n == 0x205F || n == 0x3000
  }

  /** The Unicode general category `Cc`. */
  predicate IsControl(c: char) {
    c as int <= 0x1F || 0x7F <= c as int <= 0x9F
  }

  function TrimStart(s: string): (r: string)
    ensures |r| <= |s| && r == s[|s| - |r|..]
    ensures r == [] || !IsWhitespace(r[0])
  {
    if s != [] && IsWhitespace(s[0]) then TrimStart(s[1..]) else s
  }

  function TrimEnd(s: string): (r: string)
    ensures |r| <= |s| && r == s[..|r|]
    ensures r == [] || !IsWhitespace(r[|r| - 1])
  {
    if s != [] && IsWhitespace(s[|s| - 1]) then TrimEnd(s[..|s| - 1]) else s
  }

  /** Without the whitespace at both ends. */
  function Trim(s: string): (r: string)
    ensures r == [] || (!IsWhitespace(r[0]) && !IsWhitespace(r[|r| - 1]))
  {
    TrimEnd(TrimStart(s))
  }

  lemma {:induction false} StartIsWhitespace(s: string)
    ensures forall i :: 0 <= i < |s| - |TrimStart(s)| ==> IsWhitespace(s[i])
  {
    hide IsWhitespace;
    if s != [] && IsWhitespace(s[0]) {
      StartIsWhitespace(s[1..]);
      assert forall i :: 1 <= i < |s| ==> s[i] == s[1..][i - 1];
    }
  }

  lemma {:induction false} EndIsWhitespace(s: string)
    ensures forall i :: |TrimEnd(s)| <= i < |s| ==> IsWhitespace(s[i])
  {
    hide IsWhitespace;
    if s != [] && IsWhitespace(s[|s| - 1]) {
      EndIsWhitespace(s[..|s| - 1]);
    }
  }

  /** Nothing but whitespace is trimmed, and all of it at both ends. */
  lemma TrimTakesWhitespace(s: string) returns (from: nat, to: nat)
    ensures from <= to <= |s| && Trim(s) == s[from..to]
    ensures forall i :: 0 <= i < from || to <= i < |s| ==> IsWhitespace(s[i])
    ensures from < to ==> !IsWhitespace(s[from]) && !IsWhitespace(s[to - 1])
  {
    hide IsWhitespace, TrimStart, TrimEnd;
    var rest := TrimStart(s);
    var middle := TrimEnd(rest);
    from := |s| - |rest|;
    to := from + |middle|;
    StartIsWhitespace(s);
    EndIsWhitespace(rest);
    assert rest == s[from..];
    assert middle == rest[..|middle|];
    assert s[from..to] == middle;
    assert middle != [] ==> rest[0] == middle[0] == s[from] && middle[|middle| - 1] == s[to - 1];
    forall i | to <= i < |s| ensures IsWhitespace(s[i]) {
      assert s[i] == rest[i - from];
    }
  }

  /** Whitespace around a text makes no difference. */
  lemma TrimIgnoresSurroundings(before: string, s: string, after: string)
    requires s != [] && !IsWhitespace(s[0]) && !IsWhitespace(s[|s| - 1])
    requires forall i :: 0 <= i < |before| ==> IsWhitespace(before[i])
    requires forall i :: 0 <= i < |after| ==> IsWhitespace(after[i])
    ensures Trim(before + s + after) == s
  {
    hide IsWhitespace, Trim;
    var all := before + s + after;
    var from, to := TrimTakesWhitespace(all);
    var first, last := |before|, |before| + |s| - 1;
    assert all[first] == s[0] && all[last] == s[|s| - 1];
    assert forall i :: 0 <= i < first ==> all[i] == before[i];
    assert forall i :: last < i < |all| ==> all[i] == after[i - last - 1];
    assert from <= first && last < to;
  }

  lemma TrimmedStays(s: string)
    requires s == [] || (!IsWhitespace(s[0]) && !IsWhitespace(s[|s| - 1]))
    ensures Trim(s) == s
  {
  }

  predicate EndsInWord(s: string) {
    s != [] && !IsWhitespace(s[|s| - 1])
  }

  /** The maximal runs of characters that are not whitespace. */
  function Words(s: string): (words: seq<string>)
    ensures EndsInWord(s) ==> words != []
  {
    if s == [] then []
    else
      var before, c := s[..|s| - 1], s[|s| - 1];
      if IsWhitespace(c) then Words(before)
      else if EndsInWord(before) then Grown(Words(before), c)
      else Words(before) + [[c]]
  }

  function Grown(words: seq<string>, c: char): seq<string>
    requires words != []
  {
    words[..|words| - 1] + [words[|words| - 1] + [c]]
  }

  /** With one space between two words. */
  function Joined(words: seq<string>): string {
    if words == [] then []
    else if |words| == 1 then words[0]
    else Joined(words[..|words| - 1]) + [' '] + words[|words| - 1]
  }

  /** A word of its own: not empty, and without whitespace. */
  predicate IsSolid(w: string) {
    w != [] && forall i :: 0 <= i < |w| ==> !IsWhitespace(w[i])
  }

  predicate AreSolid(words: seq<string>) {
    forall i :: 0 <= i < |words| ==> IsSolid(words[i])
  }

  lemma OneMoreOfWords(s: string, c: char)
    ensures IsWhitespace(c) ==> Words(s + [c]) == Words(s)
    ensures !IsWhitespace(c) && !EndsInWord(s) ==> Words(s + [c]) == Words(s) + [[c]]
    ensures !IsWhitespace(c) && EndsInWord(s) ==> Words(s + [c]) == Grown(Words(s), c)
  {
    assert (s + [c])[..|s|] == s;
  }

  lemma NoWords()
    ensures Words([]) == [] && Joined([]) == []
  {
  }

  lemma {:induction false} WordsOfOneMore(s: string, w: string)
    requires !EndsInWord(s) && IsSolid(w)
    ensures Words(s + w) == Words(s) + [w]
  {
    hide Words;
    var before, c := w[..|w| - 1], w[|w| - 1];
    assert s + w == (s + before) + [c];
    OneMoreOfWords(s + before, c);
    if before == [] {
      assert s + before == s && w == [c];
    } else {
      WordsOfOneMore(s, before);
      assert w == before + [c];
    }
  }

  /** Joining loses no word and makes none. */
  lemma {:induction false} WordsOfJoined(words: seq<string>)
    requires AreSolid(words)
    ensures Words(Joined(words)) == words
  {
    hide Words;
    if words == [] {
      NoWords();
    } else if |words| == 1 {
      NoWords();
      WordsOfOneMore([], words[0]);
      assert [] + words[0] == words[0];
    } else {
      var front, w := words[..|words| - 1], words[|words| - 1];
      WordsOfJoined(front);
      OneMoreOfWords(Joined(front), ' ');
      WordsOfOneMore(Joined(front) + [' '], w);
    }
  }

  lemma {:induction false} WordsAreSolid(s: string)
    ensures AreSolid(Words(s))
  {
    hide IsWhitespace, Words;
    if s == [] {
      NoWords();
    } else {
      var before, c := s[..|s| - 1], s[|s| - 1];
      WordsAreSolid(before);
      assert s == before + [c];
      OneMoreOfWords(before, c);
    }
  }

  /** Whitespace in front makes no word. */
  lemma {:induction false} WordsBehindSpace(c: char, s: string)
    requires IsWhitespace(c)
    ensures Words([c] + s) == Words(s)
  {
    hide IsWhitespace, Words;
    if s == [] {
      assert [c] + s == [] + [c];
      OneMoreOfWords([], c);
    } else {
      var before, d := s[..|s| - 1], s[|s| - 1];
      WordsBehindSpace(c, before);
      assert s == before + [d] && [c] + s == ([c] + before) + [d];
      OneMoreOfWords(before, d);
      OneMoreOfWords([c] + before, d);
    }
  }

  lemma {:induction false} WordsOfTrimmedStart(s: string)
    ensures Words(TrimStart(s)) == Words(s)
  {
    hide IsWhitespace, Words;
    if s != [] && IsWhitespace(s[0]) {
      WordsOfTrimmedStart(s[1..]);
      WordsBehindSpace(s[0], s[1..]);
      assert s == [s[0]] + s[1..];
    }
  }

  lemma {:induction false} WordsOfTrimmedEnd(s: string)
    ensures Words(TrimEnd(s)) == Words(s)
  {
    hide IsWhitespace, Words;
    if s != [] && IsWhitespace(s[|s| - 1]) {
      var before := s[..|s| - 1];
      WordsOfTrimmedEnd(before);
      OneMoreOfWords(before, s[|s| - 1]);
      assert s == before + [s[|s| - 1]];
    }
  }

  lemma WordsOfTrimmed(s: string)
    ensures Words(Trim(s)) == Words(s)
  {
    WordsOfTrimmedStart(s);
    WordsOfTrimmedEnd(TrimStart(s));
  }

  /** How many words there are depends on the whitespace alone. */
  lemma {:induction false} WordCount(s: string, t: string)
    requires |s| == |t| && forall i :: 0 <= i < |s| ==> (IsWhitespace(s[i]) <==> IsWhitespace(t[i]))
    ensures |Words(s)| == |Words(t)|
  {
    hide IsWhitespace, Words;
    if s == [] {
      assert t == [];
    } else {
      var frontS, frontT := s[..|s| - 1], t[..|t| - 1];
      WordCount(frontS, frontT);
      assert s == frontS + [s[|s| - 1]] && t == frontT + [t[|t| - 1]];
      OneMoreOfWords(frontS, s[|s| - 1]);
      OneMoreOfWords(frontT, t[|t| - 1]);
    }
  }

  /** The first word stays the first, whatever follows behind a space. */
  lemma {:induction false} FirstWordStays(first: string, rest: string)
    requires IsSolid(first) && (rest == [] || IsWhitespace(rest[0]))
    ensures Words(first + rest) != [] && Words(first + rest)[0] == first
    ensures rest != [] && EndsInWord(first + rest) ==> |Words(first + rest)| > 1
  {
    hide IsWhitespace, Words;
    if rest == [] {
      NoWords();
      WordsOfOneMore([], first);
      assert first + rest == first && [] + first == first;
    } else {
      var before, c := rest[..|rest| - 1], rest[|rest| - 1];
      FirstWordStays(first, before);
      assert first + rest == (first + before) + [c];
      assert before == [] ==> c == rest[0];
      OneMoreOfWords(first + before, c);
    }
  }
}
