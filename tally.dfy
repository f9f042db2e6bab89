/** The letter tally and the common-letters ("ETAOIN SHRDLU") score. */
module Tally {
  import opened Alphabet

  /** The twelve most frequent English letters, in mnemonic order. */
  const Etaoin: string := "ETAOINSHRDLU"

  /** A score kept as an exact fraction `num / den`. */
  datatype Ratio = Ratio(num: nat, den: nat)

  /** The alphabetic characters of `text`, upper-cased, in order. */
  function Letters(text: string): seq<char> {
    if text == [] then []
    else
      var last := text[|text| - 1];
      Letters(text[..|text| - 1]) + (if IsAlpha(last) then [ToUpper(last)] else [])
  }

  /** `letter_counts_only`: how often each upper-case letter occurs, as a multiset
      (the counter of the upper-cased alphabetic characters). */
  function LetterCounts(text: string): (counts: multiset<char>)
    ensures |counts| == |AlphaIndices(text)|
  {
    LettersOfText(text);
    multiset(Letters(text))
  }

  /** Positions of the alphabetic characters of `text`. */
  ghost function AlphaIndices(text: string): set<int> {
    set i | 0 <= i < |text| && IsAlpha(text[i])
  }

  /** A letter that, upper-cased, is one of ETAOIN. */
  predicate IsCommon(c: char) {
    IsAlpha(c) && ToUpper(c) in Etaoin
  }

  /** Positions of the letters of `text` whose upper-case form is in ETAOIN. */
  ghost function CommonIndices(text: string): set<int> {
    set i | 0 <= i < |text| && IsCommon(text[i])
  }

  /** No character occurs twice in `s`. */
  predicate Distinct(s: seq<char>) {
    forall i, j :: 0 <= i < j < |s| ==> s[i] != s[j]
  }

  /** `sum(counts.get(ch, 0) for ch in letters)`. */
  function SumCounts(counts: multiset<char>, letters: seq<char>): nat {
    if letters == [] then 0 else counts[letters[0]] + SumCounts(counts, letters[1..])
  }

  /** `etaoin_score`: the share of the letters of `text` that are in ETAOIN, as an
      exact fraction; 0 (as 0/1) when the text has no letters. */
  function EtaoinScore(text: string): (r: Ratio)
    ensures 0 < r.den && r.num <= r.den
    ensures |AlphaIndices(text)| == 0 ==> r.num == 0
    ensures |AlphaIndices(text)| > 0 ==>
      r.num == |CommonIndices(text)| && r.den == |AlphaIndices(text)|
  {
    var counts := LetterCounts(text);
    var n := |counts|;
    CommonTotal(text);
    CommonWithinAlpha(text);
    if n == 0 then Ratio(0, 1) else Ratio(SumCounts(counts, Etaoin), n)
  }

  /** Splitting off the last character of a text. */
  lemma SplitLast(text: string)
    requires text != []
    ensures text == text[..|text| - 1] + [text[|text| - 1]]
    ensures multiset(text) == multiset(text[..|text| - 1]) + multiset{text[|text| - 1]}
  {
    assert text == text[..|text| - 1] + [text[|text| - 1]];
  }

  /** How both position sets grow when one character is appended. */
  lemma IndicesStep(text: string)
    requires text != []
    ensures AlphaIndices(text) ==
      AlphaIndices(text[..|text| - 1]) + (if IsAlpha(text[|text| - 1]) then {|text| - 1} else {})
    ensures CommonIndices(text) ==
      CommonIndices(text[..|text| - 1]) + (if IsCommon(text[|text| - 1]) then {|text| - 1} else {})
  {
  }

  /** There is one letter per alphabetic position of the text. */
  lemma {:induction false} LettersOfText(text: string)
    ensures |Letters(text)| == |AlphaIndices(text)|
  {
    if text != [] {
      var n := |text| - 1;
      var prefix := text[..n];
      LettersOfText(prefix);
      IndicesStep(text);
    }
  }

  /** Each upper-case letter is counted once for every occurrence of it in either
      case; nothing else is counted. */
  lemma {:induction false} LetterCountsOf(text: string, c: char)
    ensures LetterCounts(text)[c] ==
      if IsUpper(c) then multiset(text)[c] + multiset(text)[ToLower(c)] else 0
  {
    if text != [] {
      var n := |text| - 1;
      LetterCountsOf(text[..n], c);
      SplitLast(text);
    }
  }

  /** Sums of counts add up over a multiset sum. */
  lemma {:induction false} SumCountsAdd(a: multiset<char>, b: multiset<char>, letters: seq<char>)
    ensures SumCounts(a + b, letters) == SumCounts(a, letters) + SumCounts(b, letters)
  {
    if letters != [] {
      SumCountsAdd(a, b, letters[1..]);
    }
  }

  /** Over distinct letters, a single character is counted once if it is one of
      them and not at all otherwise. */
  lemma {:induction false} SumCountsSingle(x: char, letters: seq<char>)
    requires Distinct(letters)
    ensures SumCounts(multiset{x}, letters) == if x in letters then 1 else 0
  {
    if letters != [] {
      assert Distinct(letters[1..]);
      SumCountsSingle(x, letters[1..]);
      assert letters == [letters[0]] + letters[1..];
      if x == letters[0] {
        assert x !in letters[1..];
      }
    }
  }

  /** The numerator `etaoin_score` sums is the number of letters of the text that
      fall in ETAOIN. */
  lemma {:induction false} CommonTotal(text: string)
    ensures SumCounts(LetterCounts(text), Etaoin) == |CommonIndices(text)|
  {
    if text == [] {
      assert CommonIndices(text) == {};
      SumCountsZero(Etaoin);
    } else {
      var n := |text| - 1;
      var prefix := text[..n];
      var last := text[n];
      CommonTotal(prefix);
      var extra := if IsAlpha(last) then [ToUpper(last)] else [];
      assert Letters(text) == Letters(prefix) + extra;
      SumCountsAdd(LetterCounts(prefix), multiset(extra), Etaoin);
      IndicesStep(text);
      if IsAlpha(last) {
        EtaoinDistinct();
        SumCountsSingle(ToUpper(last), Etaoin);
      } else {
        SumCountsZero(Etaoin);
      }
    }
  }

  /** The twelve letters of ETAOIN are all different. */
  lemma EtaoinDistinct()
    ensures Distinct(Etaoin)
  {
  }

  /** An empty tally sums to zero. */
  lemma {:induction false} SumCountsZero(letters: seq<char>)
    ensures SumCounts(multiset{}, letters) == 0
  {
    if letters != [] {
      SumCountsZero(letters[1..]);
    }
  }

  /** There are never more common letters than letters. */
  lemma {:induction false} CommonWithinAlpha(text: string)
    ensures |CommonIndices(text)| <= |AlphaIndices(text)|
  {
    if text != [] {
      var n := |text| - 1;
      var prefix := text[..n];
      CommonWithinAlpha(prefix);
      IndicesStep(text);
    }
  }

  /** Worked example: the letters of "Hello,", character by character. */
  lemma HelloLetters()
    ensures Letters("Hello,") == "HELLO"
  {
    assert Letters("H") == "H";
    assert "He"[..1] == "H";
    assert Letters("He") == "HE";
    assert "Hel"[..2] == "He";
    assert Letters("Hel") == "HEL";
    assert "Hell"[..3] == "Hel";
    assert Letters("Hell") == "HELL";
    assert "Hello"[..4] == "Hell";
    assert Letters("Hello") == "HELLO";
    assert "Hello,"[..5] == "Hello";
    assert Letters("Hello,") == "HELLO";
  }

  /** Worked example: the letters of "Hello, World", character by character. */
  lemma HelloWorldLettersPrefix()
    ensures Letters("Hello, World") == "HELLOWORLD"
  {
    HelloLetters();
    assert "Hello, "[..6] == "Hello,";
    assert Letters("Hello, ") == "HELLO";
    assert "Hello, W"[..7] == "Hello, ";
    assert Letters("Hello, W") == "HELLOW";
    assert "Hello, Wo"[..8] == "Hello, W";
    assert Letters("Hello, Wo") == "HELLOWO";
    assert "Hello, Wor"[..9] == "Hello, Wo";
    assert Letters("Hello, Wor") == "HELLOWOR";
    assert "Hello, Worl"[..10] == "Hello, Wor";
    assert Letters("Hello, Worl") == "HELLOWORL";
    assert "Hello, World"[..11] == "Hello, Worl";
    assert Letters("Hello, World") == "HELLOWORLD";
  }

  /** Worked example: the letters of "Hello, World! 123", character by character. */
  lemma HelloWorldLetters()
    ensures Letters("Hello, World! 123") == "HELLOWORLD"
  {
    HelloWorldLettersPrefix();
    assert "Hello, World!"[..12] == "Hello, World";
    assert Letters("Hello, World!") == "HELLOWORLD";
    assert "Hello, World! "[..13] == "Hello, World!";
    assert Letters("Hello, World! ") == "HELLOWORLD";
    assert "Hello, World! 1"[..14] == "Hello, World! ";
    assert Letters("Hello, World! 1") == "HELLOWORLD";
    assert "Hello, World! 12"[..15] == "Hello, World! 1";
    assert Letters("Hello, World! 12") == "HELLOWORLD";
    assert "Hello, World! 123"[..16] == "Hello, World! 12";
    assert Letters("Hello, World! 123") == "HELLOWORLD";
  }

  /** Worked example: the tally of "Hello, World! 123" is H:1 E:1 L:3 O:2 W:1 R:1 D:1,
      ten letters in all. */
  lemma HelloWorldTally()
    ensures LetterCounts("Hello, World! 123") ==
      multiset{'H', 'E', 'L', 'L', 'O', 'W', 'O', 'R', 'L', 'D'}
  {
    HelloWorldLetters();
    assert "HELLOWORLD" == ['H', 'E', 'L', 'L', 'O', 'W', 'O', 'R', 'L', 'D'];
  }

  /** Worked example: the ETAOIN sum over that tally is 9 (W is the one letter outside). */
  lemma HelloWorldCommon()
    ensures SumCounts(multiset{'H', 'E', 'L', 'L', 'O', 'W', 'O', 'R', 'L', 'D'}, Etaoin) == 9
  {
    var m := multiset{'H', 'E', 'L', 'L', 'O', 'W', 'O', 'R', 'L', 'D'};
    assert Etaoin == ['E', 'T', 'A', 'O', 'I', 'N', 'S', 'H', 'R', 'D', 'L', 'U'];
    assert SumCounts(m, Etaoin[11..]) == 0;      // U
    assert SumCounts(m, Etaoin[10..]) == 3;      // L
    assert SumCounts(m, Etaoin[9..]) == 4;       // D
    assert SumCounts(m, Etaoin[8..]) == 5;       // R
    assert SumCounts(m, Etaoin[7..]) == 6;       // H
    assert SumCounts(m, Etaoin[6..]) == 6;       // S
    assert SumCounts(m, Etaoin[5..]) == 6;       // N
    assert SumCounts(m, Etaoin[4..]) == 6;       // I
    assert SumCounts(m, Etaoin[3..]) == 8;       // O
    assert SumCounts(m, Etaoin[2..]) == 8;       // A
    assert SumCounts(m, Etaoin[1..]) == 8;       // T
    assert SumCounts(m, Etaoin) == 9;            // E
  }

  /** Worked example: the score of "Hello, World! 123" is 9/10. */
  lemma HelloWorldScore()
    ensures EtaoinScore("Hello, World! 123") == Ratio(9, 10)
  {
    HelloWorldTally();
    HelloWorldCommon();
    assert |multiset{'H', 'E', 'L', 'L', 'O', 'W', 'O', 'R', 'L', 'D'}| == 10;
  }
}
