/** The shift transform: rotate every letter within its own case alphabet. */
module Shift {
  import opened Alphabet

  /** Rotates one letter forward by `shift` mod 26 places, wrapping round within
      its case; any other character comes back unchanged. */
  function ShiftChar(c: char, shift: int): char {
    var k := shift % 26;
    if IsAlpha(c) then
      var base := if IsUpper(c) then 'A' as int else 'a' as int;
      ((c as int - base + k) % 26 + base) as char
    else
      c
  }

  /** The text with every character shifted: the value `caesar_shift` returns.
      Letters stay letters of the same case and every other character stays
      where it was. */
  function Shifted(text: string, shift: int): (r: string)
    ensures |r| == |text|
    ensures forall i :: 0 <= i < |text| ==>
      (IsUpper(r[i]) <==> IsUpper(text[i])) && (IsLower(r[i]) <==> IsLower(text[i]))
    ensures forall i :: 0 <= i < |text| && !IsAlpha(text[i]) ==> r[i] == text[i]
  {
    seq(|text|, i requires 0 <= i < |text| => ShiftChar(text[i], shift))
  }

  /** The loop of `caesar_shift`: one output character appended per input character. */
  method CaesarShift(text: string, shift: int) returns (r: string)
    ensures r == Shifted(text, shift)
    ensures |r| == |text|
    ensures forall i :: 0 <= i < |text| && !IsAlpha(text[i]) ==> r[i] == text[i]
    ensures forall i :: 0 <= i < |text| && IsUpper(text[i]) ==>
      IsUpper(r[i]) && r[i] as int - 'A' as int == (text[i] as int - 'A' as int + shift) % 26
    ensures forall i :: 0 <= i < |text| && IsLower(text[i]) ==>
      IsLower(r[i]) && r[i] as int - 'a' as int == (text[i] as int - 'a' as int + shift) % 26
  {
    var k := shift % 26;
    var resultChars: seq<char> := [];
    for i := 0 to |text|
      invariant |resultChars| == i
      invariant forall j :: 0 <= j < i ==> resultChars[j] == ShiftChar(text[j], shift)
    {
      var ch := text[i];
      if IsAlpha(ch) {
        var base := if IsUpper(ch) then 'A' as int else 'a' as int;
        var newOrd := (ch as int - base + k) % 26 + base;
        resultChars := resultChars + [newOrd as char];
      } else {
        resultChars := resultChars + [ch];
      }
    }
    r := resultChars;
    forall i | 0 <= i < |text|
      ensures !IsAlpha(text[i]) ==> r[i] == text[i]
      ensures IsUpper(text[i]) ==>
        IsUpper(r[i]) && r[i] as int - 'A' as int == (text[i] as int - 'A' as int + shift) % 26
      ensures IsLower(text[i]) ==>
        IsLower(r[i]) && r[i] as int - 'a' as int == (text[i] as int - 'a' as int + shift) % 26
    {
      ShiftCharSpec(text[i], shift);
    }
  }

  /** Reducing mod 26 before adding changes nothing mod 26. */
  lemma ModAdd(m: int, b: int)
    ensures (m % 26 + b) % 26 == (m + b) % 26
  {
    assert m == 26 * (m / 26) + m % 26;
  }

  /** What ShiftChar does to each class of character: the case is kept, the
      offset of a letter in its alphabet moves by `shift` mod 26, other
      characters stay put. */
  lemma ShiftCharSpec(c: char, shift: int)
    ensures IsUpper(ShiftChar(c, shift)) <==> IsUpper(c)
    ensures IsLower(ShiftChar(c, shift)) <==> IsLower(c)
    ensures IsUpper(c) ==>
      ShiftChar(c, shift) as int - 'A' as int == (c as int - 'A' as int + shift) % 26
    ensures IsLower(c) ==>
      ShiftChar(c, shift) as int - 'a' as int == (c as int - 'a' as int + shift) % 26
    ensures !IsAlpha(c) ==> ShiftChar(c, shift) == c
  {
  }

  /** Shifting by `a` and then by `b` is shifting by `a + b`. */
  lemma ShiftCharCompose(c: char, a: int, b: int)
    ensures ShiftChar(ShiftChar(c, a), b) == ShiftChar(c, a + b)
  {
    var d := ShiftChar(c, a);
    ShiftCharSpec(c, a);
    ShiftCharSpec(d, b);
    ShiftCharSpec(c, a + b);
    if IsUpper(c) {
      ModAdd(c as int - 'A' as int + a, b);
    } else if IsLower(c) {
      ModAdd(c as int - 'a' as int + a, b);
    }
  }

  /** A shift by 0 is the identity on characters. */
  lemma ShiftCharZero(c: char)
    ensures ShiftChar(c, 0) == c
  {
    ShiftCharSpec(c, 0);
  }

  /** The shift is normalised first: any key behaves like its residue mod 26
      (so -3 behaves like 23). */
  lemma ShiftNormalised(text: string, shift: int)
    ensures Shifted(text, shift) == Shifted(text, shift % 26)
  {
    assert (shift % 26) % 26 == shift % 26;
  }

  /** A shift by 0 returns the text unchanged. */
  lemma ShiftZero(text: string)
    ensures Shifted(text, 0) == text
  {
    forall i | 0 <= i < |text|
      ensures Shifted(text, 0)[i] == text[i]
    {
      ShiftCharZero(text[i]);
    }
  }

  /** Two shifts in a row add up. */
  lemma ShiftCompose(text: string, a: int, b: int)
    ensures Shifted(Shifted(text, a), b) == Shifted(text, a + b)
  {
    forall i | 0 <= i < |text|
      ensures Shifted(Shifted(text, a), b)[i] == Shifted(text, a + b)[i]
    {
      ShiftCharCompose(text[i], a, b);
    }
  }

  /** Shifting back by the negated amount restores the text, for every integer shift. */
  lemma ShiftInverse(text: string, k: int)
    ensures Shifted(Shifted(text, k), -k) == text
  {
    ShiftCompose(text, k, -k);
    ShiftZero(text);
  }
}
