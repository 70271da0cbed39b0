/**
 * The `HH:MM:SS` timestamp grammar of `is_valid_time_format`
 * (video_clipper.py:187-191) and the string order `add_command` uses to
 * compare a start with an end (video_clipper.py:339).
 */
module Timestamps {

  predicate IsDigit(c: char)
  {
    '0' <= c <= '9'
  }

  function DigitValue(c: char): (d: nat)
    requires IsDigit(c)
    ensures d < 10
  {
    c as int - '0' as int
  }

  /** The pattern `^\d{2}:\d{2}:\d{2}$`, read as exactly eight ASCII characters. */
  predicate HasTimeShape(t: string)
  {
    && |t| == 8
    && IsDigit(t[0]) && IsDigit(t[1]) && t[2] == ':'
    && IsDigit(t[3]) && IsDigit(t[4]) && t[5] == ':'
    && IsDigit(t[6]) && IsDigit(t[7])
  }

  /** `int` of the two digits at positions i and i + 1. */
  function TwoDigits(t: string, i: nat): (n: nat)
    requires i + 1 < |t| && IsDigit(t[i]) && IsDigit(t[i + 1])
    ensures n < 100
  {
    10 * DigitValue(t[i]) + DigitValue(t[i + 1])
  }

  function Hours(t: string): nat
    requires HasTimeShape(t)
  {
    TwoDigits(t, 0)
  }

  function Minutes(t: string): nat
    requires HasTimeShape(t)
  {
    TwoDigits(t, 3)
  }

  function Seconds(t: string): nat
    requires HasTimeShape(t)
  {
    TwoDigits(t, 6)
  }

  /** `is_valid_time_format`: the shape, then the lenient bounds hours <= 24, minutes <= 60, seconds <= 60. */
  predicate IsValidTimeFormat(t: string)
  {
    HasTimeShape(t) && Hours(t) <= 24 && Minutes(t) <= 60 && Seconds(t) <= 60
  }

  /** A number below 100 written with two digits, zero-padded. */
  function Pad2(n: nat): string
    requires n < 100
  {
    [('0' as int + n / 10) as char, ('0' as int + n % 10) as char]
  }

  /** The timestamp text for hours, minutes and seconds: an independent description of the grammar. */
  function Render(h: nat, m: nat, s: nat): string
    requires h < 100 && m < 100 && s < 100
  {
    Pad2(h) + ":" + Pad2(m) + ":" + Pad2(s)
  }

  /** Every accepted timestamp is the rendering of its own fields, which lie in the accepted ranges. */
  lemma ValidTimeIsRendered(t: string)
    requires IsValidTimeFormat(t)
    ensures Hours(t) <= 24 && Minutes(t) <= 60 && Seconds(t) <= 60
    ensures t == Render(Hours(t), Minutes(t), Seconds(t))
  {
    var r := Render(Hours(t), Minutes(t), Seconds(t));
    assert |r| == 8;
    forall i | 0 <= i < 8
      ensures t[i] == r[i]
    {
    }
  }

  /** Every rendering with hours in 0..24 and minutes and seconds in 0..60 is accepted and reads back its fields. */
  lemma RenderedTimeIsValid(h: nat, m: nat, s: nat)
    requires h <= 24 && m <= 60 && s <= 60
    ensures IsValidTimeFormat(Render(h, m, s))
    ensures Hours(Render(h, m, s)) == h && Minutes(Render(h, m, s)) == m && Seconds(Render(h, m, s)) == s
  {
  }

  /** The grammar exactly: a string is accepted iff it renders some hours <= 24, minutes <= 60 and seconds <= 60. */
  lemma ValidTimeFormatIff(t: string)
    ensures IsValidTimeFormat(t) <==>
      exists h: nat, m: nat, s: nat :: h <= 24 && m <= 60 && s <= 60 && t == Render(h, m, s)
  {
    if IsValidTimeFormat(t) {
      ValidTimeIsRendered(t);
      assert Hours(t) <= 24 && Minutes(t) <= 60 && Seconds(t) <= 60 && t == Render(Hours(t), Minutes(t), Seconds(t));
    }
    if exists h: nat, m: nat, s: nat :: h <= 24 && m <= 60 && s <= 60 && t == Render(h, m, s) {
      var h: nat, m: nat, s: nat :| h <= 24 && m <= 60 && s <= 60 && t == Render(h, m, s);
      RenderedTimeIsValid(h, m, s);
    }
  }

  /** The bounds are inclusive and lenient: 24, 60 and 60 are accepted, one more is not. */
  lemma LenientUpperBounds()
    ensures IsValidTimeFormat("24:60:60")
    ensures !IsValidTimeFormat("25:00:00") && !IsValidTimeFormat("00:61:00") && !IsValidTimeFormat("00:00:61")
    ensures !IsValidTimeFormat("0:00:00") && !IsValidTimeFormat("00:00:000")
  {
    RenderedTimeIsValid(24, 60, 60);
    assert Render(24, 60, 60) == "24:60:60";
    assert Hours("25:00:00") == 25;
    assert Minutes("00:61:00") == 61;
    assert Seconds("00:00:61") == 61;
  }

  /** Python's `str` ordering `a < b`: by code point at the first difference, a proper prefix first. */
  predicate LexLess(a: string, b: string)
  {
    if |a| == 0 then |b| != 0
    else if |b| == 0 then false
    else if a[0] != b[0] then a[0] < b[0]
    else LexLess(a[1..], b[1..])
  }

  /** Comparing two concatenations whose first parts have the same length. */
  lemma {:induction false} LexLessAppend(a1: string, a2: string, b1: string, b2: string)
    requires |a1| == |b1|
    ensures LexLess(a1 + a2, b1 + b2) <==> LexLess(a1, b1) || (a1 == b1 && LexLess(a2, b2))
  {
    if |a1| == 0 {
      assert a1 + a2 == a2 && b1 + b2 == b2 && a1 == b1;
    } else {
      assert (a1 + a2)[0] == a1[0] && (b1 + b2)[0] == b1[0];
      if a1[0] == b1[0] {
        assert (a1 + a2)[1..] == a1[1..] + a2;
        assert (b1 + b2)[1..] == b1[1..] + b2;
        LexLessAppend(a1[1..], a2, b1[1..], b2);
        assert a1 == [a1[0]] + a1[1..] && b1 == [b1[0]] + b1[1..];
        assert a1 == b1 <==> a1[1..] == b1[1..];
      }
    }
  }

  lemma LexLessTwoDigits(t: string, u: string, i: nat)
    requires i + 1 < |t| && i + 1 < |u|
    requires IsDigit(t[i]) && IsDigit(t[i + 1]) && IsDigit(u[i]) && IsDigit(u[i + 1])
    ensures LexLess(t[i..i + 2], u[i..i + 2]) <==> TwoDigits(t, i) < TwoDigits(u, i)
    ensures t[i..i + 2] == u[i..i + 2] <==> TwoDigits(t, i) == TwoDigits(u, i)
  {
    var a, b := t[i..i + 2], u[i..i + 2];
    assert a == [t[i], t[i + 1]] && b == [u[i], u[i + 1]];
    assert a[1..] == [t[i + 1]] && b[1..] == [u[i + 1]];
    assert a[1..][1..] == [] && b[1..][1..] == [];
    assert !LexLess(a[1..][1..], b[1..][1..]);
    if t[i] == u[i] {
      assert LexLess(a, b) == LexLess(a[1..], b[1..]);
    }
  }

  /** Between two accepted timestamps the string order is the order of (hours, minutes, seconds). */
  lemma LexLessIsTimeOrder(a: string, b: string)
    requires HasTimeShape(a) && HasTimeShape(b)
    ensures LexLess(a, b) <==>
      || Hours(a) < Hours(b)
      || (Hours(a) == Hours(b) && Minutes(a) < Minutes(b))
      || (Hours(a) == Hours(b) && Minutes(a) == Minutes(b) && Seconds(a) < Seconds(b))
  {
    LexLessTwoDigits(a, b, 0);
    LexLessTwoDigits(a, b, 3);
    LexLessTwoDigits(a, b, 6);
    assert a == a[0..2] + (a[2..3] + (a[3..5] + (a[5..6] + a[6..8])));
    assert b == b[0..2] + (b[2..3] + (b[3..5] + (b[5..6] + b[6..8])));
    assert a[2..3] == b[2..3] == ":" && a[5..6] == b[5..6] == ":";
    assert !LexLess(":", ":");
    LexLessAppend(a[0..2], a[2..3] + (a[3..5] + (a[5..6] + a[6..8])), b[0..2], b[2..3] + (b[3..5] + (b[5..6] + b[6..8])));
    LexLessAppend(a[2..3], a[3..5] + (a[5..6] + a[6..8]), b[2..3], b[3..5] + (b[5..6] + b[6..8]));
    LexLessAppend(a[3..5], a[5..6] + a[6..8], b[3..5], b[5..6] + b[6..8]);
    LexLessAppend(a[5..6], a[6..8], b[5..6], b[6..8]);
  }
}
