/**
 The template filter that renders an eleven-digit Russian phone number as
 "+7 (XXX) XXX-XX-XX". Anything else is shown exactly as stored.
 */
module RestaurantExtras {

  predicate IsDigit(c: char)
  {
    '0' <= c <= '9'
  }

  predicate AllDigits(s: string)
  {
    forall i :: 0 <= i < |s| ==> IsDigit(s[i])
  }

  /**
   A value of exactly eleven characters, all of them digits. The filter's
   test that the value is non-empty is implied by the length test.
   */
  predicate Formattable(v: string)
  {
    |v| == 11 && AllDigits(v)
  }

  /**
   The leading digit, whatever it is, is dropped and the country code
   +7 written in its place; the other ten digits follow in groups of 3-3-2-2.
   */
  function FormatPhone(v: string): (r: string)
    ensures Formattable(v) ==> |r| == 18
    ensures Formattable(v) ==>
              && r[..4] == "+7 (" && r[4..7] == v[1..4]
              && r[7..9] == ") " && r[9..12] == v[4..7]
              && r[12] == '-' && r[13..15] == v[7..9]
              && r[15] == '-' && r[16..] == v[9..]
    ensures !Formattable(v) ==> r == v
  {
    if Formattable(v) then "+7 (" + v[1..4] + ") " + v[4..7] + "-" + v[7..9] + "-" + v[9..]
    else v
  }

  /** The digits of `s`, in order, with every other character dropped. */
  function Digits(s: string): (d: string)
    ensures AllDigits(d)
  {
    if |s| == 0 then []
    else (if IsDigit(s[0]) then [s[0]] else []) + Digits(s[1..])
  }

  lemma {:induction false} DigitsConcat(a: string, b: string)
    ensures Digits(a + b) == Digits(a) + Digits(b)
  {
    if |a| == 0 {
      assert a + b == b;
    } else {
      var ab := a + b;
      assert ab[0] == a[0] && ab[1..] == a[1..] + b;
      var head := if IsDigit(a[0]) then [a[0]] else [];
      assert Digits(ab) == head + Digits(ab[1..]);
      assert Digits(a) == head + Digits(a[1..]);
      DigitsConcat(a[1..], b);
      assert head + (Digits(a[1..]) + Digits(b)) == (head + Digits(a[1..])) + Digits(b);
    }
  }

  lemma {:induction false} DigitsOfDigits(s: string)
    requires AllDigits(s)
    ensures Digits(s) == s
  {
    if |s| > 0 {
      DigitsOfDigits(s[1..]);
    }
  }

  lemma SeparatorDigits()
    ensures Digits("+7 (") == "7"
    ensures Digits(") ") == ""
    ensures Digits("-") == ""
  {
  }

  /** Appending a digit-free separator and then digits appends just those digits. */
  lemma DigitsAppend(p: string, sep: string, x: string)
    requires Digits(sep) == [] && AllDigits(x)
    ensures Digits(p + sep + x) == Digits(p) + x
  {
    DigitsConcat(p, sep);
    DigitsConcat(p + sep, x);
    DigitsOfDigits(x);
    assert Digits(p) + [] == Digits(p);
  }

  /** The separators of the layout contribute only the country code 7. */
  lemma LayoutDigits(a: string, b: string, c: string, d: string)
    requires AllDigits(a) && AllDigits(b) && AllDigits(c) && AllDigits(d)
    ensures Digits("+7 (" + a + ") " + b + "-" + c + "-" + d) == "7" + a + b + c + d
  {
    SeparatorDigits();
    DigitsConcat("+7 (", a);
    DigitsOfDigits(a);
    var p1 := "+7 (" + a;
    assert Digits(p1) == "7" + a;
    DigitsAppend(p1, ") ", b);
    var p2 := p1 + ") " + b;
    assert Digits(p2) == "7" + a + b;
    DigitsAppend(p2, "-", c);
    var p3 := p2 + "-" + c;
    assert Digits(p3) == "7" + a + b + c;
    DigitsAppend(p3, "-", d);
  }

  /** Every piece of an all-digit string is all digits. */
  lemma SliceDigits(v: string, i: nat, j: nat)
    requires AllDigits(v) && i <= j <= |v|
    ensures AllDigits(v[i..j])
  {
    forall k | 0 <= k < j - i ensures IsDigit(v[i..j][k]) {
      assert v[i..j][k] == v[i + k];
    }
  }

  /** A formatted number is the layout filled with the four digit groups after the first digit. */
  lemma FormatPhoneLayout(v: string)
    requires Formattable(v)
    ensures FormatPhone(v) == "+7 (" + v[1..][..3] + ") " + v[1..][3..6] + "-" + v[1..][6..8] + "-" + v[1..][8..]
  {
    var t := v[1..];
    assert v[1..4] == t[..3] && v[4..7] == t[3..6] && v[7..9] == t[6..8] && v[9..] == t[8..];
  }

  /** The ten digits after the first are the concatenation of the four groups. */
  lemma TailGroups(v: string)
    requires |v| == 11
    ensures v[1..] == v[1..4] + v[4..7] + v[7..9] + v[9..]
  {
  }

  /**
   Reading the digits back out of a formatted number gives the country code 7
   followed by exactly the last ten input digits, in order.
   */
  lemma FormatPhoneDigits(v: string)
    requires Formattable(v)
    ensures Digits(FormatPhone(v)) == "7" + v[1..]
  {
    var a, b, c, d := v[1..4], v[4..7], v[7..9], v[9..];
    SliceDigits(v, 1, 4);
    SliceDigits(v, 4, 7);
    SliceDigits(v, 7, 9);
    SliceDigits(v, 9, 11);
    assert d == v[9..11];
    LayoutDigits(a, b, c, d);
    TailGroups(v);
    assert FormatPhone(v) == "+7 (" + a + ") " + b + "-" + c + "-" + d;
  }

  /** Only the first digit is discarded: numbers that differ only there look the same. */
  lemma FormatPhoneIgnoresLeadingDigit(v: string, w: string)
    requires Formattable(v) && Formattable(w) && v[1..] == w[1..]
    ensures FormatPhone(v) == FormatPhone(w)
  {
    FormatPhoneLayout(v);
    FormatPhoneLayout(w);
  }

  /** A value is shown unchanged exactly when it is not an eleven-digit number. */
  lemma FormatPhoneFixpoints(v: string)
    ensures FormatPhone(v) == v <==> !Formattable(v)
  {
  }

  /** Formatting twice is formatting once: a formatted number holds non-digits. */
  lemma FormatPhoneIdempotent(v: string)
    ensures FormatPhone(FormatPhone(v)) == FormatPhone(v)
  {
  }
}
