/** The numeric fields of a tar header: snprintf("%.<w>o") on the way out, strtol(..., 8) on the way in. */
module Octal {
  import opened ByteStrings

  predicate IsDigit(c: byte) { ZERO_DIGIT <= c < ZERO_DIGIT + 8 }

  predicate IsSpace(c: byte) { c == SPACE || 9 <= c <= 13 }

  function Power8(w: nat): (r: nat)
    ensures r >= 1
  {
    if w == 0 then 1 else 8 * Power8(w - 1)
  }

  /** printf("%.<w>o", v): at least w octal digits, more when v needs them. */
  function Text(v: nat, w: nat): (r: Bytes)
    ensures |r| >= w
    ensures Digits(r)
  {
    if v == 0 && w == 0 then []
    else Text(v / 8, if w == 0 then 0 else w - 1) + [ZERO_DIGIT + v % 8]
  }

  /** snprintf(field, w + 1, "%.<w>o", v): the first w digits and a NUL. */
  function Field(v: nat, w: nat): (r: Bytes)
    ensures |r| == w + 1
  {
    Text(v, w)[..w] + [NUL]
  }

  predicate Digits(s: Bytes) { forall i :: 0 <= i < |s| ==> IsDigit(s[i]) }

  /** The number a run of octal digits denotes. */
  function Value(s: Bytes): nat
    requires Digits(s)
  {
    if s == [] then 0
    else 8 * Value(s[..|s| - 1]) + (s[|s| - 1] - ZERO_DIGIT)
  }

  function LeadingDigits(s: Bytes): (r: Bytes)
    ensures r <= s && Digits(r)
    ensures |r| < |s| ==> !IsDigit(s[|r|])
  {
    if s == [] || !IsDigit(s[0]) then [] else [s[0]] + LeadingDigits(s[1..])
  }

  /** strtol(s, NULL, 8) on a 64-bit long; at most twelve digits are ever read, so no saturation. */
  function StrToL(s: Bytes): int
  {
    if s != [] && IsSpace(s[0]) then StrToL(s[1..])
    else if s != [] && s[0] == 45 then -(Value(LeadingDigits(s[1..])) as int)
    else if s != [] && s[0] == 43 then Value(LeadingDigits(s[1..]))
    else Value(LeadingDigits(s))
  }

  lemma {:induction false} ValueOfText(v: nat, w: nat)
    ensures Value(Text(v, w)) == v
  {
    if v != 0 || w != 0 {
      var w' := if w == 0 then 0 else w - 1;
      ValueOfText(v / 8, w');
      assert Text(v, w)[..|Text(v, w)| - 1] == Text(v / 8, w');
    }
  }

  lemma {:induction false} TextLength(v: nat, w: nat)
    requires v < Power8(w)
    ensures |Text(v, w)| == w
  {
    if w == 0 {
      assert v == 0;
    } else {
      TextLength(v / 8, w - 1);
    }
  }

  lemma LeadingDigitsAre(s: Bytes, d: Bytes)
    requires d <= s && Digits(d)
    requires |d| < |s| ==> !IsDigit(s[|d|])
    ensures LeadingDigits(s) == d
  {
    var r := LeadingDigits(s);
    assert r == s[..|r|] && d == s[..|d|];
  }

  /** A field reads back as the number it was written for exactly when that number fits. */
  lemma FieldRoundTrip(v: nat, w: nat)
    requires w > 0
    ensures StrToL(CStr(Field(v, w))) == v <==> v < Power8(w)
  {
    var d := Text(v, w)[..w];
    assert NUL !in d;
    CStrIsUnique(Field(v, w), d);
    LeadingDigitsAre(d, d);
    assert StrToL(d) == Value(d);
    if v < Power8(w) {
      TextLength(v, w);
      ValueOfText(v, w);
      assert d == Text(v, w);
    } else {
      ValueBelow(d);
    }
  }

  /** The same for a reader that leaves out the field's last byte. */
  lemma FieldReadShort(v: nat, w: nat)
    requires w > 0 && v < Power8(w)
    ensures StrToL(CStr(Field(v, w)[..w])) == v
  {
    FieldRoundTrip(v, w);
    var d := Text(v, w)[..w];
    assert NUL !in d;
    CStrIsUnique(Field(v, w), d);
    CStrIsUnique(d, d);
    assert Field(v, w)[..w] == d;
  }

  lemma {:induction false} ValueBelow(d: Bytes)
    requires Digits(d)
    ensures Value(d) < Power8(|d|)
  {
    if d != [] {
      var front := d[..|d| - 1];
      ValueBelow(front);
    }
  }

  /** Without its last digit a text is the text of an eighth. */
  lemma TextFront(v: nat, w: nat)
    requires v > 0
    ensures |Text(v, w)| > 0
    ensures Text(v, w)[..|Text(v, w)| - 1] == Text(v / 8, if w == 0 then 0 else w - 1)
  {
  }

  lemma {:induction false} LongTextLength(v: nat, w: nat, k: nat)
    requires 0 < k && w <= k && Power8(k - 1) <= v < Power8(k)
    ensures |Text(v, w)| == k
  {
    if k > 1 {
      assert Power8(k - 1) == 8 * Power8(k - 2) && Power8(k) == 8 * Power8(k - 1);
      LongTextLength(v / 8, if w == 0 then 0 else w - 1, k - 1);
    } else {
      assert v < 8;
      assert Text(0, 0) == [];
    }
  }

  /** A number of eleven digits that is cut to seven leaves its leading part. */
  lemma ElevenDigitsCutToSeven(v: nat)
    requires 0x4000_0000 <= v < 0x2_0000_0000
    ensures StrToL(CStr(Field(v, 7))) == v / 4096
  {
    hide Value, LeadingDigits;
    LeadingSeven(v);
    ValueOfText(v / 4096, 3);
    var d := Text(v, 7)[..7];
    assert NUL !in d;
    CStrIsUnique(Field(v, 7), d);
    LeadingDigitsAre(d, d);
    assert StrToL(d) == Value(d);
  }

  lemma LeadingSeven(v: nat)
    requires 0x4000_0000 <= v < 0x2_0000_0000
    ensures Text(v, 7)[..7] == Text(v / 4096, 3)
  {
    assert Power8(10) == 0x4000_0000 && Power8(11) == 0x2_0000_0000 by {
      assert Power8(4) == 4096 && Power8(8) == 4096 * 4096;
    }
    LongTextLength(v, 7, 11);
    hide Text, Power8;
    var t := Text(v, 7);
    TextFront(v, 7);
    TextFront(v / 8, 6);
    TextFront(v / 8 / 8, 5);
    TextFront(v / 8 / 8 / 8, 4);
    assert t[..7] == t[..10][..9][..8][..7];
    assert v / 8 / 8 / 8 / 8 == v / 4096;
  }
}
