/**
 * The `HH:MM:SS` rendering of a number of seconds (`formatTimeHMS`, src/server.js:40-45),
 * together with the decimal rendering it is built from (`Number.prototype.toString` on a
 * non-negative integer, then `padStart(2, "0")`) and the parser that reads such a string back.
 */
module TimeFormat {
  import opened Wrappers

  predicate IsDigit(c: char) {
    '0' <= c <= '9'
  }

  predicate AllDigits(s: string) {
    forall i :: 0 <= i < |s| ==> IsDigit(s[i])
  }

  function DigitValue(c: char): (d: nat)
    requires IsDigit(c)
    ensures d < 10
  {
    c as int - '0' as int
  }

  function DigitChar(d: nat): (c: char)
    requires d < 10
    ensures IsDigit(c) && DigitValue(c) == d
  {
    ('0' as int + d) as char
  }

  /** Decimal rendering of a non-negative integer: no sign, no leading zeros, "0" for zero. */
  function NatToString(n: nat): (r: string)
    ensures 1 <= |r| && AllDigits(r)
    ensures |r| > 1 ==> r[0] != '0'
    ensures n < 10 <==> |r| == 1
    ensures n < 100 <==> |r| <= 2
  {
    if n < 10 then [DigitChar(n)] else NatToString(n / 10) + [DigitChar(n % 10)]
  }

  /** The value of a string of decimal digits, leading zeros allowed. */
  function DigitsValue(s: string): nat
    requires AllDigits(s)
  {
    if s == [] then 0 else DigitsValue(s[..|s| - 1]) * 10 + DigitValue(s[|s| - 1])
  }

  /** `s.padStart(2, "0")`: left-pad with zeros up to two characters; longer strings are kept. */
  function PadStart2(s: string): string {
    if |s| < 2 then seq(2 - |s|, _ => '0') + s else s
  }

  /** `formatTimeHMS(seconds)`: hours, minutes and seconds, each padded to two digits, joined by ':'. */
  function FormatHMS(seconds: nat): string {
    JoinFields(seconds / 3600, (seconds % 3600) / 60, seconds % 60)
  }

  /** The template literal `${h}:${m}:${s}` over the three padded fields. */
  function JoinFields(h: nat, m: nat, s: nat): string {
    PadStart2(NatToString(h)) + ":" + PadStart2(NatToString(m)) + ":" + PadStart2(NatToString(s))
  }

  /**
   * Reads back a string of the form H:MM:SS, where H is two or more digits and MM, SS are two
   * digits below 60; gives the number of seconds it denotes, or None for any other string.
   */
  function ParseHMS(t: string): Option<nat> {
    if |t| < 8 || t[|t| - 6] != ':' || t[|t| - 3] != ':' then None
    else ParseParts(t[..|t| - 6], t[|t| - 5..|t| - 3], t[|t| - 2..])
  }

  /** The seconds denoted by hours, minutes and seconds fields, if they are well formed. */
  function ParseParts(hh: string, mm: string, ss: string): Option<nat> {
    if AllDigits(hh) && AllDigits(mm) && AllDigits(ss) && DigitsValue(mm) < 60 && DigitsValue(ss) < 60
    then Some(DigitsValue(hh) * 3600 + DigitsValue(mm) * 60 + DigitsValue(ss))
    else None
  }

  /** Decimal rendering and digit value are inverse. */
  lemma {:induction false} DigitsValueOfNatToString(n: nat)
    ensures DigitsValue(NatToString(n)) == n
  {
    if n >= 10 {
      var r := NatToString(n);
      assert r[..|r| - 1] == NatToString(n / 10);
      DigitsValueOfNatToString(n / 10);
    }
  }

  /** Leading zeros do not change the value of a digit string. */
  lemma {:induction false} LeadingZeros(z: string, s: string)
    requires forall i :: 0 <= i < |z| ==> z[i] == '0'
    requires AllDigits(s)
    ensures AllDigits(z + s) && DigitsValue(z + s) == DigitsValue(s)
    decreases |s|
  {
    if s == [] {
      assert z + s == z;
      ZerosValue(z);
    } else {
      assert (z + s)[..|z + s| - 1] == z + s[..|s| - 1];
      LeadingZeros(z, s[..|s| - 1]);
    }
  }

  lemma {:induction false} ZerosValue(z: string)
    requires forall i :: 0 <= i < |z| ==> z[i] == '0'
    ensures AllDigits(z) && DigitsValue(z) == 0
  {
    if z != [] {
      ZerosValue(z[..|z| - 1]);
    }
  }

  /** A padded decimal field reads back as the number it renders. */
  lemma PaddedField(n: nat)
    ensures AllDigits(PadStart2(NatToString(n)))
    ensures DigitsValue(PadStart2(NatToString(n))) == n
    ensures n < 100 ==> |PadStart2(NatToString(n))| == 2
  {
    var s := NatToString(n);
    DigitsValueOfNatToString(n);
    if |s| < 2 {
      var z := seq(2 - |s|, _ => '0');
      assert PadStart2(s) == z + s;
      LeadingZeros(z, s);
    }
  }

  /** The three fields of `formatTimeHMS`: minutes and seconds are below 60 and add back up. */
  lemma HMSFields(seconds: nat)
    ensures (seconds % 3600) / 60 < 60 && seconds % 60 < 60
    ensures seconds == (seconds / 3600) * 3600 + ((seconds % 3600) / 60) * 60 + seconds % 60
  {
    var h, m, s := seconds / 3600, (seconds % 3600) / 60, seconds % 60;
    assert seconds % 3600 == m * 60 + (seconds % 3600) % 60;
    assert (seconds % 3600) % 60 == s by {
      assert seconds == h * 3600 + seconds % 3600;
      assert seconds == (h * 60 + m) * 60 + (seconds % 3600) % 60;
    }
  }

  /** Where the fields of `ph:pm:ss` sit, counting from the end of the string. */
  lemma Segments(ph: string, pm: string, ps: string)
    requires |pm| == 2 && |ps| == 2
    ensures var t := ph + ":" + pm + ":" + ps;
      && |t| == |ph| + 6 && t[|t| - 6] == ':' && t[|t| - 3] == ':'
      && t[..|t| - 6] == ph && t[|t| - 5..|t| - 3] == pm && t[|t| - 2..] == ps
  {
  }

  /** Parsing `ph:pm:ps` reads exactly the three given fields. */
  lemma ParseJoined(ph: string, pm: string, ps: string)
    requires |pm| == 2 && |ps| == 2 && |ph| >= 2
    ensures ParseHMS(ph + ":" + pm + ":" + ps) == ParseParts(ph, pm, ps)
  {
    Segments(ph, pm, ps);
  }

  /** Fields below 60 for minutes and seconds are read back from the joined string. */
  lemma JoinFieldsDecodes(h: nat, m: nat, s: nat)
    requires m < 60 && s < 60
    ensures ParseHMS(JoinFields(h, m, s)) == Some(h * 3600 + m * 60 + s)
  {
    var ph, pm, ps := PadStart2(NatToString(h)), PadStart2(NatToString(m)), PadStart2(NatToString(s));
    PaddedField(h);
    PaddedField(m);
    PaddedField(s);
    ParseJoined(ph, pm, ps);
  }

  /** Every rendering decodes back to the seconds it came from, whatever the number of hours. */
  lemma FormatHMSDecodes(seconds: nat)
    ensures ParseHMS(FormatHMS(seconds)) == Some(seconds)
  {
    HMSFields(seconds);
    JoinFieldsDecodes(seconds / 3600, (seconds % 3600) / 60, seconds % 60);
  }

  /** Distinct second counts are rendered differently. */
  lemma FormatHMSInjective(a: nat, b: nat)
    ensures FormatHMS(a) == FormatHMS(b) ==> a == b
  {
    FormatHMSDecodes(a);
    FormatHMSDecodes(b);
  }

  /** The value of two digit characters read as a two-digit number. */
  function TwoDigits(a: char, b: char): nat
    requires IsDigit(a) && IsDigit(b)
  {
    DigitValue(a) * 10 + DigitValue(b)
  }

  /** Below 100 hours the rendering is exactly eight characters HH:MM:SS and decodes field by field. */
  lemma FormatHMSShape(seconds: nat)
    requires seconds < 360000
    ensures var t := FormatHMS(seconds);
      && |t| == 8 && t[2] == ':' && t[5] == ':'
      && IsDigit(t[0]) && IsDigit(t[1]) && IsDigit(t[3]) && IsDigit(t[4]) && IsDigit(t[6]) && IsDigit(t[7])
      && TwoDigits(t[3], t[4]) < 60 && TwoDigits(t[6], t[7]) < 60
      && TwoDigits(t[0], t[1]) * 3600 + TwoDigits(t[3], t[4]) * 60 + TwoDigits(t[6], t[7]) == seconds
  {
    HMSFields(seconds);
    JoinFieldsShape(seconds / 3600, (seconds % 3600) / 60, seconds % 60);
  }

  /** Fields below 100, 60 and 60 are joined into exactly eight characters HH:MM:SS. */
  lemma JoinFieldsShape(h: nat, m: nat, s: nat)
    requires h < 100 && m < 60 && s < 60
    ensures var t := JoinFields(h, m, s);
      && |t| == 8 && t[2] == ':' && t[5] == ':'
      && IsDigit(t[0]) && IsDigit(t[1]) && IsDigit(t[3]) && IsDigit(t[4]) && IsDigit(t[6]) && IsDigit(t[7])
      && TwoDigits(t[0], t[1]) == h && TwoDigits(t[3], t[4]) == m && TwoDigits(t[6], t[7]) == s
  {
    var ph, pm, ps := PadStart2(NatToString(h)), PadStart2(NatToString(m)), PadStart2(NatToString(s));
    PaddedField(h);
    PaddedField(m);
    PaddedField(s);
    TwoDigitsValue(ph);
    TwoDigitsValue(pm);
    TwoDigitsValue(ps);
    var t := JoinFields(h, m, s);
    assert t == ph + ":" + pm + ":" + ps;
    assert t[0] == ph[0] && t[1] == ph[1] && t[3] == pm[0] && t[4] == pm[1] && t[6] == ps[0] && t[7] == ps[1];
  }

  lemma TwoDigitsValue(p: string)
    requires |p| == 2 && AllDigits(p)
    ensures DigitsValue(p) == TwoDigits(p[0], p[1])
  {
    var q := p[..1];
    assert p[..|p| - 1] == q && q[..|q| - 1] == [];
    assert DigitsValue(q) == DigitValue(p[0]);
  }
}
