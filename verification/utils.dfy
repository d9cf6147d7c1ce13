/**
 * Model of `formatTime` in src/utils.ts: a whole number of seconds rendered
 * as "M:SS", minutes unpadded, seconds padded to two digits with '0'.
 * Only natural inputs are modelled.
 */
module Utils {
  import opened Wrappers

  /** The value of SECONDS_IN_MINUTE. */
  const SecondsInMinute: nat := 60

  predicate IsDigit(c: char) {
    '0' <= c <= '9'
  }

  predicate AllDigits(s: string) {
    forall i :: 0 <= i < |s| ==> IsDigit(s[i])
  }

  function DigitChar(d: nat): (c: char)
    requires d < 10
    ensures IsDigit(c) && DigitValue(c) == d
  {
    "0123456789"[d]
  }

  function DigitValue(c: char): nat
    requires IsDigit(c)
  {
    (c as int - '0' as int) as nat
  }

  /** `Number.prototype.toString()` on a natural number: its decimal digits, no leading zero. */
  function NatToString(n: nat): (s: string)
    ensures |s| >= 1 && AllDigits(s)
    ensures |s| > 1 ==> s[0] != '0'
    ensures n < 10 <==> |s| == 1
  {
    if n < 10 then [DigitChar(n)] else NatToString(n / 10) + [DigitChar(n % 10)]
  }

  /** The value of a string of decimal digits, most significant first; None if a non-digit occurs. */
  function ReadDecimal(s: string): (v: Option<nat>)
    ensures v.Some? <==> AllDigits(s)
  {
    if s == [] then Some(0)
    else if !IsDigit(s[|s| - 1]) then None
    else match ReadDecimal(s[..|s| - 1])
      case None => None
      case Some(high) => Some(high * 10 + DigitValue(s[|s| - 1]))
  }

  /** `String.prototype.padStart(width, fill)` with a one-character filler. */
  function PadStart(s: string, width: nat, fill: char): (r: string)
    ensures |r| == if |s| >= width then |s| else width
    ensures r[|r| - |s|..] == s
    ensures forall i :: 0 <= i < |r| - |s| ==> r[i] == fill
  {
    if |s| >= width then s else seq(width - |s|, _ => fill) + s
  }

  /** `formatTime(seconds)` for a natural number of seconds: the ':' sits three characters from the end. */
  function FormatTime(seconds: nat): (r: string)
    ensures |r| >= 4 && r[|r| - 3] == ':'
  {
    var minutes := NatToString(seconds / SecondsInMinute);
    var secs := PadStart(NatToString(seconds % SecondsInMinute), 2, '0');
    SecondsField(seconds % SecondsInMinute);
    minutes + ":" + secs
  }

  /** Reads "M:SS" back as M * 60 + SS; None for anything else. */
  function ParseTime(s: string): Option<nat> {
    if |s| < 4 || s[|s| - 3] != ':' then None
    else match (ReadDecimal(s[..|s| - 3]), ReadDecimal(s[|s| - 2..]))
      case (Some(minutes), Some(secs)) =>
        if secs < SecondsInMinute then Some(minutes * SecondsInMinute + secs) else None
      case _ => None
  }

  /** Reading the decimal rendering of n gives n back. */
  lemma {:induction false} ReadNatToString(n: nat)
    ensures ReadDecimal(NatToString(n)) == Some(n)
  {
    var s := NatToString(n);
    if n < 10 {
      assert s[..0] == [];
    } else {
      assert s[..|s| - 1] == NatToString(n / 10);
      ReadNatToString(n / 10);
    }
  }

  /** The seconds field is always exactly the two digits of seconds % 60. */
  lemma SecondsField(k: nat)
    requires k < SecondsInMinute
    ensures PadStart(NatToString(k), 2, '0') == [DigitChar(k / 10), DigitChar(k % 10)]
  {
    var d := DigitChar(k % 10);
    if k < 10 {
      assert k / 10 == 0 && k % 10 == k;
      assert NatToString(k) == [d];
      var r := PadStart([d], 2, '0');
      assert r[0] == '0' && r[1] == d;
      assert r == ['0', d];
    } else {
      assert NatToString(k / 10) == [DigitChar(k / 10)];
      assert NatToString(k) == [DigitChar(k / 10), d];
    }
  }

  /** formatTime is the minutes, a ':' and the two digits of seconds % 60. */
  lemma FormatTimeFields(seconds: nat)
    ensures var k := seconds % SecondsInMinute;
      FormatTime(seconds)
      == NatToString(seconds / SecondsInMinute) + ":" + [DigitChar(k / 10), DigitChar(k % 10)]
  {
    SecondsField(seconds % SecondsInMinute);
  }

  lemma FieldsLayout(minutes: string, hi: char, lo: char)
    ensures var r := minutes + ":" + [hi, lo];
      |r| == |minutes| + 3 && r[..|r| - 3] == minutes
      && r[|r| - 3] == ':' && r[|r| - 2] == hi && r[|r| - 1] == lo
  {
    var r := minutes + ":" + [hi, lo];
    assert r[..|r| - 3] == minutes;
  }

  /**
   * Layout of formatTime: the unpadded minutes, one ':' and two digits whose
   * value is seconds % 60 (so the tens digit is below 6).
   */
  lemma FormatTimeLayout(seconds: nat)
    ensures var r := FormatTime(seconds);
      |r| >= 4
      && r[..|r| - 3] == NatToString(seconds / SecondsInMinute)
      && r[|r| - 3] == ':'
      && IsDigit(r[|r| - 2]) && IsDigit(r[|r| - 1])
      && DigitValue(r[|r| - 2]) < 6
      && DigitValue(r[|r| - 2]) * 10 + DigitValue(r[|r| - 1]) == seconds % SecondsInMinute
  {
    var k := seconds % SecondsInMinute;
    var hi, lo := DigitChar(k / 10), DigitChar(k % 10);
    assert DigitValue(hi) * 10 + DigitValue(lo) == k;
    FormatTimeFields(seconds);
    FieldsLayout(NatToString(seconds / SecondsInMinute), hi, lo);
  }

  lemma ReadTwoDigits(hi: char, lo: char)
    requires IsDigit(hi) && IsDigit(lo)
    ensures ReadDecimal([hi, lo]) == Some(DigitValue(hi) * 10 + DigitValue(lo))
  {
    assert [hi, lo][..1] == [hi];
    assert [hi][..0] == [];
    assert ReadDecimal([hi]) == Some(DigitValue(hi));
  }

  /** ParseTime reads a minutes string, a ':' and two digits below 60. */
  lemma ParseTimeOfFields(m: nat, hi: char, lo: char)
    requires IsDigit(hi) && IsDigit(lo) && DigitValue(hi) * 10 + DigitValue(lo) < SecondsInMinute
    ensures ParseTime(NatToString(m) + ":" + [hi, lo])
         == Some(m * SecondsInMinute + DigitValue(hi) * 10 + DigitValue(lo))
  {
    var ms := NatToString(m);
    var r := ms + ":" + [hi, lo];
    assert r[..|r| - 3] == ms;
    assert r[|r| - 2..] == [hi, lo];
    ReadTwoDigits(hi, lo);
    ReadNatToString(m);
  }

  /** Parsing the output back as minutes * 60 + seconds gives the input. */
  lemma ParseFormatTime(seconds: nat)
    ensures ParseTime(FormatTime(seconds)) == Some(seconds)
  {
    var m, k := seconds / SecondsInMinute, seconds % SecondsInMinute;
    var hi, lo := DigitChar(k / 10), DigitChar(k % 10);
    calc {
      ParseTime(FormatTime(seconds));
      { FormatTimeFields(seconds); }
      ParseTime(NatToString(m) + ":" + [hi, lo]);
      { ParseTimeOfFields(m, hi, lo); }
      Some(m * SecondsInMinute + DigitValue(hi) * 10 + DigitValue(lo));
      Some(seconds);
    }
  }

  /** Distinct numbers of seconds render as distinct strings. */
  lemma FormatTimeInjective(a: nat, b: nat)
    requires FormatTime(a) == FormatTime(b)
    ensures a == b
  {
    ParseFormatTime(a);
    ParseFormatTime(b);
  }

  lemma ZeroMinutes(digits: string)
    ensures NatToString(0) + ":" + digits == "0:" + digits
  {
    assert NatToString(0) == "0";
  }

  /** Under a minute the rendering is "0:" and the two digits of the input. */
  lemma FormatTimeUnderAMinute(seconds: nat)
    requires seconds < SecondsInMinute
    ensures FormatTime(seconds) == "0:" + [DigitChar(seconds / 10), DigitChar(seconds % 10)]
  {
    assert seconds % SecondsInMinute == seconds && seconds / SecondsInMinute == 0;
    FormatTimeFields(seconds);
    ZeroMinutes([DigitChar(seconds / 10), DigitChar(seconds % 10)]);
  }
}
