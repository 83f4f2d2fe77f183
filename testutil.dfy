/** Userland/tests/test_util.c: the helpers the user-space tests share —
    `satoi`, `memcheck` and the multiply-with-carry generator `GetUint`. */
module TestUtil {
  import opened Common
  import KernelStrings

  predicate IsDigit(c: char) { '0' <= c <= '9' }

  predicate AllDigits(d: seq<char>) { forall i :: 0 <= i < |d| ==> IsDigit(d[i]) }

  /** The decimal number spelled by a run of digits (empty run: 0). */
  function DecimalValue(d: seq<char>): nat
    requires AllDigits(d)
  {
    if d == [] then 0 else DecimalValue(d[..|d| - 1]) * 10 + (d[|d| - 1] - '0') as nat
  }

  /** What `satoi` means: an optional '-' and then only digits is that
      decimal number, negated when the '-' is there; anything else is 0. */
  function SatoiValue(s: seq<char>): int {
    var negative := |s| > 0 && s[0] == '-';
    var digits := if negative then s[1..] else s;
    if !AllDigits(digits) then 0
    else if negative then -(DecimalValue(digits) as int)
    else DecimalValue(digits)
  }

  /** `satoi`: NULL gives 0; otherwise the loop accumulates digits left to
      right and gives up with 0 at the first non-digit.  Integers are
      unbounded here (the source's int64 accumulator may overflow). */
  method Satoi(str: array?<char>) returns (r: int)
    requires str != null ==> '\0' in str[..]
    ensures str == null ==> r == 0
    ensures str != null ==> r == SatoiValue(KernelStrings.CString(str[..]))
  {
    if str == null {
      return 0;
    }
    ghost var k := KernelStrings.NulIndex(str[..]);
    ghost var s := str[..k];
    var i := 0;
    var res := 0;
    var sign := 1;
    if str[i] == '-' {
      sign := -1;
      i := i + 1;
    }
    ghost var start := i;
    assert start <= k;
    while str[i] != '\0'
      invariant start <= i <= k
      invariant AllDigits(str[start..i])
      invariant res == DecimalValue(str[start..i])
      decreases k - i
    {
      if !IsDigit(str[i]) {
        assert !AllDigits(s[start..]) by {
          assert s[start..][i - start] == str[i];
        }
        assert s[start..] == if |s| > 0 && s[0] == '-' then s[1..] else s;
        return 0;
      }
      assert str[start..i + 1][..i - start] == str[start..i];
      res := res * 10 + (str[i] - '0') as int;
      i := i + 1;
    }
    assert str[start..i] == s[start..];
    assert s[start..] == if |s| > 0 && s[0] == '-' then s[1..] else s;
    r := res * sign;
  }

  /** The decimal spelling of a natural number, most significant digit first. */
  function FormatNat(n: nat): (d: seq<char>)
    ensures |d| > 0 && AllDigits(d)
  {
    var last := ['0' + (n % 10) as char];
    if n < 10 then last else FormatNat(n / 10) + last
  }

  /** The decimal spelling of an integer, with a leading '-' when negative. */
  function FormatInt(n: int): seq<char> {
    if n < 0 then ['-'] + FormatNat(-n) else FormatNat(n)
  }

  lemma {:induction false} DecimalValueOfFormat(n: nat)
    ensures DecimalValue(FormatNat(n)) == n
  {
    var d := FormatNat(n);
    if n >= 10 {
      DecimalValueOfFormat(n / 10);
      assert d[..|d| - 1] == FormatNat(n / 10);
    }
  }

  /** `satoi` reads back every integer that is written in decimal. */
  lemma SatoiReadsDecimal(n: int)
    ensures SatoiValue(FormatInt(n)) == n
  {
    if n < 0 {
      DecimalValueOfFormat(-n);
      assert FormatInt(n)[1..] == FormatNat(-n);
    } else {
      DecimalValueOfFormat(n);
    }
  }

  /** A non-digit after the optional sign makes the whole result 0. */
  lemma SatoiRejectsNonDigit(s: seq<char>, i: nat)
    requires 0 <= i < |s| && !IsDigit(s[i])
    requires i > 0 || s[i] != '-'
    ensures SatoiValue(s) == 0
  {
    if |s| > 0 && s[0] == '-' {
      assert s[1..][i - 1] == s[i];
    }
  }

  /** `memcheck`: 1 exactly when the `size` bytes from `start` all equal `value`. */
  method Memcheck(start: array<Byte>, value: Byte, size: nat) returns (r: int)
    requires size <= start.Length
    ensures r == 0 || r == 1
    ensures r == 1 <==> forall i :: 0 <= i < size ==> start[i] == value
  {
    var i := 0;
    while i < size
      invariant 0 <= i <= size
      invariant forall j :: 0 <= j < i ==> start[j] == value
    {
      if start[i] != value {
        return 0;
      }
      i := i + 1;
    }
    return 1;
  }

  /** One step of the 16-bit multiply-with-carry recurrences, in uint32. */
  function MwcNextZ(z: nat): nat { (36969 * (z % 65536) + z / 65536) % U32_LIMIT }
  function MwcNextW(w: nat): nat { (18000 * (w % 65536) + w / 65536) % U32_LIMIT }
  /** `(m_z << 16) + m_w` in uint32. */
  function MwcOutput(z: nat, w: nat): nat { ((z * 65536) % U32_LIMIT + w) % U32_LIMIT }

  /** The uint32 reductions in the recurrences never wrap: the carry form
      of each step already stays below 2^32. */
  lemma MwcStepFits(x: nat, a: nat)
    requires x < U32_LIMIT && (a == 36969 || a == 18000)
    ensures a * (x % 65536) + x / 65536 < U32_LIMIT
  {
    var lo, hi := x % 65536, x / 65536;
    assert lo <= 65535 && hi <= 65535;
    assert a * lo <= 36969 * 65535 by {
      assert a * lo <= a * 65535;
    }
  }

  /** The statics `m_z` / `m_w` of the generator, with their fixed seeds. */
  class MwcGenerator {
    var z: nat
    var w: nat

    constructor ()
      ensures z == 362436069 && w == 521288629
    {
      z, w := 362436069, 521288629;
    }

    /** `GetUint`: advance both recurrences, then combine them. */
    method GetUint() returns (r: nat)
      modifies this
      ensures z == MwcNextZ(old(z)) && w == MwcNextW(old(w))
      ensures r == MwcOutput(z, w) && r < U32_LIMIT
    {
      z := MwcNextZ(z);
      w := MwcNextW(w);
      r := MwcOutput(z, w);
    }
  }

  lemma MwcFirstSteps()
    ensures MwcNextZ(362436069) == 812916871 && MwcNextW(521288629) == 275137954
    ensures MwcOutput(812916871, 275137954) == 820856226
    ensures MwcNextZ(812916871) == 307853267 && MwcNextW(275137954) == 320872198
    ensures MwcOutput(307853267, 320872198) == 2331188998
  {
  }

  /** The first outputs of the generator from its fixed seeds: the
      sequence is fully determined. */
  method FirstOutputs() returns (a: nat, b: nat)
    ensures a == 820856226 && b == 2331188998
  {
    var g := new MwcGenerator();
    MwcFirstSteps();
    a := g.GetUint();
    b := g.GetUint();
  }
}
