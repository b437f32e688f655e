// FGuid as the core uses it: a 128-bit identifier, valid when non-zero, printed as
// 32 upper-case hexadecimal digits (FGuid::ToString, default digits format).
module Guids {

  /** The four 32-bit words of an FGuid read as one number. */
  type Guid = nat

  const InvalidGuid: Guid := 0

  /** Number of hexadecimal digits FGuid::ToString prints. */
  const GuidDigits: nat := 32

  /** FGuid::IsValid: at least one word is non-zero. */
  predicate IsValid(g: Guid) {
    g != InvalidGuid
  }

  function Pow16(n: nat): (r: nat)
    ensures r > 0
  {
    if n == 0 then 1 else 16 * Pow16(n - 1)
  }

  /** Upper bound of a 128-bit guid. */
  function GuidLimit(): nat {
    Pow16(GuidDigits)
  }

  function HexDigit(d: nat): (c: char)
    requires d < 16
  {
    "0123456789ABCDEF"[d]
  }

  /** The low `width` hexadecimal digits of `n`, most significant first. */
  function Hex(n: nat, width: nat): (r: string)
    ensures |r| == width
  {
    if width == 0 then "" else Hex(n / 16, width - 1) + [HexDigit(n % 16)]
  }

  function ToString(g: Guid): (r: string)
    ensures |r| == GuidDigits
  {
    Hex(g, GuidDigits)
  }

  lemma HexDigitInjective(a: nat, b: nat)
    requires a < 16 && b < 16 && HexDigit(a) == HexDigit(b)
    ensures a == b
  {
  }

  /** Different numbers that fit in `width` digits print differently. */
  lemma {:induction false} HexInjective(a: nat, b: nat, width: nat)
    requires a < Pow16(width) && b < Pow16(width)
    requires Hex(a, width) == Hex(b, width)
    ensures a == b
  {
    if width > 0 {
      var ha, hb := Hex(a / 16, width - 1), Hex(b / 16, width - 1);
      assert Hex(a, width) == ha + [HexDigit(a % 16)];
      assert Hex(b, width) == hb + [HexDigit(b % 16)];
      assert HexDigit(a % 16) == Hex(a, width)[width - 1] == HexDigit(b % 16);
      HexDigitInjective(a % 16, b % 16);
      assert ha == Hex(a, width)[..width - 1] == hb;
      HexInjective(a / 16, b / 16, width - 1);
    }
  }

  /** Two distinct 128-bit guids never print the same text. */
  lemma ToStringInjective(a: Guid, b: Guid)
    requires a < GuidLimit() && b < GuidLimit()
    requires ToString(a) == ToString(b)
    ensures a == b
  {
    HexInjective(a, b, GuidDigits);
  }

  /**
   * FGuid::NewGuid, made deterministic: `last` is the most recent guid handed out, and the
   * new guid exceeds it, so every guid drawn is different from all earlier ones (and valid).
   * The second component is the counter to use for the next draw.
   */
  function NewGuid(last: nat): (r: (Guid, nat))
    ensures IsValid(r.0) && r.0 > last && r.1 == r.0
  {
    (last + 1, last + 1)
  }
}
