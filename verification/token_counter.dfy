/** Uno/Helpers/TokenCounter.swift: the rough token estimate shown for a
    prompt, and the choice of how a count is displayed. */
module TokenCounter {
  import opened Wrappers
  import opened Decimal

  /** `Int(Double(text.count) / 4.0)`: the character count divided by four,
      truncated. The estimate never exceeds the length it came from. */
  function EstimateTokenCount(text: string): (n: nat)
    ensures 4 * n <= |text| < 4 * n + 4
    ensures n <= |text|
  {
    |text| / 4
  }

  /** A longer text never gets a smaller estimate. */
  lemma EstimateMonotone(shorter: string, longer: string)
    requires |shorter| <= |longer|
    ensures EstimateTokenCount(shorter) <= EstimateTokenCount(longer)
  {
  }

  /** The unit of a scaled count: `%.1fK` divides by 1000, `%.1fM` by 1,000,000. */
  datatype Scale = Thousands | Millions {
    function Divisor(): nat {
      match this
      case Thousands => 1000
      case Millions => 1_000_000
    }

    function Suffix(): string {
      match this
      case Thousands => "K"
      case Millions => "M"
    }
  }

  /** A displayed count: its plain decimal text, or the count with the unit
      whose one-decimal rendering (`String(format:)` on a `Double`) is not modelled. */
  datatype TokenLabel = Plain(text: string) | Scaled(count: int, scale: Scale)

  /** `formatTokenCount`: below 1000 (negative counts included) the decimal
      text of the count, below a million thousands, otherwise millions. */
  function FormatTokenCount(count: Int64): (shown: TokenLabel)
    ensures shown.Plain? <==> count < 1000
    ensures shown.Plain? ==> ParseInt(shown.text) == Some(count)
    ensures shown.Plain? ==> shown.text == ShowInt(count) && Canonical(shown.text)
    ensures shown.Scaled? ==> shown.count == count
    ensures shown == Scaled(count, Thousands) <==> 1000 <= count < 1_000_000
    ensures shown == Scaled(count, Millions) <==> 1_000_000 <= count
  {
    if count < 1000 then
      ParseShowInt(count);
      Plain(ShowInt(count))
    else if count < 1_000_000 then Scaled(count, Thousands)
    else Scaled(count, Millions)
  }
}
