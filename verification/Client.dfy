/** The packet src/client.c sends. */
module Client {
  import opened Bytes
  import opened Auth

  /** The k low-order decimal digits of n in ASCII; six of them are what "%06u" prints below 10^6. */
  function Format(n: nat, k: nat): (s: seq<byte>)
    ensures |s| == k
  {
    if k == 0 then [] else Format(n / 10, k - 1) + [DigitByte(n % 10)]
  }

  function DigitByte(d: nat): byte
    requires d < 10
  {
    ByteOf(0x30 + d)
  }

  lemma FromZero(b: byte)
    requires 0x30 <= b as nat <= 0x39
    ensures 0x30 <= b <= 0x39 && (b - 0x30) as nat == b as nat - 0x30
  {
  }

  lemma DigitReads(d: nat)
    requires d < 10
    ensures IsDigit(DigitByte(d)) && DigitValue(DigitByte(d)) == d
  {
    var b := DigitByte(d);
    FromZero(b);
  }

  lemma {:induction false} FormatReads(n: nat, k: nat)
    requires n < Pow10(k)
    ensures AllDigits(Format(n, k)) && Decimal(Format(n, k)) == n
  {
    hide DigitByte, IsDigit, DigitValue;
    if k > 0 {
      FormatReads(n / 10, k - 1);
      DigitReads(n % 10);
      assert Format(n, k)[..k - 1] == Format(n / 10, k - 1);
    }
  }

  /** The daemon parses what the client prints. */
  lemma FormatParses(token: nat)
    requires token < 1_000_000
    ensures Parse(Format(token, 6)) == Some(token)
  {
    hide Format, Decimal, AllDigits;
    assert Pow10(6) == 1_000_000;
    FormatReads(token, 6);
  }
}
