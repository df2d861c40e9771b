/** The five key widths of the XOR engine (the `XorSize` enum of `Xor`). */
module Sizes {

  /** A key width; the default width of a fresh engine is `Size8Bit`. */
  datatype XorSize = Size8Bit | Size16Bit | Size32Bit | Size64Bit | Size128Bit
  {
    /** The number of key bytes of this width (`getValue`). */
    function Bytes(): (n: nat)
      ensures 1 <= n <= 16 && 16 % n == 0
      ensures n * 8 == Bits()
    {
      match this
      case Size8Bit => 1
      case Size16Bit => 2
      case Size32Bit => 4
      case Size64Bit => 8
      case Size128Bit => 16
    }

    /** The width in bits, as the constant names of the enum say it. */
    function Bits(): (b: nat)
    {
      match this
      case Size8Bit => 8
      case Size16Bit => 16
      case Size32Bit => 32
      case Size64Bit => 64
      case Size128Bit => 128
    }

    /** The decimal text Java's string concatenation gives for `getValue()`. */
    function BytesText(): (s: string)
      ensures 0 < |s| && (|s| == 1 || s[0] != '0')
      ensures forall i :: 0 <= i < |s| ==> '0' <= s[i] <= '9'
      ensures DecimalValue(s) == Bytes()
    {
      match this
      case Size8Bit => "1"
      case Size16Bit => "2"
      case Size32Bit => "4"
      case Size64Bit => "8"
      case Size128Bit => "16"
    }
  }

  /** The number a string of decimal digits denotes (most significant digit first). */
  function DecimalValue(s: string): (v: nat)
  {
    if s == [] then 0
    else
      var d := s[|s| - 1] as int - '0' as int;
      10 * DecimalValue(s[..|s| - 1]) + (if 0 <= d <= 9 then d else 0)
  }

  /** Distinct widths have distinct byte counts, so a width is determined by its key length. */
  lemma BytesInjective(a: XorSize, b: XorSize)
    ensures a.Bytes() == b.Bytes() ==> a == b
  {
  }
}
