/**
 * The two textual renderings of a key that `keyAsHex` and `keyAsBin` build,
 * each with a decoder that reads the text back, and the space-stripping
 * `replace(" ", "")` that the destination file name applies to the hex form.
 */
module Renderings {
  import opened KeyBytes

  datatype Option<T> = None | Some(value: T)

  lemma ByteAsNat(b: bv8)
    ensures (b as nat) as bv8 == b
  {
  }

  /** A slice inside the left operand of a concatenation. */
  lemma SliceLeft(x: string, y: string, lo: nat, hi: nat)
    requires lo <= hi <= |x|
    ensures (x + y)[lo..hi] == x[lo..hi]
  {
  }

  /** The slice of a concatenation after its left operand. */
  lemma SliceRight(x: string, y: string)
    ensures (x + y)[|x|..] == y
  {
  }

  // ---------------------------------------------------------------- hex

  /** The upper-case hex digit of `d`, as `%X` prints it. */
  function HexDigit(d: nat): (c: char)
    requires d < 16
    ensures ('0' <= c <= '9') || ('A' <= c <= 'F')
    ensures ParseHexDigit(c) == Some(d)
  {
    if d < 10 then ('0' as int + d) as char else ('A' as int + d - 10) as char
  }

  /** The value of an upper-case hex digit; `None` for any other character. */
  function ParseHexDigit(c: char): (d: Option<nat>)
  {
    if '0' <= c <= '9' then Some(c as int - '0' as int)
    else if 'A' <= c <= 'F' then Some(c as int - 'A' as int + 10)
    else None
  }

  /** The two digits `%02X` prints for one byte, most significant first. */
  function HexPair(b: bv8): (t: string)
  {
    [HexDigit(b as nat / 16), HexDigit(b as nat % 16)]
  }

  /** One token `String.format("%02X ", b)` appends: the two digits and a space. */
  function HexToken(b: bv8): (t: string)
  {
    HexPair(b) + " "
  }

  /** The tokens of all key bytes, in the stored byte order. */
  function HexTokens(k: seq<bv8>): (s: string)
    ensures |s| == 3 * |k|
  {
    if k == [] then "" else HexTokens(k[..|k| - 1]) + HexToken(k[|k| - 1])
  }

  /** The text `keyAsHex` returns for key bytes `k`. */
  function HexRendering(k: seq<bv8>): (s: string)
  {
    "0x" + HexTokens(k)
  }

  /** One more key byte appends its token to the rendering. */
  lemma HexRenderingSnoc(k: seq<bv8>, i: nat)
    requires i < |k|
    ensures HexRendering(k[..i + 1]) == HexRendering(k[..i]) + HexToken(k[i])
  {
    var a, t := HexTokens(k[..i]), HexToken(k[i]);
    assert k[..i + 1][..i] == k[..i];
    assert HexTokens(k[..i + 1]) == a + t;
    assert "0x" + (a + t) == ("0x" + a) + t;
  }

  /** Reads back one three-character hex token. */
  function ParseHexToken(t: string): (b: Option<bv8>)
    requires |t| == 3
  {
    match (ParseHexDigit(t[0]), ParseHexDigit(t[1]))
    case (Some(hi), Some(lo)) =>
      if t[2] == ' ' && hi < 16 && lo < 16 then Some((hi * 16 + lo) as bv8) else None
    case _ => None
  }

  function ParseHexTokens(s: string): (r: Option<seq<bv8>>)
  {
    if s == [] then Some([])
    else if |s| < 3 then None
    else
      match (ParseHexTokens(s[..|s| - 3]), ParseHexToken(s[|s| - 3..]))
      case (Some(k), Some(b)) => Some(k + [b])
      case _ => None
  }

  /** Reads back a hex rendering into key bytes; `None` for text of another shape. */
  function ParseHexRendering(s: string): (r: Option<seq<bv8>>)
  {
    if |s| >= 2 && s[..2] == "0x" then ParseHexTokens(s[2..]) else None
  }

  lemma HexTokenRoundTrip(b: bv8)
    ensures ParseHexToken(HexToken(b)) == Some(b)
  {
    ByteAsNat(b);
  }

  /** Parsing a text that ends in one more token reads the token after the rest. */
  lemma ParseHexTokensSnoc(a: string, t: string, k: seq<bv8>, b: bv8)
    requires |t| == 3 && ParseHexTokens(a) == Some(k) && ParseHexToken(t) == Some(b)
    ensures ParseHexTokens(a + t) == Some(k + [b])
  {
    var s := a + t;
    assert s[..|s| - 3] == a && s[|s| - 3..] == t;
  }

  lemma {:induction false} HexTokensRoundTrip(k: seq<bv8>)
    ensures ParseHexTokens(HexTokens(k)) == Some(k)
  {
    if k != [] {
      var a, b := k[..|k| - 1], k[|k| - 1];
      assert k == a + [b];
      var ta, tb := HexTokens(a), HexToken(b);
      HexTokensRoundTrip(a);
      HexTokenRoundTrip(b);
      ParseHexTokensSnoc(ta, tb, a, b);
      calc {
        ParseHexTokens(HexTokens(k));
        ParseHexTokens(ta + tb);
        Some(k);
      }
    }
  }

  /** The hex rendering loses nothing: reading it back gives the key bytes. */
  lemma HexRenderingRoundTrip(k: seq<bv8>)
    ensures ParseHexRendering(HexRendering(k)) == Some(k)
  {
    var s := HexRendering(k);
    assert s[..2] == "0x" && s[2..] == HexTokens(k);
    HexTokensRoundTrip(k);
  }

  lemma {:induction false} HexTokensAt(k: seq<bv8>, i: nat)
    requires i < |k|
    ensures HexTokens(k)[3 * i..3 * i + 3] == HexToken(k[i])
  {
    var a := k[..|k| - 1];
    var front, last := HexTokens(a), HexToken(k[|k| - 1]);
    assert HexTokens(k) == front + last;
    if i < |a| {
      calc {
        HexTokens(k)[3 * i..3 * i + 3];
        { SliceLeft(front, last, 3 * i, 3 * i + 3); }
        front[3 * i..3 * i + 3];
        { HexTokensAt(a, i); assert a[i] == k[i]; }
        HexToken(k[i]);
      }
    } else {
      assert i == |a| && |front| == 3 * i && |front + last| == 3 * i + 3;
      calc {
        HexTokens(k)[3 * i..3 * i + 3];
        (front + last)[|front|..];
        { SliceRight(front, last); }
        last;
      }
    }
  }


  /**
   * The shape of `keyAsHex`: "0x", then for the i-th stored byte its two
   * upper-case digits and a space at offset 2 + 3i; 2 + 3n characters in all.
   */
  lemma HexRenderingShape(k: seq<bv8>)
    ensures |HexRendering(k)| == 2 + 3 * |k| && HexRendering(k)[..2] == "0x"
    ensures forall i :: 0 <= i < |k| ==> HexRendering(k)[2 + 3 * i..5 + 3 * i] == HexToken(k[i])
  {
    var s := HexRendering(k);
    forall i | 0 <= i < |k|
      ensures s[2 + 3 * i..5 + 3 * i] == HexToken(k[i])
    {
      HexTokensAt(k, i);
      assert s[2 + 3 * i..5 + 3 * i] == HexTokens(k)[3 * i..3 * i + 3];
    }
  }

  // ----------------------------------------------------- space stripping

  /** `s` with every space removed (`String.replace(" ", "")`). */
  function RemoveSpaces(s: string): (r: string)
    ensures |r| <= |s|
    ensures forall i :: 0 <= i < |r| ==> r[i] != ' '
    ensures (forall i :: 0 <= i < |s| ==> s[i] != ' ') ==> r == s
  {
    if s == [] then ""
    else (if s[0] == ' ' then "" else [s[0]]) + RemoveSpaces(s[1..])
  }

  lemma {:induction false} RemoveSpacesAppend(a: string, b: string)
    ensures RemoveSpaces(a + b) == RemoveSpaces(a) + RemoveSpaces(b)
  {
    if a == [] {
      assert a + b == b;
    } else {
      var head := if a[0] == ' ' then "" else [a[0]];
      assert (a + b)[0] == a[0] && (a + b)[1..] == a[1..] + b;
      calc {
        RemoveSpaces(a + b);
        head + RemoveSpaces(a[1..] + b);
        { RemoveSpacesAppend(a[1..], b); }
        head + (RemoveSpaces(a[1..]) + RemoveSpaces(b));
        (head + RemoveSpaces(a[1..])) + RemoveSpaces(b);
        RemoveSpaces(a) + RemoveSpaces(b);
      }
    }
  }


  /** The hex digits of all key bytes, two per byte, with no separators. */
  function HexDigits(k: seq<bv8>): (s: string)
  {
    if k == [] then "" else HexDigits(k[..|k| - 1]) + HexPair(k[|k| - 1])
  }

  /**
   * Stripping the spaces from the hex rendering keeps the "0x" prefix and
   * leaves exactly the two digits of every byte: 2 + 2n characters.
   */
  lemma {:induction false} RemoveSpacesHex(k: seq<bv8>)
    ensures RemoveSpaces(HexRendering(k)) == "0x" + HexDigits(k)
    ensures |RemoveSpaces(HexRendering(k))| == 2 + 2 * |k|
  {
    RemoveSpacesAppend("0x", HexTokens(k));
    assert RemoveSpaces("0x") == "0x";
    RemoveSpacesTokens(k);
  }

  lemma {:induction false} RemoveSpacesTokens(k: seq<bv8>)
    ensures RemoveSpaces(HexTokens(k)) == HexDigits(k) && |HexDigits(k)| == 2 * |k|
  {
    if k != [] {
      var a, b := k[..|k| - 1], k[|k| - 1];
      RemoveSpacesTokens(a);
      RemoveSpacesAppend(HexTokens(a), HexToken(b));
      RemoveSpacesAppend(HexPair(b), " ");
      assert RemoveSpaces(" ") == "";
      var p := HexPair(b);
      assert RemoveSpaces(p) == p by {
        assert p[1..][1..] == [];
      }
    }
  }

  // ------------------------------------------------------------- binary

  /** 2 to the power `w`. */
  function Pow2(w: nat): (p: nat)
    ensures p >= 1
  {
    if w == 0 then 1 else 2 * Pow2(w - 1)
  }

  predicate IsBits(s: string)
  {
    forall i :: 0 <= i < |s| ==> s[i] == '0' || s[i] == '1'
  }

  /** The low `w` bits of `v`, most significant first, zero-filled on the left. */
  function BinDigits(v: nat, w: nat): (s: string)
    ensures |s| == w
  {
    if w == 0 then "" else BinDigits(v / 2, w - 1) + [if v % 2 == 0 then '0' else '1']
  }

  /** The number a string of binary digits denotes; a character other than '1' counts as 0. */
  function BinValue(s: string): (v: nat)
    ensures v < Pow2(|s|)
  {
    if s == [] then 0 else 2 * BinValue(s[..|s| - 1]) + (if s[|s| - 1] == '1' then 1 else 0)
  }

  /** The binary digits of `v` read back give `v` modulo 2 to the power `w`. */
  lemma {:induction false} BinDigitsValue(v: nat, w: nat)
    ensures IsBits(BinDigits(v, w))
    ensures BinValue(BinDigits(v, w)) == v % Pow2(w)
  {
    if w > 0 {
      var s := BinDigits(v, w);
      var q, p := v / 2, Pow2(w - 1);
      BinDigitsValue(q, w - 1);
      assert s[..|s| - 1] == BinDigits(q, w - 1);
      assert BinValue(s) == 2 * (q % p) + v % 2;
      ModSplit(v, 2, p);
      assert Pow2(w) == 2 * p;
    }
  }

  /**
   * The eight characters `String.format("%8s", Integer.toBinaryString(b & 0xFF)).replace(' ', '0')`
   * gives for one byte.
   */
  function BinToken(b: bv8): (t: string)
    ensures |t| == 8
  {
    BinDigits(b as nat, 8)
  }

  function BinTokens(k: seq<bv8>): (s: string)
    ensures |s| == 8 * |k|
  {
    if k == [] then "" else BinTokens(k[..|k| - 1]) + BinToken(k[|k| - 1])
  }

  /** The text `keyAsBin` returns for key bytes `k`. */
  function BinRendering(k: seq<bv8>): (s: string)
  {
    "0b" + BinTokens(k)
  }

  /** One more key byte appends its token to the rendering. */
  lemma BinRenderingSnoc(k: seq<bv8>, i: nat)
    requires i < |k|
    ensures BinRendering(k[..i + 1]) == BinRendering(k[..i]) + BinToken(k[i])
  {
    var a, t := BinTokens(k[..i]), BinToken(k[i]);
    assert k[..i + 1][..i] == k[..i];
    assert BinTokens(k[..i + 1]) == a + t;
    assert "0b" + (a + t) == ("0b" + a) + t;
  }

  function ParseBinToken(t: string): (b: Option<bv8>)
    requires |t| == 8
  {
    if IsBits(t) then Some(BinValue(t) as bv8) else None
  }

  function ParseBinTokens(s: string): (r: Option<seq<bv8>>)
  {
    if s == [] then Some([])
    else if |s| < 8 then None
    else
      match (ParseBinTokens(s[..|s| - 8]), ParseBinToken(s[|s| - 8..]))
      case (Some(k), Some(b)) => Some(k + [b])
      case _ => None
  }

  /** Reads back a binary rendering into key bytes; `None` for text of another shape. */
  function ParseBinRendering(s: string): (r: Option<seq<bv8>>)
  {
    if |s| >= 2 && s[..2] == "0b" then ParseBinTokens(s[2..]) else None
  }

  lemma BinTokenValue(b: bv8)
    ensures IsBits(BinToken(b)) && BinValue(BinToken(b)) == b as nat
  {
    var v := b as nat;
    BinDigitsValue(v, 8);
    assert Pow2(8) == 256;
    DivModUnique(v, 256, 0, v);
  }

  lemma BinTokenRoundTrip(b: bv8)
    ensures IsBits(BinToken(b)) && BinValue(BinToken(b)) == b as nat
    ensures ParseBinToken(BinToken(b)) == Some(b)
  {
    BinTokenValue(b);
    ByteAsNat(b);
  }

  /** Parsing a text that ends in one more token reads the token after the rest. */
  lemma ParseBinTokensSnoc(a: string, t: string, k: seq<bv8>, b: bv8)
    requires |t| == 8 && ParseBinTokens(a) == Some(k) && ParseBinToken(t) == Some(b)
    ensures ParseBinTokens(a + t) == Some(k + [b])
  {
    var s := a + t;
    assert s[..|s| - 8] == a && s[|s| - 8..] == t;
  }

  lemma {:induction false} BinTokensRoundTrip(k: seq<bv8>)
    ensures ParseBinTokens(BinTokens(k)) == Some(k)
  {
    if k != [] {
      var a, b := k[..|k| - 1], k[|k| - 1];
      assert k == a + [b];
      var ta, tb := BinTokens(a), BinToken(b);
      BinTokensRoundTrip(a);
      BinTokenRoundTrip(b);
      ParseBinTokensSnoc(ta, tb, a, b);
      calc {
        ParseBinTokens(BinTokens(k));
        ParseBinTokens(ta + tb);
        Some(k);
      }
    }
  }

  /** The binary rendering loses nothing: reading it back gives the key bytes. */
  lemma BinRenderingRoundTrip(k: seq<bv8>)
    ensures ParseBinRendering(BinRendering(k)) == Some(k)
  {
    var s := BinRendering(k);
    assert s[..2] == "0b" && s[2..] == BinTokens(k);
    BinTokensRoundTrip(k);
  }

  lemma {:induction false} BinTokensAt(k: seq<bv8>, i: nat)
    requires i < |k|
    ensures BinTokens(k)[8 * i..8 * i + 8] == BinToken(k[i])
  {
    var a := k[..|k| - 1];
    var front, last := BinTokens(a), BinToken(k[|k| - 1]);
    assert BinTokens(k) == front + last;
    if i < |a| {
      calc {
        BinTokens(k)[8 * i..8 * i + 8];
        { SliceLeft(front, last, 8 * i, 8 * i + 8); }
        front[8 * i..8 * i + 8];
        { BinTokensAt(a, i); assert a[i] == k[i]; }
        BinToken(k[i]);
      }
    } else {
      assert i == |a| && |front| == 8 * i && |front + last| == 8 * i + 8;
      calc {
        BinTokens(k)[8 * i..8 * i + 8];
        (front + last)[|front|..];
        { SliceRight(front, last); }
        last;
      }
    }
  }


  /**
   * The shape of `keyAsBin`: "0b", then the eight binary digits of the i-th
   * stored byte at offset 2 + 8i, most significant bit first; 2 + 8n
   * characters in all, every one after the prefix a '0' or a '1'.
   */
  lemma BinRenderingShape(k: seq<bv8>)
    ensures |BinRendering(k)| == 2 + 8 * |k| && BinRendering(k)[..2] == "0b"
    ensures IsBits(BinRendering(k)[2..])
    ensures forall i :: 0 <= i < |k| ==>
      BinRendering(k)[2 + 8 * i..10 + 8 * i] == BinToken(k[i]) &&
      BinValue(BinToken(k[i])) == k[i] as nat
  {
    var s := BinRendering(k);
    forall i | 0 <= i < |k|
      ensures s[2 + 8 * i..10 + 8 * i] == BinToken(k[i])
      ensures BinValue(BinToken(k[i])) == k[i] as nat
    {
      BinTokensAt(k, i);
      assert s[2 + 8 * i..10 + 8 * i] == BinTokens(k)[8 * i..8 * i + 8];
      BinTokenRoundTrip(k[i]);
    }
    BinTokensBits(k);
    assert s[2..] == BinTokens(k);
  }

  lemma {:induction false} BinTokensBits(k: seq<bv8>)
    ensures IsBits(BinTokens(k))
  {
    if k != [] {
      BinTokensBits(k[..|k| - 1]);
      BinTokenRoundTrip(k[|k| - 1]);
    }
  }
}
