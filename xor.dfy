/**
 * The `Xor` engine: a key width and a key (the fields `xorSize` and
 * `xorValue`), the setters that fit the key to the width, the renderings of
 * the key, and the block loop of `doXor` over the bytes of a source file.
 */
module XorEngine {
  import opened Sizes
  import opened KeyBytes
  import opened Renderings
  import opened KeyedXor

  /**
   * What one `doXor` call produces. `Written` carries the name of the
   * destination file and the bytes written to it. `Underflow` is the
   * `BufferUnderflowException` thrown by the last `get` of a source whose
   * length is not a multiple of the key width: the destination file has been
   * created empty and nothing is written to it.
   */
  datatype XorOutcome =
    | Written(dest: string, content: seq<bv8>)
    | Underflow(dest: string)

  /** The name `doXor` gives the destination file, beside the source named `sourceName`. */
  function DestinationName(size: XorSize, key: seq<bv8>, sourceName: string): (name: string)
  {
    "XOR_Size" + size.BytesText() + "_Key" + RemoveSpaces(HexRendering(key)) + "_" + sourceName
  }

  /**
   * The destination name spelled out: the width in decimal, then the key's hex
   * digits with the "0x" prefix still in front and no separators.
   */
  lemma DestinationNameShape(size: XorSize, key: seq<bv8>, sourceName: string)
    ensures DestinationName(size, key, sourceName)
         == "XOR_Size" + size.BytesText() + "_Key0x" + HexDigits(key) + "_" + sourceName
    ensures |DestinationName(size, key, sourceName)|
         == 15 + |size.BytesText()| + 2 * |key| + |sourceName|
  {
    var t, d := size.BytesText(), HexDigits(key);
    assert RemoveSpaces(HexRendering(key)) == "0x" + d && |d| == 2 * |key| by {
      RemoveSpacesHex(key);
    }
    assert "_Key" + ("0x" + d) == "_Key0x" + d;
    var p := "XOR_Size" + t;
    calc {
      DestinationName(size, key, sourceName);
      (p + ("_Key" + ("0x" + d))) + ("_" + sourceName);
      (p + ("_Key0x" + d)) + ("_" + sourceName);
      { Regroup(p, "_Key0x", d); }
      ((p + "_Key0x") + d) + ("_" + sourceName);
      { Regroup((p + "_Key0x") + d, "_", sourceName); }
      (((p + "_Key0x") + d) + "_") + sourceName;
    }
  }

  lemma Regroup(x: string, y: string, z: string)
    ensures x + (y + z) == (x + y) + z
  {
  }

  /** Java's `%` on `int`: the remainder takes the sign of the dividend. */
  function JavaRem(a: int, n: int): (r: int)
    requires n > 0
    ensures a >= 0 ==> 0 <= r < n
    ensures a < 0 ==> -n < r <= 0
    ensures (a - r) % n == 0
    ensures (r == 0) == (a % n == 0)
  {
    if a >= 0 then
      PosRem(a, n);
      a % n
    else
      var m := (-a) % n;
      NegRem(a, n, m);
      -m
  }

  lemma PosRem(a: int, n: int)
    requires n > 0 && a >= 0
    ensures 0 <= a % n < n && (a - a % n) % n == 0
  {
    var q := a / n;
    assert a - a % n == n * q;
    DivModOfMultiple(a - a % n, n, q);
  }

  lemma NegRem(a: int, n: int, m: int)
    requires n > 0 && a < 0 && m == (-a) % n
    ensures 0 <= m < n && (a + m) % n == 0 && (m == 0) == (a % n == 0)
  {
    var q := (-a) / n;
    assert -a == n * q + m;
    assert a + m == n * -q;
    DivModOfMultiple(a + m, n, -q);
    if m == 0 {
      DivModOfMultiple(a, n, -q);
    } else {
      assert a == n * (-q - 1) + (n - m);
      DivModUnique(a, n, -q - 1, n - m);
    }
  }

  lemma DivModOfMultiple(x: int, n: int, q: int)
    requires n > 0 && x == n * q
    ensures x % n == 0
  {
    DivModUnique(x, n, q, 0);
  }

  /** A file that ends inside a block, after whole blocks, is not block-aligned. */
  lemma NoWholeBlock(blocks: nat, fileSize: nat, n: nat)
    requires n > 0 && blocks * n < fileSize < blocks * n + n
    ensures fileSize % n != 0
  {
    ModOffset(blocks, n, fileSize - blocks * n);
  }

  /** The bytes `recalculateSizeValue` starts from: the given array, or one zero byte for `null`. */
  ghost function Supplied(value: array?<bv8>): (bytes: seq<bv8>)
    reads value
  {
    if value == null then [0] else value[..]
  }

  /** `ByteBuffer.put(src, off, len)` on a buffer `dst` whose position is `pos`. */
  method Put(dst: array<bv8>, pos: nat, src: array<bv8>, off: nat, len: nat)
    requires pos + len <= dst.Length && off + len <= src.Length && dst != src
    modifies dst
    ensures dst[..] == old(dst[..pos]) + src[off..off + len] + old(dst[pos + len..])
  {
    var i := 0;
    while i < len
      invariant 0 <= i <= len
      invariant forall k :: pos <= k < pos + i ==> dst[k] == src[k - pos + off]
      invariant forall k :: 0 <= k < pos ==> dst[k] == old(dst[k])
      invariant forall k :: pos + i <= k < dst.Length ==> dst[k] == old(dst[k])
    {
      dst[pos + i] := src[off + i];
      i := i + 1;
    }
  }

  /** `ByteBuffer.get(dst)` on a buffer over `src` whose position is `from`, with enough bytes left. */
  method Fill(dst: array<bv8>, src: seq<bv8>, from: nat)
    requires from + dst.Length <= |src|
    modifies dst
    ensures dst[..] == src[from..from + dst.Length]
  {
    var i := 0;
    while i < dst.Length
      invariant 0 <= i <= dst.Length
      invariant forall j :: 0 <= j < i ==> dst[j] == src[from + j]
    {
      dst[i] := src[from + i];
      i := i + 1;
    }
  }

  /** `value.clone()`: a fresh array with the same bytes. */
  method Clone(value: array<bv8>) returns (copy: array<bv8>)
    ensures fresh(copy) && copy[..] == value[..]
  {
    copy := new bv8[value.Length];
    var i := 0;
    while i < value.Length
      invariant 0 <= i <= value.Length
      invariant forall j :: 0 <= j < i ==> copy[j] == value[j]
    {
      copy[i] := value[i];
      i := i + 1;
    }
  }

  /**
   * The body of `recalculateSizeValue` for a non-null value: a fresh key of
   * `destsize` bytes holding the leading bytes of a longer value, a shorter
   * value behind zero bytes, or a copy of a value of that length.
   */
  method Fitted(v: array<bv8>, destsize: nat) returns (key: array<bv8>)
    ensures fresh(key) && key[..] == Align(v[..], destsize)
  {
    var srcsize := v.Length;
    if destsize != srcsize {
      key := new bv8[destsize](_ => 0);
      if srcsize > destsize {
        assert key[destsize..] == [];
        Put(key, 0, v, 0, destsize);
        assert key[..] == v[..][..destsize];
      } else {
        var pad := destsize - srcsize;
        assert key[..pad] == Zeros(pad);
        assert key[destsize..] == [];
        assert v[0..srcsize] == v[..];
        Put(key, pad, v, 0, srcsize);
        assert key[..] == Zeros(pad) + v[..];
      }
    } else {
      key := Clone(v);
    }
  }

  class Xor {
    var xorSize: XorSize
    /** `null` until a setter runs: a fresh engine has a width but no key. */
    var xorValue: array?<bv8>

    /** Once there is a key, it has exactly as many bytes as the width says. */
    ghost predicate Valid()
      reads this
    {
      xorValue != null ==> xorValue.Length == xorSize.Bytes()
    }

    /** A fresh engine: the default 8-bit width and no key yet. */
    constructor ()
      ensures Valid() && xorSize == Size8Bit && xorValue == null
    {
      xorSize := Size8Bit;
      xorValue := null;
    }

    /** Changes the width and refits the current key (one zero byte if there is none) to it. */
    method SetXorSize(size: XorSize)
      modifies this
      ensures Valid() && xorSize == size
      ensures xorValue != null && fresh(xorValue)
      ensures xorValue[..] == Align(old(Supplied(xorValue)), size.Bytes())
    {
      RecalculateSizeValue(size, GetXorValue());
    }

    /** Replaces the key by `value` fitted to the current width; the width stays. */
    method SetXorValue(value: array?<bv8>)
      modifies this
      ensures Valid() && xorSize == old(xorSize)
      ensures xorValue != null && fresh(xorValue)
      ensures xorValue[..] == Align(old(Supplied(value)), xorSize.Bytes())
    {
      RecalculateSizeValue(GetXorSize(), value);
    }

    /**
     * Sets the width to `size` and the key to a fresh array holding `value`
     * (one zero byte for `null`) truncated to its leading bytes or
     * right-aligned behind zero bytes.
     */
    method RecalculateSizeValue(size: XorSize, value: array?<bv8>)
      modifies this
      ensures Valid() && xorSize == size
      ensures xorValue != null && fresh(xorValue)
      ensures xorValue[..] == Align(old(Supplied(value)), size.Bytes())
    {
      var v: array<bv8>;
      if value == null {
        v := new bv8[1](_ => 0);
        assert v[..] == [0];
      } else {
        v := value;
      }
      xorSize := size;
      xorValue := Fitted(v, size.Bytes());
    }

    /** The current width; once there is a key, its length is the width's byte count. */
    function GetXorSize(): (size: XorSize)
      reads this
      ensures Valid() && xorValue != null ==> xorValue.Length == size.Bytes()
    {
      xorSize
    }

    /** The live key array (not a copy): its bytes may change, its length is the width's. */
    function GetXorValue(): (key: array?<bv8>)
      reads this
      ensures Valid() && key != null ==> key.Length == GetXorSize().Bytes()
    {
      xorValue
    }

    /**
     * XORs `srcDest` in place with the first `srcDest.Length` bytes of `key`;
     * when the two are the same array every byte becomes zero.
     */
    method XorInPlace(srcDest: array<bv8>, key: array<bv8>)
      requires srcDest.Length <= key.Length
      modifies srcDest
      ensures srcDest[..] == XorBlock(old(srcDest[..]), old(key[..]))
    {
      var i := srcDest.Length;
      var j := 0;
      while j < i
        invariant 0 <= j <= i
        invariant forall t :: 0 <= t < j ==> srcDest[t] == old(srcDest[t]) ^ old(key[t])
        invariant forall t :: j <= t < i ==> srcDest[t] == old(srcDest[t])
        invariant forall t :: j <= t < key.Length ==> key[t] == old(key[t])
      {
        srcDest[j] := srcDest[j] ^ key[j];
        j := j + 1;
      }
    }

    /**
     * The number of bytes left over after the whole key-sized blocks of a file
     * of `fileSize` bytes; 0 exactly when the file is block-aligned.
     */
    function NeededPadding(fileSize: int): (r: int)
      reads this
      ensures fileSize >= 0 ==> 0 <= r < xorSize.Bytes()
      ensures (fileSize - r) % xorSize.Bytes() == 0
      ensures (r == 0) == (fileSize % xorSize.Bytes() == 0)
    {
      JavaRem(fileSize, xorSize.Bytes())
    }

    /** `keyAsHex`: "0x" and one two-digit upper-case hex token plus a space per key byte. */
    method KeyAsHex() returns (s: string)
      requires xorValue != null
      ensures s == HexRendering(xorValue[..])
    {
      var sb := "0x";
      var i := 0;
      assert xorValue[..0] == [];
      while i < xorValue.Length
        invariant 0 <= i <= xorValue.Length
        invariant sb == HexRendering(xorValue[..i])
      {
        HexRenderingSnoc(xorValue[..], i);
        assert xorValue[..][..i + 1] == xorValue[..i + 1] && xorValue[..][..i] == xorValue[..i];
        sb := sb + HexToken(xorValue[i]);
        i := i + 1;
      }
      assert xorValue[..i] == xorValue[..];
      s := sb;
    }

    /** `keyAsBin`: "0b" and the eight binary digits of every key byte. */
    method KeyAsBin() returns (s: string)
      requires xorValue != null
      ensures s == BinRendering(xorValue[..])
    {
      var sb := "0b";
      var i := 0;
      assert xorValue[..0] == [];
      while i < xorValue.Length
        invariant 0 <= i <= xorValue.Length
        invariant sb == BinRendering(xorValue[..i])
      {
        BinRenderingSnoc(xorValue[..], i);
        assert xorValue[..][..i + 1] == xorValue[..i + 1] && xorValue[..][..i] == xorValue[..i];
        sb := sb + BinToken(xorValue[i]);
        i := i + 1;
      }
      assert xorValue[..i] == xorValue[..];
      s := sb;
    }

    /**
     * The integer behind `keyAsInt`: the key read as a big-endian
     * two's-complement number, whose encoding at the key's width is the key.
     */
    function KeyAsInt(): (v: int)
      reads this, xorValue
      requires Valid() && xorValue != null
      ensures -(HalfRange(xorValue.Length) as int) <= v < HalfRange(xorValue.Length)
      ensures (v < 0) == (xorValue[0] >= 0x80)
      ensures TwosComplementBytes(v, xorValue.Length) == xorValue[..]
    {
      SignedRoundTrip(xorValue[..]);
      SignedValue(xorValue[..])
    }

    /** The destination file name `doXor` builds from the width, the hex key and the source name. */
    method Destination(sourceName: string) returns (dest: string)
      requires xorValue != null
      ensures dest == DestinationName(xorSize, xorValue[..], sourceName)
      ensures dest == "XOR_Size" + xorSize.BytesText() + "_Key0x" + HexDigits(xorValue[..]) + "_" + sourceName
    {
      var hex := KeyAsHex();
      dest := "XOR_Size" + xorSize.BytesText() + "_Key" + RemoveSpaces(hex) + "_" + sourceName;
      DestinationNameShape(xorSize, xorValue[..], sourceName);
    }

    /**
     * One pass of the block loop of `doXor`: `get` the next `buffer.Length`
     * source bytes into `buffer`, `xor` it with the key, `put` it into `out`
     * at `position`.
     */
    method BlockStep(content: seq<bv8>, position: nat, buffer: array<bv8>, out: array<bv8>)
      requires xorValue != null && buffer.Length <= xorValue.Length
      requires position + buffer.Length <= |content| && position + buffer.Length <= out.Length
      requires buffer != out && buffer != xorValue && out != xorValue
      modifies buffer, out
      ensures out[..position + buffer.Length]
           == old(out[..position]) + XorBlock(content[position..position + buffer.Length], xorValue[..])
      ensures out[position + buffer.Length..] == old(out[position + buffer.Length..])
      ensures buffer[..] == XorBlock(content[position..position + buffer.Length], xorValue[..])
    {
      Fill(buffer, content, position);
      XorInPlace(buffer, xorValue);
      Put(out, position, buffer, 0, buffer.Length);
    }

    /**
     * `doXor` on a source file named `sourceName` whose bytes are `content`:
     * the destination name, and either every byte XORed with the key repeated
     * cyclically, or the underflow of a source that is not block-aligned.
     */
    method DoXor(content: seq<bv8>, sourceName: string) returns (r: XorOutcome)
      requires Valid() && xorValue != null
      ensures r.dest == DestinationName(xorSize, xorValue[..], sourceName)
      ensures |content| % xorSize.Bytes() == 0 ==> r == Written(r.dest, Cipher(content, xorValue[..]))
      ensures |content| % xorSize.Bytes() != 0 ==> r == Underflow(r.dest)
    {
      var n := xorSize.Bytes();
      var key := xorValue[..];
      var dest := Destination(sourceName);
      var fileSize := |content|;
      var outbuffer := new bv8[fileSize + NeededPadding(fileSize)](_ => 0);
      var tempbyte := new bv8[n](_ => 0);
      var position, outPosition := 0, 0;
      ghost var blocks := 0;
      while position < fileSize
        invariant position == outPosition == blocks * n <= fileSize <= outbuffer.Length
        invariant outbuffer[..position] == Cipher(content[..position], key)
        decreases fileSize - position
      {
        if fileSize - position < n {
          // the `get` of a short last block throws before anything is written
          NoWholeBlock(blocks, fileSize, n);
          return Underflow(dest);
        }
        BlockStep(content, position, tempbyte, outbuffer);
        CipherPrefixStep(content, key, blocks, n);
        position, outPosition := position + n, outPosition + n;
        blocks := blocks + 1;
      }
      ModOffset(blocks, n, 0);
      assert content[..position] == content;
      return Written(dest, outbuffer[..outPosition]);
    }

    /**
     * The block loop as it was evidently meant to work: a short last block is
     * read into a buffer of its own length and XORed with the leading key
     * bytes, so every source, aligned or not, is transformed in full.
     */
    method DoXorWhole(content: seq<bv8>, sourceName: string) returns (r: XorOutcome)
      requires Valid() && xorValue != null
      ensures r == Written(DestinationName(xorSize, xorValue[..], sourceName), Cipher(content, xorValue[..]))
    {
      var n := xorSize.Bytes();
      var key := xorValue[..];
      var dest := Destination(sourceName);
      var fileSize := |content|;
      var outbuffer := new bv8[fileSize + NeededPadding(fileSize)](_ => 0);
      var tempbyte := new bv8[n](_ => 0);
      var position := 0;
      ghost var blocks := 0;
      while position + n <= fileSize
        invariant position == blocks * n <= fileSize <= outbuffer.Length
        invariant outbuffer[..position] == Cipher(content[..position], key)
        decreases fileSize - position
      {
        BlockStep(content, position, tempbyte, outbuffer);
        CipherPrefixStep(content, key, blocks, n);
        position := position + n;
        blocks := blocks + 1;
      }
      LastBlock(content, position, blocks, outbuffer);
      return Written(dest, outbuffer[..fileSize]);
    }

    /**
     * The end of the whole-file loop: after the whole blocks, a short last
     * block is read into a buffer of its own length and transformed, so the
     * output holds the transform of the entire source.
     */
    method LastBlock(content: seq<bv8>, position: nat, ghost blocks: nat, out: array<bv8>)
      requires xorValue != null && out != xorValue && 0 < xorValue.Length
      requires position == blocks * xorValue.Length <= |content| < position + xorValue.Length
      requires |content| <= out.Length
      requires out[..position] == Cipher(content[..position], xorValue[..])
      modifies out
      ensures out[..|content|] == Cipher(content, xorValue[..])
      ensures out[|content|..] == old(out[|content|..])
    {
      if position < |content| {
        var last := new bv8[|content| - position](_ => 0);
        BlockStep(content, position, last, out);
        CipherPrefixStep(content, xorValue[..], blocks, |content| - position);
      }
      assert content[..|content|] == content;
    }

    /**
     * The loop as written on a block-aligned source: transforming the output
     * again with the same key gives the source back.
     */
    method DoXorTwice(content: seq<bv8>, sourceName: string) returns (restored: seq<bv8>)
      requires Valid() && xorValue != null && |content| % xorSize.Bytes() == 0
      ensures restored == content
    {
      var once := DoXor(content, sourceName);
      var twice := DoXor(once.content, sourceName);
      CipherTwice(content, xorValue[..]);
      restored := twice.content;
    }

    /** With the whole-file loop, transforming the output again gives the source back. */
    method TransformTwice(content: seq<bv8>, sourceName: string) returns (restored: seq<bv8>)
      requires Valid() && xorValue != null
      ensures restored == content
    {
      var once := DoXorWhole(content, sourceName);
      var twice := DoXorWhole(once.content, sourceName);
      CipherTwice(content, xorValue[..]);
      restored := twice.content;
    }
  }

  /**
   * A 1-byte source under the default key of a 16-bit engine: the loop as
   * written underflows, the whole-file loop writes the byte back unchanged.
   */
  method UnalignedSourceExample() returns (asWritten: XorOutcome, whole: XorOutcome)
    ensures asWritten.Underflow?
    ensures whole.Written? && whole.content == [0xAB]
  {
    var engine := new Xor();
    engine.SetXorSize(Size16Bit);
    asWritten := engine.DoXor([0xAB], "f");
    whole := engine.DoXorWhole([0xAB], "f");
    CipherZeroKey([0xAB], engine.xorValue[..]);
  }

  /** A fresh engine given a width has the all-zero key of that width. */
  method ResizeFreshEngine(size: XorSize) returns (key: seq<bv8>)
    ensures key == Zeros(size.Bytes())
  {
    var engine := new Xor();
    engine.SetXorSize(size);
    key := engine.xorValue[..];
  }

  /** A one-byte value 0xFF given to a 16-bit engine becomes the key 00 FF, rendered "0x00 FF ". */
  lemma WidenedKeyExample()
    ensures Align([0xFF], Size16Bit.Bytes()) == [0x00, 0xFF]
    ensures HexRendering([0x00, 0xFF]) == "0x00 FF "
  {
    assert Align([0xFF], 2) == [0x00, 0xFF] by {
      assert Zeros(1) == [0x00 as bv8];
    }
    assert HexTokens([0x00, 0xFF]) == "00 FF " by {
      assert HexToken(0x00) == "00 " && HexToken(0xFF) == "FF ";
      assert HexTokens([0x00]) == "00 " by {
        assert [0x00 as bv8][..0] == [];
      }
      assert [0x00, 0xFF][..1] == [0x00 as bv8];
    }
  }

  /** The zero key of an 8-bit engine names the output for "f" "XOR_Size1_Key0x00_f": the "0x" stays. */
  lemma DestinationNameExample()
    ensures DestinationName(Size8Bit, [0x00], "f") == "XOR_Size1_Key0x00_f"
  {
    var d := HexDigits([0x00]);
    assert d == "00" by {
      assert [0x00 as bv8][..0] == [];
      assert HexPair(0x00) == "00";
    }
    assert DestinationName(Size8Bit, [0x00], "f") == "XOR_Size" + "1" + "_Key0x" + d + "_" + "f" by {
      DestinationNameShape(Size8Bit, [0x00], "f");
    }
  }
}
