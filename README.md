# Binary XOR engine — a verified Dafny model

This project models the `Xor` class of the Java Binary XOR tool. The engine
holds a key width (`XorSize`: 1, 2, 4, 8 or 16 bytes) and a key (`xorValue`):

- the setters fit whatever key is supplied to the width;
- `doXor` transforms the bytes of a source file block by block against the key
  and names the destination file after the width and the key;
- `keyAsHex`, `keyAsBin` and `keyAsInt` render the key as text or as a number.

The model has five modules:

- `Sizes` (sizes.dfy): the width enum.
- `KeyBytes` (key_bytes.dfy): the byte-level meaning of a key. This covers the
  fitting rule of `recalculateSizeValue`, the key's big-endian unsigned value,
  and the two's-complement value that `new BigInteger(byte[])` reads.
- `Renderings` (renderings.dfy): the hex and binary renderings, each with a
  decoder and a round-trip proof, and the space stripping used in the file name.
- `KeyedXor` (cipher.dfy): the transform on byte sequences. This covers one
  block against the key, and a whole input against the key repeated cyclically.
- `XorEngine` (xor.dfy): the engine itself.
  - `XorEngine.Xor` is a class with the two fields. Its methods update them in
    place, and its loops are proved against the functions above.
  - `DoXor` takes the source's bytes as a sequence and uses arrays for the
    output buffer and the block buffer. It follows the Java block loop: it
    refills one reused key-sized buffer, XORs it in place and copies it into
    the output buffer.

Bytes are `bv8`, the unsigned bit pattern of a Java `byte`. Java's `%` on
`int` keeps the sign of the dividend, and `JavaRem` models it that way.

Some behaviour of Xor.java worth knowing:

- The destination name keeps the `0x` of `keyAsHex`: only the spaces are
  removed (Xor.java:129).
- `getXorValue` returns the live key array, not a copy.
- A source whose length is not a multiple of the key width is not written
  with stale bytes. The last `ByteBuffer.get(byte[])` throws
  `BufferUnderflowException` before anything is written. That exception is not
  an `IOException`, so the empty `catch` does not swallow it. The model returns
  `Underflow(dest)` for this case.
- A fresh engine has a width but no key (`xorValue` is `null`). `setXorSize`
  treats a missing key as one zero byte.

The rows below are stated against these specification functions, which have
no rows of their own:
- `Renderings.HexRendering` is what `keyAsHex` builds;
- `Renderings.BinRendering` is what `keyAsBin` builds;
- `XorEngine.DestinationName` is the file name of Xor.java:129;
- `KeyBytes.TwosComplementBytes` is the n-byte two's-complement encoding, used to state `keyAsInt`'s round trip;
- `XorEngine.Supplied` is the bytes `recalculateSizeValue` starts from;
- `Renderings.HexPair` is the two upper-case digits `%02X` prints for one byte;
- `Renderings.HexToken` is one token `String.format("%02X ", b)` appends: the two digits and a space (Xor.java:177);
- `Renderings.HexDigits` is the digit string of the whole key, two digits per byte and no separators, that the file name of Xor.java:129 carries after "0x";
- `KeyBytes.Zeros` is the zero fill of a freshly allocated `ByteBuffer` (Xor.java:81, 87);
- `Sizes.XorSize.Bits` is the bit width in each enum constant's name (Xor.java:20-24).

## Model

| member | source | states |
|---|---|---|
| Sizes.XorSize.Bytes | src/ir/doorpa/Xor.java:19-33 | each width has 1 to 16 key bytes, a divisor of 16, and eight times as many bits as bytes |
| Sizes.XorSize.BytesText | src/ir/doorpa/Xor.java:129 | the width is printed in the file name as decimal digits with no leading zero, and those digits denote the byte count |
| Sizes.BytesInjective | src/ir/doorpa/Xor.java:19-33 | distinct widths have distinct byte counts, so the key length determines the width |
| KeyBytes.Align | src/ir/doorpa/Xor.java:69-94 | the fitted key always has exactly the width's number of bytes |
| KeyBytes.AlignAt | src/ir/doorpa/Xor.java:79-93 | byte by byte: a longer value keeps its leading bytes; a shorter one is right-aligned, with zero bytes in front; an equal one is copied |
| KeyBytes.AlignWidenKeepsValue | src/ir/doorpa/Xor.java:84-88 | widening a short value by leading zeros keeps the unsigned number it denotes |
| KeyBytes.AlignTruncateKeepsHighBytes | src/ir/doorpa/Xor.java:82-83 | truncating keeps the most significant bytes: the key's number is the value's number divided by 256 to the power of the dropped byte count |
| KeyBytes.AlignIdempotent | src/ir/doorpa/Xor.java:79-93 | fitting a key that already has the width changes nothing |
| KeyBytes.AlignGrowThenShrink | src/ir/doorpa/Xor.java:49-51 | widening and then narrowing back keeps the added zeros, so a short key is lost: the result is all zero |
| KeyBytes.Unsigned | src/ir/doorpa/Xor.java:199-203 | the big-endian number of an n-byte key is below 256^n |
| KeyBytes.UnsignedAppend | src/ir/doorpa/Xor.java:199-203 | the big-endian number splits at any byte boundary: front × 256^(length of back) + back |
| KeyBytes.UnsignedRoundTrip | src/ir/doorpa/Xor.java:199-203 | encoding a key's unsigned number back into the same number of bytes gives the key |
| KeyBytes.HalfRange | src/ir/doorpa/Xor.java:199-203 | the signed bound of n bytes is half of 256^n |
| KeyBytes.SignedValue | src/ir/doorpa/Xor.java:199-203 | the integer `new BigInteger(key)` denotes lies in the signed n-byte range, and is negative exactly when the first byte's top bit is set |
| KeyBytes.SignedRoundTrip | src/ir/doorpa/Xor.java:199-203 | the two's-complement encoding of that integer at the key's width is the key itself, so no information is lost |
| KeyedXor.XorBlock | src/ir/doorpa/Xor.java:211-217 | one block XORed with the key keeps the block's length |
| KeyedXor.Cipher | src/ir/doorpa/Xor.java:150-157 | the whole-input transform keeps the input's length |
| KeyedXor.XorBlockTwice | src/ir/doorpa/Xor.java:211-217 | XORing a block twice with the same key restores it |
| KeyedXor.CipherTwice | src/ir/doorpa/Xor.java:150-157 | the transform is its own inverse under the same key |
| KeyedXor.CipherZeroKey | src/ir/doorpa/Xor.java:150-157 | an all-zero key leaves the input unchanged |
| KeyedXor.CipherAppendBlock | src/ir/doorpa/Xor.java:152-156 | after a key-aligned prefix, the next block (whole or short) is transformed as one block against the leading key bytes |
| KeyedXor.CipherPrefixStep | src/ir/doorpa/Xor.java:152-156 | one pass of the block loop extends the transformed prefix by the transformed next block |
| Renderings.HexDigit | src/ir/doorpa/Xor.java:177 | each digit is 0-9 or upper-case A-F, and it parses back to its value |
| Renderings.HexTokens | src/ir/doorpa/Xor.java:176-178 | three characters per key byte |
| Renderings.HexRenderingSnoc | src/ir/doorpa/Xor.java:176-178 | each further key byte appends its token to the rendering |
| Renderings.HexTokensRoundTrip | src/ir/doorpa/Xor.java:176-178 | parsing the hex tokens gives back the key bytes |
| Renderings.HexRenderingRoundTrip | src/ir/doorpa/Xor.java:173-180 | parsing `keyAsHex`'s text gives back the key, so the rendering is injective |
| Renderings.HexTokensAt | src/ir/doorpa/Xor.java:176-178 | the i-th token is the one of the i-th stored byte |
| Renderings.HexRenderingShape | src/ir/doorpa/Xor.java:173-180 | "0x", then for byte i its two digits and a space at offset 2+3i; 2+3n characters in all |
| Renderings.RemoveSpaces | src/ir/doorpa/Xor.java:129 | the stripped text is no longer than the input and contains no spaces; a text without spaces is left as it is |
| Renderings.RemoveSpacesAppend | src/ir/doorpa/Xor.java:129 | space stripping distributes over concatenation |
| Renderings.RemoveSpacesTokens | src/ir/doorpa/Xor.java:129 | stripping the tokens leaves exactly two hex digits per byte |
| Renderings.RemoveSpacesHex | src/ir/doorpa/Xor.java:129 | the stripped hex rendering is "0x" and the digits, 2+2n characters |
| Renderings.Pow2 | src/ir/doorpa/Xor.java:190 | a power of two is positive |
| Renderings.BinDigits | src/ir/doorpa/Xor.java:190 | the zero-filled binary text has exactly the requested width |
| Renderings.BinValue | src/ir/doorpa/Xor.java:190 | a w-digit binary text denotes a number below 2^w |
| Renderings.BinDigitsValue | src/ir/doorpa/Xor.java:190 | the zero-filled binary digits are all 0 or 1 and denote the value modulo 2^w |
| Renderings.BinToken | src/ir/doorpa/Xor.java:190 | each byte gives exactly eight characters |
| Renderings.BinTokens | src/ir/doorpa/Xor.java:189-191 | eight characters per key byte |
| Renderings.BinRenderingSnoc | src/ir/doorpa/Xor.java:189-191 | each further key byte appends its token to the rendering |
| Renderings.BinTokenValue | src/ir/doorpa/Xor.java:190 | a byte's eight digits are bits and denote the byte's unsigned value (`b & 0xFF`) |
| Renderings.BinTokenRoundTrip | src/ir/doorpa/Xor.java:190 | a byte's eight digits parse back to the byte |
| Renderings.BinTokensRoundTrip | src/ir/doorpa/Xor.java:189-191 | parsing the binary tokens gives back the key bytes |
| Renderings.BinRenderingRoundTrip | src/ir/doorpa/Xor.java:186-193 | parsing `keyAsBin`'s text gives back the key |
| Renderings.BinTokensAt | src/ir/doorpa/Xor.java:189-191 | the i-th token is the one of the i-th stored byte |
| Renderings.BinTokensBits | src/ir/doorpa/Xor.java:189-191 | the tokens consist only of 0 and 1 |
| Renderings.BinRenderingShape | src/ir/doorpa/Xor.java:186-193 | "0b", then byte i's eight digits, most significant bit first, at offset 2+8i; 2+8n characters, all bits after the prefix |
| XorEngine.DestinationNameShape | src/ir/doorpa/Xor.java:129 | the destination name is "XOR_Size", the decimal byte count, "_Key0x", two hex digits per key byte, "_" and the source name; its length follows |
| XorEngine.JavaRem | src/ir/doorpa/Xor.java:226 | Java's `%`: the remainder has the dividend's sign, is smaller than the divisor in size, differs from the dividend by a multiple of the divisor, and is 0 exactly on multiples |
| XorEngine.NoWholeBlock | src/ir/doorpa/Xor.java:152-153 | a file that ends inside a block, after whole blocks, is not aligned to the width |
| XorEngine.Put | src/ir/doorpa/Xor.java:83-86 | `ByteBuffer.put` writes the source range at the position and leaves the rest of the buffer as it was |
| XorEngine.Fill | src/ir/doorpa/Xor.java:153 | `ByteBuffer.get(byte[])` fills the buffer with the next source bytes |
| XorEngine.Clone | src/ir/doorpa/Xor.java:92 | `clone` gives a fresh array with the same bytes |
| XorEngine.Fitted | src/ir/doorpa/Xor.java:74-93 | the fitting branches produce a fresh array holding exactly the fitted key |
| XorEngine.Xor.constructor | src/ir/doorpa/Xor.java:35-43 | a fresh engine has the 8-bit width and no key |
| XorEngine.Xor.SetXorSize | src/ir/doorpa/Xor.java:49-51 | the width becomes the new one; the key becomes a fresh array holding the old key (or one zero byte) fitted to it |
| XorEngine.Xor.SetXorValue | src/ir/doorpa/Xor.java:58-60 | the width stays; the key becomes a fresh array holding the supplied value (or one zero byte for null) fitted to it |
| XorEngine.Xor.RecalculateSizeValue | src/ir/doorpa/Xor.java:69-94 | sets the width and a fresh key with exactly the width's length, holding the fitted value (null read as one zero byte) |
| XorEngine.Xor.GetXorSize | src/ir/doorpa/Xor.java:100-102 | the current width; once there is a key, its length is that width's byte count |
| XorEngine.Xor.GetXorValue | src/ir/doorpa/Xor.java:108-110 | the returned key, when there is one, has exactly the width's number of bytes |
| XorEngine.Xor.XorInPlace | src/ir/doorpa/Xor.java:211-217 | the buffer becomes its old bytes XORed with the key's leading bytes, also when the two are the same array |
| XorEngine.Xor.NeededPadding | src/ir/doorpa/Xor.java:224-227 | for a non-negative size, the remainder lies in [0, width); it is 0 exactly for aligned sizes, and size minus it is a multiple of the width |
| XorEngine.Xor.KeyAsHex | src/ir/doorpa/Xor.java:173-180 | the text built token by token is the hex rendering of the stored key |
| XorEngine.Xor.KeyAsBin | src/ir/doorpa/Xor.java:186-193 | the text built token by token is the binary rendering of the stored key |
| XorEngine.Xor.KeyAsInt | src/ir/doorpa/Xor.java:199-203 | the key's integer lies in the signed range, has the sign of the high bit, and encodes back to the key |
| XorEngine.Xor.Destination | src/ir/doorpa/Xor.java:129 | the name built with `keyAsHex` is "XOR_Size", the decimal byte count, "_Key0x", two hex digits per key byte, "_" and the source name |
| XorEngine.Xor.BlockStep | src/ir/doorpa/Xor.java:153-155 | get, xor, put: the block buffer holds the next source block XORed with the key, the output gains that block at the position, and the output before and after it is unchanged |
| XorEngine.Xor.DoXor | src/ir/doorpa/Xor.java:122-167 | the destination name; an aligned source is written as every byte XORed with the key byte at its offset modulo the width; a misaligned one underflows |
| XorEngine.Xor.DoXorWhole | src/ir/doorpa/Xor.java:150-157 | the corrected loop writes the whole transform for every source, aligned or not |
| XorEngine.Xor.LastBlock | src/ir/doorpa/Xor.java:152-156 | a short last block, in a buffer of its own length, completes the transform; the output past the source's length is unchanged |
| XorEngine.Xor.DoXorTwice | src/ir/doorpa/Xor.java:150-157 | with the loop as written, on a block-aligned source, transforming the output again under the same key gives back the source |
| XorEngine.Xor.TransformTwice | src/ir/doorpa/Xor.java:150-157 | with the corrected loop, transforming the output of any source again under the same key gives back the source |
| XorEngine.UnalignedSourceExample | src/ir/doorpa/Xor.java:150-157 | a 1-byte source under a 16-bit key underflows as written; the corrected loop writes its byte back |
| XorEngine.ResizeFreshEngine | src/ir/doorpa/Xor.java:70-72 | giving a fresh engine a width yields the all-zero key of that width |
| XorEngine.WidenedKeyExample | src/ir/doorpa/Xor.java:84-88 | the value FF on a 16-bit engine becomes 00 FF, rendered "0x00 FF " |
| XorEngine.DestinationNameExample | src/ir/doorpa/Xor.java:129 | the zero key of an 8-bit engine names the output of "f" "XOR_Size1_Key0x00_f" |

## Left out

- The Swing user interface (src/ir/doorpa/gui/MainForm.java) and its key-text parsing, which is user-interface code over regular expressions, an internal hex decoder and `BigInteger`. Its shared static `Xor` instance and any concurrency go with it.
- The file I/O of `doXor`:
  - `RandomAccessFile`, `FileChannel`, `File.exists`/`delete` and `getParent` are not modelled. The source's bytes and name are parameters; the outcome carries the destination name and the bytes written.
  - The swallowed `IOException` is not modelled, because there is no I/O in the model.
- The `(int)` cast of the channel size and the 2 GiB `ByteBuffer` limit are not modelled: a source is any finite byte sequence.
- `BigInteger.toString` decimal printing in `keyAsInt` is not modelled. The model gives the integer value, not its text.
- `String.format` and `Integer.toBinaryString` are specified directly by the digit strings they produce, not modelled as library calls.
- XorEngine.Xor.KeyAsHex, XorEngine.Xor.KeyAsBin, XorEngine.Xor.KeyAsInt, XorEngine.Xor.Destination, XorEngine.Xor.DoXor: require a key. Java throws `NullPointerException` on a fresh engine whose key was never set, and this error path is not modelled.
- XorEngine.Xor.XorInPlace: requires the key to be at least as long as the buffer. Java throws `ArrayIndexOutOfBoundsException` otherwise, but its only caller passes a key-sized buffer.
- XorEngine.Xor.DoXorTwice: requires a block-aligned source, because the loop as written underflows on any other source and writes nothing to transform back.
- XorEngine.Xor.NeededPadding: takes any integer and does not model 32-bit `int` bounds. It does model Java's truncating `%`.

## Findings

| source | as written | input that shows it | evidently intended | confidence | as-written member | corrected member |
|---|---|---|---|---|---|---|
| src/ir/doorpa/Xor.java:150-157 | the loop always `get`s a whole key-sized block, so when fewer bytes remain `ByteBuffer.get(byte[])` throws `BufferUnderflowException`; the destination has been created and is left empty | a 16-bit engine (key 00 00) and the 1-byte source [AB] | every source is transformed in full. The comment above `doXor` (Xor.java:113-115) asks for padding of unaligned files, but the correction chooses an unpadded output of the source's length. The output buffer's capacity `fileSize + neededPadding(fileSize)` fits that choice: 6 bytes for a 5-byte source under a 4-byte key. It does not fit a padded output, which would need 8 bytes | medium, not executed | XorEngine.Xor.DoXor, XorEngine.UnalignedSourceExample | XorEngine.Xor.DoXorWhole |
