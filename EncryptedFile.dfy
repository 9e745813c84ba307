/** Model of the block and size arithmetic of the encrypting file wrapper,
    ent/encryption/encrypted_file_impl.cc.  The file is cut into 4096-byte
    blocks, each encrypted unpadded with a per-block IV; a logical length
    that is not a multiple of the key block size is stored as a physical
    size one key block longer.  The ciphers are uninterpreted functions. */
module EncryptedFile {
  import opened Util

  /** `block_size` */
  const BlockSize: nat := 4096
  /** 2^64: `uint64_t` and `size_t` arithmetic wraps modulo this. */
  const Max64: nat := 0x1_0000_0000_0000_0000

  /** A byte. */
  newtype Byte = b: int | 0 <= b < 256

  function Wrap64(x: int): nat
  {
    x % Max64
  }

  lemma Wrap64Small(x: int)
    requires 0 <= x < Max64
    ensures Wrap64(x) == x
  {
    ModUnique(x, 0, x, Max64);
  }

  // ----- bit masks --------------------------------------------------------

  /** Bitwise and of two naturals. */
  function BitAnd(x: nat, y: nat): nat
    decreases x
  {
    if x == 0 || y == 0 then 0
    else 2 * BitAnd(x / 2, y / 2) + (if x % 2 == 1 && y % 2 == 1 then 1 else 0)
  }

  predicate IsPow2(a: nat)
    decreases a
  {
    a == 1 || (a > 1 && a % 2 == 0 && IsPow2(a / 2))
  }

  /** Halving the dividend halves the remainder modulo an even divisor. */
  lemma ModHalf(n: nat, b: nat)
    requires b >= 1
    ensures n % (2 * b) == 2 * ((n / 2) % b) + n % 2
  {
    var q, r0 := n / 2, n % 2;
    var t, r1 := q / b, q % b;
    assert n == (2 * b) * t + (2 * r1 + r0);
    ModUnique(n, t, 2 * r1 + r0, 2 * b);
  }

  /** Masking with `a - 1` keeps the remainder modulo a power of two. */
  lemma {:induction false} LowMask(n: nat, a: nat)
    requires IsPow2(a)
    ensures BitAnd(n, a - 1) == n % a
    decreases a
  {
    if a > 1 && n != 0 {
      var b := a / 2;
      assert a == 2 * b;
      assert (a - 1) / 2 == b - 1 && (a - 1) % 2 == 1;
      assert BitAnd(n, a - 1) == 2 * BitAnd(n / 2, b - 1) + n % 2;
      LowMask(n / 2, b);
      ModHalf(n, b);
    }
  }

  lemma BlockSizeIsPow2()
    ensures IsPow2(BlockSize)
  {
    assert IsPow2(1) && IsPow2(2) && IsPow2(4) && IsPow2(8) && IsPow2(16) && IsPow2(32) && IsPow2(64);
    assert IsPow2(128) && IsPow2(256) && IsPow2(512) && IsPow2(1024) && IsPow2(2048);
  }

  /** `is_aligned(n, a)`: `n & (a - 1)` is zero. */
  predicate IsAligned(n: nat, a: nat)
    requires a >= 1
  {
    BitAnd(n, a - 1) == 0
  }

  /** For a power of two the mask test is divisibility. */
  lemma IsAlignedMod(n: nat, a: nat)
    requires IsPow2(a)
    ensures IsAligned(n, a) <==> n % a == 0
  {
    LowMask(n, a);
  }

  function AlignUp(n: nat, a: nat): (r: nat)
    requires a >= 1
    ensures r % a == 0 && n <= r < n + a
  {
    var k := (n + a - 1) / a;
    ModUnique(k * a, k, 0, a);
    k * a
  }

  function AlignDown(n: nat, a: nat): (r: nat)
    requires a >= 1
    ensures r % a == 0 && r <= n < r + a
  {
    var k := n / a;
    ModUnique(k * a, k, 0, a);
    k * a
  }

  // ----- logical and physical sizes --------------------------------------

  /** `calculate_file_length`: a physical size that is not a multiple of
      the key block size carries one key block of padding. */
  function CalculateFileLength(s: nat, keyBlockSize: nat): (r: nat)
    requires IsPow2(keyBlockSize)
    ensures s % keyBlockSize == 0 ==> r == s
    ensures s % keyBlockSize != 0 ==> r == Wrap64(s - keyBlockSize)
  {
    IsAlignedMod(s, keyBlockSize);
    if !IsAligned(s, keyBlockSize) then Wrap64(s - keyBlockSize) else s
  }

  /** The physical size `truncate` gives a file of logical length `length`. */
  function TruncatedSize(length: nat, keyBlockSize: nat): (n: nat)
    requires IsPow2(keyBlockSize)
    ensures length % keyBlockSize == 0 ==> n == length
    ensures length % keyBlockSize != 0 ==> n == Wrap64(length + keyBlockSize)
  {
    IsAlignedMod(length, keyBlockSize);
    if !IsAligned(length, keyBlockSize) then Wrap64(length + keyBlockSize) else length
  }

  /** Reading the length back from the physical size recovers the length
      the file was truncated to. */
  lemma TruncateRoundTrip(length: nat, keyBlockSize: nat)
    requires IsPow2(keyBlockSize) && length + keyBlockSize < Max64
    ensures CalculateFileLength(TruncatedSize(length, keyBlockSize), keyBlockSize) == length
  {
    if length % keyBlockSize != 0 {
      var n := length + keyBlockSize;
      Wrap64Small(n);
      assert TruncatedSize(length, keyBlockSize) == n;
      SameRemainder(length, keyBlockSize);
      Wrap64Small(length);
    }
  }

  /** Adding the divisor keeps the remainder. */
  lemma SameRemainder(x: nat, d: nat)
    requires d >= 1
    ensures (x + d) % d == x % d
  {
    var q := x / d;
    assert x + d == (q + 1) * d + x % d by {
      assert (q + 1) * d == q * d + d;
    }
    ModUnique(x + d, q + 1, x % d, d);
  }

  // ----- the file ----------------------------------------------------------

  /** The wrapper's state: the cached logical length `_file_length` and the
      size of the underlying file. */
  class EncryptedFileState {
    var fileLength: Option<nat>
    var physicalSize: nat
    const keyBlockSize: nat

    predicate Valid()
      reads this
    {
      IsPow2(keyBlockSize) && keyBlockSize <= BlockSize && physicalSize < Max64
    }

    constructor (physicalSize: nat, keyBlockSize: nat)
      requires IsPow2(keyBlockSize) && keyBlockSize <= BlockSize && physicalSize < Max64
      ensures Valid() && fileLength == None
      ensures this.physicalSize == physicalSize && this.keyBlockSize == keyBlockSize
    {
      fileLength := None;
      this.physicalSize := physicalSize;
      this.keyBlockSize := keyBlockSize;
    }

    /** `verify_file_length`: the cached length, else the one read back from
        the physical size. */
    method VerifyFileLength()
      requires Valid()
      modifies this`fileLength
      ensures fileLength == if old(fileLength).Some? then old(fileLength) else Some(CalculateFileLength(physicalSize, keyBlockSize))
    {
      if fileLength.None? {
        fileLength := Some(CalculateFileLength(physicalSize, keyBlockSize));
      }
    }

    /** `maybe_set_length`: the cached length only grows. */
    method MaybeSetLength(s: nat)
      modifies this`fileLength
      ensures fileLength == if s > ValueOr(old(fileLength), 0) then Some(s) else old(fileLength)
      ensures ValueOr(fileLength, 0) == Max(ValueOr(old(fileLength), 0), s)
    {
      if s > ValueOr(fileLength, 0) {
        fileLength := Some(s);
      }
    }

    /** `clear_length` */
    method ClearLength()
      modifies this`fileLength
      ensures fileLength == None
    {
      fileLength := None;
    }

    /** `size` */
    method Size() returns (s: nat)
      requires Valid()
      modifies this`fileLength
      ensures fileLength == Some(s)
      ensures s == if old(fileLength).Some? then old(fileLength).value else CalculateFileLength(physicalSize, keyBlockSize)
    {
      VerifyFileLength();
      s := fileLength.value;
    }

    /** `write_dma` of `len` bytes at `pos`, of which the underlying file
        wrote `written`: the file grows to cover them and so does the
        cached length. */
    method WriteDma(pos: nat, len: nat, written: nat) returns (s: nat)
      requires Valid()
      requires IsAligned(pos, BlockSize) && IsAligned(len, BlockSize)
      requires written <= len && pos + len < Max64
      modifies this`fileLength, this`physicalSize
      ensures Valid() && s == written
      ensures physicalSize == Max(old(physicalSize), pos + written)
      ensures ValueOr(fileLength, 0) == Max(ValueOr(old(fileLength), 0), pos + written)
      ensures old(fileLength).Some? ==> fileLength.Some?
    {
      physicalSize := Max(physicalSize, pos + written);
      MaybeSetLength(pos + written);
      s := written;
    }

    /** `truncate`: shrinking sets the physical size with the key-block
        padding; growing first writes encrypted zero blocks from the last
        whole block up to the new length (reading back and re-encrypting
        the old tail), then shrinks to the exact length. */
    method Truncate(length: nat)
      requires Valid() && length + 2 * BlockSize < Max64
      modifies this`fileLength, this`physicalSize
      ensures Valid()
      ensures fileLength == Some(length)
      ensures physicalSize == TruncatedSize(length, keyBlockSize)
      ensures CalculateFileLength(physicalSize, keyBlockSize) == length
    {
      var s := Size();
      if s < length {
        BlockSizeIsPow2();
        var bufSize := AlignUp(Min(length, 32 * BlockSize), BlockSize);
        PositiveMultiple(bufSize, BlockSize);
        var aligned := AlignDown(s, BlockSize);
        while aligned < length
          invariant Valid() && aligned % BlockSize == 0 && aligned < length + BlockSize
          invariant fileLength.Some? && fileLength.value >= aligned
          decreases length - aligned
        {
          var n := Min(bufSize, AlignUp(length - aligned, BlockSize));
          PositiveMultiple(AlignUp(length - aligned, BlockSize), BlockSize);
          IsAlignedMod(aligned, BlockSize);
          var w: nat;
          if aligned < s {
            var r := Min(n, s - aligned);
            var ar := AlignUp(r, BlockSize);
            PositiveMultiple(ar, BlockSize);
            AlignUpMonotone(r, n, BlockSize);
            IsAlignedMod(ar, BlockSize);
            w := WriteDma(aligned, ar, ar);
          } else {
            IsAlignedMod(n, BlockSize);
            w := WriteDma(aligned, n, n);
          }
          SumOfMultiples(aligned, w, BlockSize);
          aligned := aligned + w;
        }
        s := Size();
      }
      physicalSize := TruncatedSize(length, keyBlockSize);
      fileLength := Some(length);
      TruncateRoundTrip(length, keyBlockSize);
    }
  }

  /** A positive multiple of `a` is at least `a`. */
  lemma PositiveMultiple(r: nat, a: nat)
    requires a >= 1 && r % a == 0 && r >= 1
    ensures r >= a
  {
    if r < a {
      ModUnique(r, 0, r, a);
    }
  }

  /** Rounding up to a multiple leaves a multiple no larger than it. */
  lemma AlignUpMonotone(r: nat, n: nat, a: nat)
    requires a >= 1 && r <= n && n % a == 0
    ensures AlignUp(r, a) <= n
  {
    var u := AlignUp(r, a);
    if u > n {
      var d := u / a - n / a;
      assert u - n == d * a by {
        assert u == (u / a) * a && n == (n / a) * a;
        assert d * a == (u / a) * a - (n / a) * a;
      }
      ModUnique(u - n, d, 0, a);
      PositiveMultiple(u - n, a);
    }
  }

  /** The sum of two multiples is a multiple. */
  lemma SumOfMultiples(x: nat, y: nat, a: nat)
    requires a >= 1 && x % a == 0 && y % a == 0
    ensures (x + y) % a == 0
  {
    assert x + y == (x / a + y / a) * a + 0 by {
      assert (x / a + y / a) * a == (x / a) * a + (y / a) * a;
    }
    ModUnique(x + y, x / a + y / a, 0, a);
  }

  function ValueOr(o: Option<nat>, d: nat): nat
  {
    if o.Some? then o.value else d
  }

  function Max(a: nat, b: nat): nat
  {
    if a >= b then a else b
  }

  function Min(a: nat, b: nat): nat
  {
    if a <= b then a else b
  }

  // ----- per-block IVs ---------------------------------------------------------

  /** `v` as `k` little-endian bytes. */
  function LittleEndian(v: nat, k: nat): (b: seq<Byte>)
    ensures |b| == k
  {
    if k == 0 then [] else [(v % 256) as Byte] + LittleEndian(v / 256, k - 1)
  }

  function FromLittleEndian(b: seq<Byte>): nat
  {
    if b == [] then 0 else b[0] as nat + 256 * FromLittleEndian(b[1..])
  }

  function Pow256(k: nat): nat
  {
    if k == 0 then 1 else 256 * Pow256(k - 1)
  }

  /** Little-endian encoding round-trips for values that fit. */
  lemma {:induction false} LittleEndianRoundTrip(v: nat, k: nat)
    requires v < Pow256(k)
    ensures FromLittleEndian(LittleEndian(v, k)) == v
  {
    if k > 0 {
      assert v / 256 < Pow256(k - 1);
      LittleEndianRoundTrip(v / 256, k - 1);
      var b := LittleEndian(v, k);
      assert b[1..] == LittleEndian(v / 256, k - 1);
      assert b[0] as nat == v % 256;
    }
  }

  function Zeros(n: nat): (z: seq<Byte>)
    ensures |z| == n && forall i :: 0 <= i < n ==> z[i] == 0
  {
    if n == 0 then [] else [0] + Zeros(n - 1)
  }

  /** The plaintext of a block's IV: zeros, then the block number as a
      little-endian 64-bit integer in the last eight bytes. */
  function CounterBlock(pos: nat, size: nat): (b: seq<Byte>)
    requires size >= 8
    ensures |b| == size
  {
    Zeros(size - 8) + LittleEndian(pos / BlockSize, 8)
  }

  /** The counter block holds the block number, so distinct blocks of a
      file get distinct plaintexts. */
  lemma CounterBlockDecodes(pos: nat, size: nat)
    requires size >= 8 && pos < Max64
    ensures var b := CounterBlock(pos, size);
      (forall i :: 0 <= i < size - 8 ==> b[i] == 0) && FromLittleEndian(b[size - 8..]) == pos / BlockSize
  {
    var b := CounterBlock(pos, size);
    assert b[size - 8..] == LittleEndian(pos / BlockSize, 8);
    assert Pow256(8) == Max64;
    LittleEndianRoundTrip(pos / BlockSize, 8);
  }

  /** `bytes::resize`: truncate or extend with zeros. */
  function Resize(b: seq<Byte>, n: nat): (r: seq<Byte>)
    ensures |r| == n
    ensures forall i :: 0 <= i < n && i < |b| ==> r[i] == b[i]
  {
    if |b| >= n then b[..n] else b + Zeros(n - |b|)
  }

  /** `iv_for`: empty for a key without IV (ECB); otherwise the block key's
      encryption of the counter block, cut to the IV length. */
  function IvFor(pos: nat, ivLen: nat, keyBlockSize: nat, blockKeyBlockSize: nat,
                 blockEncrypt: seq<Byte> -> seq<Byte>): (iv: seq<Byte>)
    requires IsAligned(pos, BlockSize)
    requires ivLen != 0 ==> ivLen >= keyBlockSize && ivLen >= 8
    ensures |iv| == ivLen
    ensures ivLen != 0 ==> iv == Resize(blockEncrypt(CounterBlock(pos, Max(ivLen, blockKeyBlockSize))), ivLen)
  {
    if ivLen == 0 then []
    else Resize(blockEncrypt(CounterBlock(pos, Max(ivLen, blockKeyBlockSize))), ivLen)
  }

  // ----- block transform ----------------------------------------------------

  datatype Mode = Encrypt | Decrypt

  /** What transforming a buffer yields: the byte count or the error, and
      the transformed bytes. */
  datatype Transformed = Transformed(count: Result<nat>, data: seq<Byte>)

  /** The block loop of `transform` from offset `off`, as written: `cipher`
      transforms the bytes of the block at a file position (its IV is
      derived from that position); `l` is the cached logical length. */
  function TransformFrom(pos: nat, input: seq<Byte>, l: nat, m: Mode, keyBlockSize: nat,
                         cipher: (Mode, seq<Byte>, nat) -> seq<Byte>, off: nat): Transformed
    requires keyBlockSize >= 1 && off <= |input|
    decreases |input| - off
  {
    if off == |input| then Transformed(Ok(off), [])
    else
      var rem := Min(BlockSize, |input| - off);
      if rem < BlockSize || (pos + off + rem > l && m == Decrypt) then
        if m != Decrypt then Transformed(Err("Output data not aligned"), [])
        else Transformed(Ok(Wrap64(l - pos)), cipher(m, input[off..off + AlignDown(rem, keyBlockSize)], pos + off))
      else
        var rest := TransformFrom(pos, input, l, m, keyBlockSize, cipher, off + BlockSize);
        Transformed(rest.count, cipher(m, input[off..off + BlockSize], pos + off) + rest.data)
  }

  /** `transform` on a buffer at a block-aligned position, as written;
      without a cached length only encryption is allowed. The byte count of
      a cut-short decryption is `l - pos` in unsigned 64-bit arithmetic. */
  method Transform(pos: nat, input: seq<Byte>, fileLength: Option<nat>, m: Mode, keyBlockSize: nat,
                   cipher: (Mode, seq<Byte>, nat) -> seq<Byte>) returns (count: Result<nat>, output: seq<Byte>)
    requires IsAligned(pos, BlockSize) && keyBlockSize >= 1
    requires fileLength.Some? || m == Encrypt
    ensures count == TransformFrom(pos, input, ValueOr(fileLength, Max64 - 1), m, keyBlockSize, cipher, 0).count
    ensures count.Ok? ==> output == TransformFrom(pos, input, ValueOr(fileLength, Max64 - 1), m, keyBlockSize, cipher, 0).data
  {
    var l := ValueOr(fileLength, Max64 - 1);
    ghost var whole := TransformFrom(pos, input, l, m, keyBlockSize, cipher, 0);
    output := [];
    var off := 0;
    while off < |input|
      invariant off <= |input|
      invariant whole.count == TransformFrom(pos, input, l, m, keyBlockSize, cipher, off).count
      invariant whole.count.Ok? ==> whole.data == output + TransformFrom(pos, input, l, m, keyBlockSize, cipher, off).data
      decreases |input| - off
    {
      var rem := Min(BlockSize, |input| - off);
      if rem < BlockSize || (pos + off + rem > l && m == Decrypt) {
        if m != Decrypt {
          return Err("Output data not aligned"), output;
        }
        var last := cipher(m, input[off..off + AlignDown(rem, keyBlockSize)], pos + off);
        assert TransformFrom(pos, input, l, m, keyBlockSize, cipher, off) == Transformed(Ok(Wrap64(l - pos)), last);
        output := output + last;
        return Ok(Wrap64(l - pos)), output;
      }
      var block := cipher(m, input[off..off + BlockSize], pos + off);
      ghost var rest := TransformFrom(pos, input, l, m, keyBlockSize, cipher, off + BlockSize);
      assert TransformFrom(pos, input, l, m, keyBlockSize, cipher, off) == Transformed(rest.count, block + rest.data);
      assert output + (block + rest.data) == (output + block) + rest.data;
      output := output + block;
      off := off + BlockSize;
    }
    count := Ok(off);
  }

  /** `transform` with the byte count of a cut-short decryption corrected
      (see Findings): the logical bytes left from `pos`, none when `pos` is
      past the logical end. */
  method TransformCorrected(pos: nat, input: seq<Byte>, fileLength: Option<nat>, m: Mode, keyBlockSize: nat,
                   cipher: (Mode, seq<Byte>, nat) -> seq<Byte>) returns (count: Result<nat>, output: seq<Byte>)
    requires IsAligned(pos, BlockSize) && keyBlockSize >= 1
    requires fileLength.Some? || m == Encrypt
    ensures count == TransformFromCorrected(pos, input, ValueOr(fileLength, Max64 - 1), m, keyBlockSize, cipher, 0).count
    ensures count.Ok? ==> output == TransformFromCorrected(pos, input, ValueOr(fileLength, Max64 - 1), m, keyBlockSize, cipher, 0).data
  {
    var l := ValueOr(fileLength, Max64 - 1);
    ghost var whole := TransformFromCorrected(pos, input, l, m, keyBlockSize, cipher, 0);
    output := [];
    var off := 0;
    while off < |input|
      invariant off <= |input|
      invariant whole.count == TransformFromCorrected(pos, input, l, m, keyBlockSize, cipher, off).count
      invariant whole.count.Ok? ==> whole.data == output + TransformFromCorrected(pos, input, l, m, keyBlockSize, cipher, off).data
      decreases |input| - off
    {
      var rem := Min(BlockSize, |input| - off);
      if rem < BlockSize || (pos + off + rem > l && m == Decrypt) {
        if m != Decrypt {
          return Err("Output data not aligned"), output;
        }
        var last := cipher(m, input[off..off + AlignDown(rem, keyBlockSize)], pos + off);
        assert TransformFromCorrected(pos, input, l, m, keyBlockSize, cipher, off) == Transformed(Ok(if l >= pos then l - pos else 0), last);
        output := output + last;
        return Ok(if l >= pos then l - pos else 0), output;
      }
      var block := cipher(m, input[off..off + BlockSize], pos + off);
      ghost var rest := TransformFromCorrected(pos, input, l, m, keyBlockSize, cipher, off + BlockSize);
      assert TransformFromCorrected(pos, input, l, m, keyBlockSize, cipher, off) == Transformed(rest.count, block + rest.data);
      assert output + (block + rest.data) == (output + block) + rest.data;
      output := output + block;
      off := off + BlockSize;
    }
    count := Ok(off);
  }

  /** Encrypting whole blocks transforms every byte. */
  lemma {:induction false} EncryptWholeBlocks(pos: nat, input: seq<Byte>, l: nat, keyBlockSize: nat,
                                              cipher: (Mode, seq<Byte>, nat) -> seq<Byte>, off: nat)
    requires keyBlockSize >= 1 && off <= |input| && (|input| - off) % BlockSize == 0
    ensures TransformFromCorrected(pos, input, l, Encrypt, keyBlockSize, cipher, off).count == Ok(|input|)
    decreases |input| - off
  {
    if off < |input| {
      EncryptWholeBlocks(pos, input, l, keyBlockSize, cipher, off + BlockSize);
    }
  }

  /** Encrypting a buffer that does not end on a block boundary fails. */
  lemma {:induction false} EncryptShortBlockFails(pos: nat, input: seq<Byte>, l: nat, keyBlockSize: nat,
                                                  cipher: (Mode, seq<Byte>, nat) -> seq<Byte>, off: nat)
    requires keyBlockSize >= 1 && off <= |input| && (|input| - off) % BlockSize != 0
    ensures TransformFromCorrected(pos, input, l, Encrypt, keyBlockSize, cipher, off).count == Err("Output data not aligned")
    decreases |input| - off
  {
    if |input| - off >= BlockSize {
      EncryptShortBlockFails(pos, input, l, keyBlockSize, cipher, off + BlockSize);
    }
  }

  /** As written, decrypting a short read that starts past the logical end
      (a file of logical length 4091 keeps 16 bytes of padding, so reading
      at 4096 finds 11 bytes) reports 2^64 - 5 bytes. */
  lemma ReadPastEndAsWritten(cipher: (Mode, seq<Byte>, nat) -> seq<Byte>)
    ensures TransformFrom(4096, Zeros(11), 4091, Decrypt, 16, cipher, 0).count == Ok(Max64 - 5)
  {
  }

  /** The block loop of `transform` with the byte count of a cut-short
      decryption taken as the logical bytes left from `pos`, none when
      `pos` is past the logical end. */
  function TransformFromCorrected(pos: nat, input: seq<Byte>, l: nat, m: Mode, keyBlockSize: nat,
                                  cipher: (Mode, seq<Byte>, nat) -> seq<Byte>, off: nat): Transformed
    requires keyBlockSize >= 1 && off <= |input|
    decreases |input| - off
  {
    if off == |input| then Transformed(Ok(off), [])
    else
      var rem := Min(BlockSize, |input| - off);
      if rem < BlockSize || (pos + off + rem > l && m == Decrypt) then
        if m != Decrypt then Transformed(Err("Output data not aligned"), [])
        else Transformed(Ok(if l >= pos then l - pos else 0), cipher(m, input[off..off + AlignDown(rem, keyBlockSize)], pos + off))
      else
        var rest := TransformFromCorrected(pos, input, l, m, keyBlockSize, cipher, off + BlockSize);
        Transformed(rest.count, cipher(m, input[off..off + BlockSize], pos + off) + rest.data)
  }

  /** With the correction, a decryption never reports more bytes than the
      logical file holds from `pos` on, and none when it starts at or past
      the logical end. */
  lemma {:induction false} DecryptWithinLength(pos: nat, input: seq<Byte>, l: nat, keyBlockSize: nat,
                                               cipher: (Mode, seq<Byte>, nat) -> seq<Byte>, off: nat)
    requires keyBlockSize >= 1 && off <= |input| && (off == 0 || pos + off <= l)
    ensures var c := TransformFromCorrected(pos, input, l, Decrypt, keyBlockSize, cipher, off).count;
      c.Ok? && c.value <= (if l >= pos then l - pos else 0)
    decreases |input| - off
  {
    if off < |input| {
      var rem := Min(BlockSize, |input| - off);
      if !(rem < BlockSize || pos + off + rem > l) {
        DecryptWithinLength(pos, input, l, keyBlockSize, cipher, off + BlockSize);
      }
    }
  }

  /** The correction changes nothing for reads that start within the file. */
  lemma {:induction false} CorrectedAgrees(pos: nat, input: seq<Byte>, l: nat, m: Mode, keyBlockSize: nat,
                                           cipher: (Mode, seq<Byte>, nat) -> seq<Byte>, off: nat)
    requires keyBlockSize >= 1 && off <= |input| && pos <= l < Max64
    ensures TransformFromCorrected(pos, input, l, m, keyBlockSize, cipher, off) == TransformFrom(pos, input, l, m, keyBlockSize, cipher, off)
    decreases |input| - off
  {
    if off < |input| {
      var rem := Min(BlockSize, |input| - off);
      if rem < BlockSize || (pos + off + rem > l && m == Decrypt) {
        Wrap64Small(l - pos);
      } else {
        CorrectedAgrees(pos, input, l, m, keyBlockSize, cipher, off + BlockSize);
      }
    }
  }

  // ----- bulk reads -------------------------------------------------------------

  /** The underlying read `dma_read_bulk` issues for a request. */
  datatype ReadPlan = ReadPlan(alignedOffset: nat, front: nat, readSize: nat)

  /** The request moved back to its block boundary, and its size grown by
      the same amount and rounded up to whole key blocks. */
  function PlanBulkRead(offset: nat, rangeSize: nat, keyBlockSize: nat): (p: ReadPlan)
    requires IsPow2(keyBlockSize)
    ensures p.alignedOffset % BlockSize == 0 && p.alignedOffset + p.front == offset && p.front < BlockSize
    ensures p.readSize % keyBlockSize == 0 && rangeSize + p.front <= p.readSize < rangeSize + p.front + keyBlockSize
  {
    BlockSizeIsPow2();
    LowMask(offset, BlockSize);
    var front := BitAnd(offset, BlockSize - 1);
    ModUnique(offset - front, offset / BlockSize, 0, BlockSize);
    ReadPlan(offset - front, front, AlignUp(rangeSize + front, keyBlockSize))
  }

  /** What `dma_read_bulk` returns from the decrypted buffer read at the
      aligned offset, whose transform reported `s` bytes: never more than
      asked for, starting at the requested offset. */
  function BulkReadResult(decrypted: seq<Byte>, s: nat, p: ReadPlan, rangeSize: nat): (r: seq<Byte>)
    requires p.front <= Min(s, rangeSize + p.front) <= |decrypted|
    ensures |r| == Min(s, rangeSize + p.front) - p.front <= rangeSize
    ensures r == decrypted[p.front..p.front + |r|]
    ensures s >= rangeSize + p.front ==> |r| == rangeSize
  {
    decrypted[p.front..Min(s, rangeSize + p.front)]
  }
}
