/** C characters, fixed-width integers and their little-endian memory form. */
module Bytes {

  // A C `char` seen as the byte it occupies.  Wire data and text share this type.
  type byte = c: char | c as int < 256

  type bytes = seq<byte>

  type uint16 = n: int | 0 <= n < 0x1_0000

  type uint32 = n: int | 0 <= n < 0x1_0000_0000

  type int32 = n: int | -0x8000_0000 <= n < 0x8000_0000

  function Zeros(n: nat): (s: bytes)
    ensures |s| == n && forall i :: 0 <= i < n ==> s[i] == 0 as char
  {
    seq(n, _ => 0 as char)
  }

  function Le16(n: uint16): (s: bytes)
    ensures |s| == 2
  {
    [(n % 256) as char, (n / 256) as char]
  }

  function FromLe16(s: bytes): uint16
    requires |s| == 2
  {
    s[0] as int + 256 * s[1] as int
  }

  function Le32(n: uint32): (s: bytes)
    ensures |s| == 4
  {
    Le16(n % 0x1_0000) + Le16(n / 0x1_0000)
  }

  function FromLe32(s: bytes): uint32
    requires |s| == 4
  {
    FromLe16(s[..2]) + 0x1_0000 * FromLe16(s[2..])
  }

  // Two's complement, the representation MSVC gives an `int`.
  function LeInt(i: int32): (s: bytes)
    ensures |s| == 4
  {
    Le32(if i < 0 then i + 0x1_0000_0000 else i)
  }

  function FromLeInt(s: bytes): int32
    requires |s| == 4
  {
    var n := FromLe32(s);
    if n < 0x8000_0000 then n else n - 0x1_0000_0000
  }

  lemma Le16RoundTrip(n: uint16)
    ensures FromLe16(Le16(n)) == n
  {
  }

  lemma Le32RoundTrip(n: uint32)
    ensures FromLe32(Le32(n)) == n
  {
    assert Le32(n)[..2] == Le16(n % 0x1_0000);
    assert Le32(n)[2..] == Le16(n / 0x1_0000);
  }

  lemma LeIntRoundTrip(i: int32)
    ensures FromLeInt(LeInt(i)) == i
  {
    Le32RoundTrip(if i < 0 then i + 0x1_0000_0000 else i);
  }

  /** The low byte comes first. */
  lemma LittleEndian16(n: uint16)
    ensures Le16(n)[0] as int + 0x100 * Le16(n)[1] as int == n
  {
  }

  lemma LittleEndian32(n: uint32)
    ensures var s := Le32(n);
            s[0] as int + 0x100 * s[1] as int + 0x1_0000 * s[2] as int + 0x100_0000 * s[3] as int == n
  {
    var low, high := Le16(n % 0x1_0000), Le16(n / 0x1_0000);
    assert Le32(n)[0] == low[0] && Le32(n)[1] == low[1] && Le32(n)[2] == high[0] && Le32(n)[3] == high[1];
    LittleEndian16(n % 0x1_0000);
    LittleEndian16(n / 0x1_0000);
  }

  /** A negative number is kept as its distance below 2^32. */
  lemma TwosComplement(i: int32)
    ensures var s := LeInt(i);
            s[0] as int + 0x100 * s[1] as int + 0x1_0000 * s[2] as int + 0x100_0000 * s[3] as int
            == if i < 0 then 0x1_0000_0000 + i else i
  {
    hide Le32;
    LittleEndian32(if i < 0 then i + 0x1_0000_0000 else i);
  }

  /** Nothing is lost when bytes are read as a number and written again. */
  lemma Le16Inverse(s: bytes)
    requires |s| == 2
    ensures Le16(FromLe16(s)) == s
  {
  }

  lemma Le32Inverse(s: bytes)
    requires |s| == 4
    ensures Le32(FromLe32(s)) == s
  {
    hide Le16, FromLe16;
    var low, high := FromLe16(s[..2]), FromLe16(s[2..]);
    assert FromLe32(s) % 0x1_0000 == low && FromLe32(s) / 0x1_0000 == high;
    Le16Inverse(s[..2]);
    Le16Inverse(s[2..]);
  }

  /** `b` with the bytes from `at` on replaced by `s`: what memcpy leaves behind. */
  function Overwrite(b: bytes, at: nat, s: bytes): (r: bytes)
    requires at + |s| <= |b|
    ensures |r| == |b|
  {
    seq(|b|, i requires 0 <= i < |b| => if at <= i < at + |s| then s[i - at] else b[i])
  }

  lemma SliceOfSlice(s: bytes, i: nat, j: nat, k: nat, l: nat)
    requires i <= j <= |s| && k <= l <= j - i
    ensures s[i..j][k..l] == s[i + k..i + l]
  {
    assert forall x :: 0 <= x < l - k ==> s[i..j][k..l][x] == s[i..j][k + x] == s[i + k..i + l][x];
  }

  lemma ConcatAssociates<T>(a: seq<T>, b: seq<T>, c: seq<T>)
    ensures a + b + c == a + (b + c)
  {
  }

  method Memcpy(dest: array<byte>, at: nat, s: bytes)
    requires at + |s| <= dest.Length
    modifies dest
    ensures dest[..] == Overwrite(old(dest[..]), at, s)
  {
    forall i | 0 <= i < |s| {
      dest[at + i] := s[i];
    }
  }
}
