/** Types and helpers shared by every part of the scanner model: bytes,
    32-bit addresses, the Python exceptions the code can raise, and Python's
    clipping slice. */
module Common {

  /** One octet of a Python `bytes` value. */
  type byte = b: int | 0 <= b < 256

  /** An unsigned 32-bit value, as an IPv4 address is held by `ipaddress`. */
  type u32 = x: int | 0 <= x < 0x1_0000_0000

  /** The exceptions the modelled code can raise and does not catch. */
  datatype PyError =
    | ValueError     // int() / bytes.fromhex() / tuple unpacking / executor size
    | OSError        // inet_aton / inet_ntoa given a malformed address
    | StructError    // struct.unpack given the wrong number of bytes

  datatype Result<+T> = Ok(value: T) | Err(error: PyError)

  datatype Option<+T> = None | Some(value: T)

  /** `s[i:j]` for non-negative bounds: Python clips both ends to the length
      instead of failing. */
  function PySlice<T>(s: seq<T>, i: nat, j: nat): (r: seq<T>)
    ensures |r| == if i <= j && i <= |s| then (if j <= |s| then j else |s|) - i else 0
    ensures i <= j <= |s| ==> r == s[i..j]
    ensures forall k :: 0 <= k < |r| ==> r[k] == s[i + k]
  {
    if j <= i || |s| <= i then [] else if j <= |s| then s[i..j] else s[i..]
  }

  /** `b"\x00" * n` */
  function Zeros(n: nat): (r: seq<byte>)
    ensures |r| == n && forall k :: 0 <= k < n ==> r[k] == 0
  {
    seq(n, _ => 0)
  }

  /** `struct.pack("<n>s", b)`: the bytes truncated or zero-padded to exactly n. */
  function PackFixed(b: seq<byte>, n: nat): (r: seq<byte>)
    ensures |r| == n
    ensures forall k :: 0 <= k < n ==> r[k] == if k < |b| then b[k] else 0
  {
    if |b| >= n then b[..n] else b + Zeros(n - |b|)
  }

  function Pow2(n: nat): (r: nat)
    ensures r >= 1
  {
    if n == 0 then 1 else 2 * Pow2(n - 1)
  }

  lemma {:induction false} Pow2Add(a: nat, b: nat)
    ensures Pow2(a + b) == Pow2(a) * Pow2(b)
  {
    if a > 0 {
      Pow2Add(a - 1, b);
      assert Pow2(a + b) == 2 * Pow2(a - 1 + b);
    }
  }

  lemma Pow2Values()
    ensures Pow2(2) == 4 && Pow2(8) == 256 && Pow2(32) == 0x1_0000_0000
  {
    Pow2Add(8, 8);
    Pow2Add(16, 16);
  }
}
