/** The two leaf helpers of the scanner: the content identifier of a file
    (`hashFileSHA256`, main.go:125-138) and the per-file key
    (`generateAESKey`, main.go:141-149).  SHA-256 itself and the operating
    system's random source are oracles: their outcomes are parameters.  What
    is modelled is what the program does with those outcomes: the `%x`
    rendering of the digest and the 32-byte key buffer. */
module Hashing {
  import opened Common

  /** Length in bytes of a SHA-256 digest (`sha256.Size`). */
  const DigestSize: nat := 32

  /** Length in bytes of the per-file AES-256 key (`make([]byte, 32)`). */
  const KeySize: nat := 32

  /** What `hasher.Sum(nil)` yields: always exactly 32 bytes. */
  type Digest = s: seq<byte> | |s| == DigestSize witness seq(32, _ => 0 as byte)

  /** What `rand.Read` leaves in the 32-byte key buffer when it succeeds. */
  type KeyBlock = s: seq<byte> | |s| == KeySize witness seq(32, _ => 0 as byte)

  /** One lower-case hexadecimal digit, as `%x` writes it. */
  function HexDigit(k: nat): (c: char)
    requires k < 16
    ensures IsHexChar(c)
  {
    if k < 10 then ('0' as int + k) as char else ('a' as int + k - 10) as char
  }

  predicate IsHexChar(c: char) {
    '0' <= c <= '9' || 'a' <= c <= 'f'
  }

  predicate IsLowerHex(s: string) {
    forall i :: 0 <= i < |s| ==> IsHexChar(s[i])
  }

  /** The value of a hexadecimal digit; 0 for any other character. */
  function DigitValue(c: char): (v: nat)
    ensures v < 16
  {
    if '0' <= c <= '9' then c as int - '0' as int
    else if 'a' <= c <= 'f' then c as int - 'a' as int + 10
    else 0
  }

  /** `fmt.Sprintf("%x", bs)`: two lower-case digits per byte, high nibble first. */
  function Hex(bs: seq<byte>): (s: string)
    ensures |s| == 2 * |bs|
    ensures IsLowerHex(s)
  {
    if bs == [] then ""
    else
      var b := bs[0] as int;
      [HexDigit(b / 16), HexDigit(b % 16)] + Hex(bs[1..])
  }

  /** The inverse rendering: reads the bytes back from pairs of digits. */
  function Unhex(s: string): (bs: seq<byte>)
    ensures |bs| == |s| / 2
  {
    if |s| < 2 then []
    else [(16 * DigitValue(s[0]) + DigitValue(s[1])) as byte] + Unhex(s[2..])
  }

  lemma DigitRoundTrip(k: nat)
    requires k < 16
    ensures DigitValue(HexDigit(k)) == k
  {
  }

  /** `%x` loses nothing: the bytes can be read back from the text. */
  lemma {:induction false} UnhexHex(bs: seq<byte>)
    ensures Unhex(Hex(bs)) == bs
  {
    if bs != [] {
      var b := bs[0] as int;
      DigitRoundTrip(b / 16);
      DigitRoundTrip(b % 16);
      var s := Hex(bs);
      assert s[2..] == Hex(bs[1..]);
      UnhexHex(bs[1..]);
    }
  }

  /** Distinct digests render as distinct strings, so deduplicating rows by
      the `sha256` text is the same as deduplicating by digest. */
  lemma HexInjective(a: seq<byte>, b: seq<byte>)
    ensures Hex(a) == Hex(b) <==> a == b
  {
    if Hex(a) == Hex(b) {
      UnhexHex(a);
      UnhexHex(b);
    }
  }

  /** `hashFileSHA256(path)`: `hashed` is the oracle standing for opening the
      file and streaming it through SHA-256 (main.go:126-135).  On failure the
      Go function returns `("", err)`; otherwise the `%x` text and nil. */
  function HashFileSHA256(hashed: Result<Digest>): (r: (string, Option<Error>))
    ensures r.1.Some? <==> hashed.Failure?
    ensures hashed.Failure? ==> r == ("", Some(hashed.error))
    ensures hashed.Success? ==>
      |r.0| == 2 * DigestSize && IsLowerHex(r.0) && Unhex(r.0) == hashed.value
  {
    match hashed
    case Failure(e) => ("", Some(e))
    case Success(d) =>
      UnhexHex(d);
      (Hex(d), None)
  }

  /** `generateAESKey()`: `random` is the outcome of `rand.Read` on a fresh
      32-byte buffer (main.go:142-143).  On failure the Go function returns a
      nil key with the error; otherwise the filled buffer. */
  function GenerateAESKey(random: Result<KeyBlock>): (key: Result<seq<byte>>)
    ensures key.Success? <==> random.Success?
    ensures key.Success? ==> |key.value| == KeySize && key.value == random.value
    ensures key.Failure? ==> key.error == random.error
  {
    match random
    case Failure(e) => Failure(e)
    case Success(block) => Success(block)
  }
}
