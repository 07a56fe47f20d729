/** Invite codes: four random bytes printed as lower-case hexadecimal
    (`randomBytes(4).toString("hex")`). */
module InviteCode {

  newtype byte = b: int | 0 <= b < 256

  /** The output of `randomBytes(4)`. */
  type Bytes4 = s: seq<byte> | |s| == 4 witness [0, 0, 0, 0]

  predicate IsHexChar(c: char) {
    '0' <= c <= '9' || 'a' <= c <= 'f'
  }

  /** What the generator can produce: eight lower-case hexadecimal characters. */
  predicate IsInviteCode(s: string) {
    |s| == 8 && forall i :: 0 <= i < |s| ==> IsHexChar(s[i])
  }

  function HexChar(n: int): (c: char)
    requires 0 <= n < 16
    ensures IsHexChar(c)
  {
    if n < 10 then ('0' as int + n) as char else ('a' as int + n - 10) as char
  }

  function HexValue(c: char): (n: int)
    requires IsHexChar(c)
    ensures 0 <= n < 16 && HexChar(n) == c
  {
    if c <= '9' then c as int - '0' as int else c as int - 'a' as int + 10
  }

  /** `Buffer.toString("hex")`: two characters per byte, high nibble first. */
  function HexEncode(bs: seq<byte>): (s: string)
    ensures |s| == 2 * |bs|
    ensures forall i :: 0 <= i < |s| ==> IsHexChar(s[i])
  {
    if bs == [] then "" else [HexChar(bs[0] as int / 16), HexChar(bs[0] as int % 16)] + HexEncode(bs[1..])
  }

  /** Reads a hexadecimal string back into bytes. */
  function HexDecode(s: string): seq<byte>
    requires |s| % 2 == 0
    requires forall i :: 0 <= i < |s| ==> IsHexChar(s[i])
  {
    if s == [] then [] else [(16 * HexValue(s[0]) + HexValue(s[1])) as byte] + HexDecode(s[2..])
  }

  /** Encoding loses nothing: distinct random bytes give distinct codes. */
  lemma {:induction false} HexRoundTrip(bs: seq<byte>)
    ensures HexDecode(HexEncode(bs)) == bs
  {
    if bs != [] {
      var s := HexEncode(bs);
      assert s[2..] == HexEncode(bs[1..]);
      HexRoundTrip(bs[1..]);
      assert 16 * HexValue(s[0]) + HexValue(s[1]) == bs[0] as int;
    }
  }

  /** `generateInviteCode()` given the bytes the random source returned. */
  function Generate(random: Bytes4): (code: string)
    ensures IsInviteCode(code)
  {
    HexEncode(random)
  }

  lemma GenerateInjective(a: Bytes4, b: Bytes4)
    ensures Generate(a) == Generate(b) <==> a == b
  {
    HexRoundTrip(a);
    HexRoundTrip(b);
  }
}
