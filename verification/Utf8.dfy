/** UTF-8, as section 3 of RFC 3629 gives it. */
module Utf8 {
  type Octet = b: int | 0 <= b < 256

  /** The octets of a code point. */
  function Encoded(point: nat): (r: seq<Octet>)
    requires point < 0x11_0000
    ensures 1 <= |r| <= 4
  {
    if point < 0x80 then [point]
    else if point < 0x800 then [0xc0 + point / 0x40, Tail(point)]
    else if point < 0x1_0000 then [0xe0 + point / 0x1000, Tail(point / 0x40), Tail(point)]
    else [0xf0 + point / 0x4_0000, Tail(point / 0x1000), Tail(point / 0x40), Tail(point)]
  }

  function Tail(bits: nat): Octet {
    0x80 + bits % 0x40
  }

  predicate StandsAt(point: nat, s: seq<Octet>, i: nat)
    requires point < 0x11_0000 && i <= |s|
  {
    Encoded(point) <= s[i..]
  }
}
