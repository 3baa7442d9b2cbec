/** RandomizeMac: overwrite an address buffer in place with random octets
    and then apply the universal/local step to its first octet.

    The random source is the parameter `draw`: draw(i) is the byte that
    crypto/rand yields in the loop iteration for index i. Every property
    below holds for every draw. */
module Randomize {
  import opened Wrappers
  import opened MacErrors
  import opened HwAddr

  /** Universal/local (U/L) bit of the first octet, IEEE Std 802-2014 clause 8. */
  const LocalBit: Byte := 0x02
  /** Individual/group (I/G) bit of the first octet: set for multicast. */
  const GroupBit: Byte := 0x01

  /** What the loop stores at index i (i >= start): the drawn byte, with the
      first octet cut to its low nibble. */
  function Drawn(i: nat, draw: nat -> Byte): Byte
  {
    if i == 0 then draw(0) & 0x0F else draw(i)
  }

  /** The step after the loop: `bia` ANDs the first octet with the U/L bit,
      otherwise the U/L bit is ORed in. */
  function AdminStep(b: Byte, bia: bool): (r: Byte)
    ensures bia ==> r & LocalBit == b & LocalBit && r & !LocalBit == 0
    ensures !bia ==> r & LocalBit == LocalBit && r & !LocalBit == b & !LocalBit
  {
    if bia then b & LocalBit else b | LocalBit
  }

  /** The buffer RandomizeMac leaves behind, or the error it returns. */
  function Randomized(seed: seq<Byte>, start: int, bia: bool, draw: nat -> Byte): (r: Result<Mac6, MacError>)
    // the length is checked first, then the start index
    ensures |seed| != 6 ==> r == Failure(InvalidSize(|seed|))
    ensures |seed| == 6 && start != 0 && start != 3 ==> r == Failure(InvalidStart(start))
    ensures r.Success? <==> |seed| == 6 && (start == 0 || start == 3)
    // start = 3 keeps octets 1 and 2 and fills 3..5 with the draws
    ensures r.Success? && start == 3 ==>
      r.value[1..3] == seed[1..3] && r.value[3..] == [draw(3), draw(4), draw(5)]
    // start = 0 fills 1..5 with the draws
    ensures r.Success? && start == 0 ==>
      r.value[1..] == [draw(1), draw(2), draw(3), draw(4), draw(5)]
    // the octet the U/L step works on: the masked draw, or the seed's own first octet
    ensures r.Success? ==>
      var b0 := if start == 0 then draw(0) & 0x0F else seed[0];
      r.value[0] == if bia then b0 & LocalBit else b0 | LocalBit
    // without bia: locally administered, and with start = 0 within 0x02..0x0F
    ensures r.Success? && !bia ==> r.value[0] & LocalBit == LocalBit
    ensures r.Success? && !bia && start == 0 ==> 0x02 <= r.value[0] <= 0x0F
    // with bia: the U/L bit is kept as it was, every other bit is cleared,
    // so the first octet is 0x00 or 0x02 and never multicast
    ensures r.Success? && bia ==> r.value[0] == 0x00 || r.value[0] == 0x02
    ensures r.Success? && bia ==> r.value[0] & GroupBit == 0
  {
    if |seed| != 6 then Failure(InvalidSize(|seed|))
    else if start != 0 && start != 3 then Failure(InvalidStart(start))
    else
      var filled := seq(6, i requires 0 <= i < 6 => if i < start then seed[i] else Drawn(i, draw));
      Success(filled[0 := AdminStep(filled[0], bia)])
  }

  /** RandomizeMac(macbytes, start, bia): on success the buffer itself is
      the result, rewritten in place; on failure it is left untouched. */
  method RandomizeMac(macbytes: array<Byte>, start: int, bia: bool, draw: nat -> Byte)
    returns (mac: Result<array<Byte>, MacError>)
    modifies macbytes
    ensures Randomized(old(macbytes[..]), start, bia, draw).Failure? ==>
      mac.Failure? && mac.error == Randomized(old(macbytes[..]), start, bia, draw).error &&
      macbytes[..] == old(macbytes[..])
    ensures Randomized(old(macbytes[..]), start, bia, draw).Success? ==>
      mac == Success(macbytes) && macbytes[..] == Randomized(old(macbytes[..]), start, bia, draw).value
  {
    if macbytes.Length != 6 {
      return Failure(InvalidSize(macbytes.Length));
    }
    if start != 0 && start != 3 {
      return Failure(InvalidStart(start));
    }
    var i := start;
    while i < 6
      invariant start <= i <= 6
      invariant forall k :: 0 <= k < start ==> macbytes[k] == old(macbytes[k])
      invariant forall k :: start <= k < i ==> macbytes[k] == Drawn(k, draw)
    {
      var buf := draw(i);
      if i == 0 {
        macbytes[i] := buf & 0x0F;
      } else {
        macbytes[i] := buf;
      }
      i := i + 1;
    }
    if bia {
      macbytes[0] := macbytes[0] & LocalBit;
    } else {
      macbytes[0] := macbytes[0] | LocalBit;
    }
    mac := Success(macbytes);
    assert macbytes[..] == Randomized(old(macbytes[..]), start, bia, draw).value;
  }
}
