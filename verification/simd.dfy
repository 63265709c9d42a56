/**
 The four SSE2 intrinsics the vector brightness kernel uses, as pure functions
 on 16-lane byte vectors (`__m128i` viewed as `uint8_t[16]`, lane 0 lowest).
 */
module Sse {
  import opened Bits

  /** Lanes of one 128-bit register. */
  const Lanes: nat := 16

  type Vec16 = v: seq<byte> | |v| == Lanes witness seq(16, _ => 0)

  /** One lane of `_mm_adds_epu8`: unsigned add that sticks at 255. */
  function AddsU8(a: byte, b: byte): byte
  {
    if a + b > 255 then 255 else a + b
  }

  /** One lane of `_mm_subs_epu8`: unsigned subtract that sticks at 0. */
  function SubsU8(a: byte, b: byte): byte
  {
    if a < b then 0 else a - b
  }

  /** Saturating lane arithmetic is the exact clamp of the true sum or difference. */
  lemma SaturatingIsClamp(a: byte, b: byte)
    ensures AddsU8(a, b) == Clamp(a + b)
    ensures SubsU8(a, b) == Clamp(a - b)
    ensures AddsU8(a, 0) == a && SubsU8(a, 0) == a
  {
  }

  /** `_mm_adds_epu8(a, b)`. */
  function AddsEpu8(a: Vec16, b: Vec16): Vec16
  {
    seq(Lanes, i requires 0 <= i < Lanes => AddsU8(a[i], b[i]))
  }

  /** `_mm_subs_epu8(a, b)`. */
  function SubsEpu8(a: Vec16, b: Vec16): Vec16
  {
    seq(Lanes, i requires 0 <= i < Lanes => SubsU8(a[i], b[i]))
  }

  /** `_mm_set_epi8(e15, ..., e0)`: the arguments are listed from the highest lane down to lane 0. */
  function SetEpi8(e15: byte, e14: byte, e13: byte, e12: byte, e11: byte, e10: byte, e9: byte, e8: byte,
                   e7: byte, e6: byte, e5: byte, e4: byte, e3: byte, e2: byte, e1: byte, e0: byte): Vec16
  {
    [e0, e1, e2, e3, e4, e5, e6, e7, e8, e9, e10, e11, e12, e13, e14, e15]
  }

  /** `_mm_loadu_si128`: the 16 bytes of `mem` starting at `p`, with no alignment demanded. */
  function LoadU(mem: seq<byte>, p: nat): (v: Vec16)
    requires p + Lanes <= |mem|
    ensures forall l :: 0 <= l < Lanes ==> v[l] == mem[p + l]
  {
    mem[p..p + Lanes]
  }

  /** `_mm_storeu_si128`: overwrite the 16 bytes of `mem` starting at `p` with `v`. */
  function StoreU(mem: seq<byte>, p: nat, v: Vec16): (r: seq<byte>)
    requires p + Lanes <= |mem|
    ensures |r| == |mem|
    ensures forall i :: p <= i < p + Lanes ==> r[i] == v[i - p]
    ensures forall i :: 0 <= i < |mem| && !(p <= i < p + Lanes) ==> r[i] == mem[i]
  {
    mem[..p] + v + mem[p + Lanes..]
  }

  /** Loading back what was just stored gives the stored vector. */
  lemma LoadAfterStore(mem: seq<byte>, p: nat, v: Vec16)
    requires p + Lanes <= |mem|
    ensures LoadU(StoreU(mem, p, v), p) == v
  {
  }

  /** Storing what was just loaded leaves memory as it was. */
  lemma StoreWhatWasLoaded(mem: seq<byte>, p: nat)
    requires p + Lanes <= |mem|
    ensures StoreU(mem, p, LoadU(mem, p)) == mem
  {
  }
}
