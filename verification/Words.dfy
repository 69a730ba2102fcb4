/** Fixed-width unsigned integers, byte order and the small wrappers every other module uses. */
module Words {

  const U32_MAX: int := 0xffff_ffff
  const U64_MAX: int := 0xffff_ffff_ffff_ffff
  const M32: int := 0x1_0000_0000

  type u8 = x: int | 0 <= x < 0x100
  type u16 = x: int | 0 <= x < 0x1_0000
  type u32 = x: int | 0 <= x < 0x1_0000_0000
  type u64 = x: int | 0 <= x < 0x1_0000_0000_0000_0000

  datatype Option<+T> = None | Some(value: T)

  /** `u16::to_be` and `u16::from_be` on the little-endian targets the programs are built for. */
  function SwapBytes(p: u16): (r: u16)
    ensures r % 256 == p / 256 && r / 256 == p % 256
  {
    p % 256 * 256 + p / 256
  }

  lemma SwapBytesInvolutive(p: u16)
    ensures SwapBytes(SwapBytes(p)) == p
  {
  }

  function SaturatingSub(a: nat, b: nat): (r: nat) {
    if a < b then 0 else a - b
  }

  /** Lookup with a default: `map.get(key).copied().unwrap_or(0)`. */
  function GetOr0<K>(m: map<K, u32>, k: K): (r: u32) {
    if k in m then m[k] else 0
  }
}
