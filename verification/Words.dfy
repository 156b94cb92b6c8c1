/** Fixed-width integers of the C sources, as ranges of int with explicit wrap-around. */
module Words {
  type u8 = x: int | 0 <= x < 0x100
  type u16 = x: int | 0 <= x < 0x1_0000
  type u32 = x: int | 0 <= x < 0x1_0000_0000
  type u64 = x: int | 0 <= x < 0x1_0000_0000_0000_0000
  type i16 = x: int | -0x8000 <= x < 0x8000
  type i32 = x: int | -0x8000_0000 <= x < 0x8000_0000

  function Wrap32(x: int): u32 { x % 0x1_0000_0000 }

  function Wrap64(x: int): u64 { x % 0x1_0000_0000_0000_0000 }

  function Min(a: int, b: int): int { if a < b then a else b }

  function Max(a: int, b: int): int { if a < b then b else a }

  lemma {:induction false} MulMono(a: int, b: int, r: nat)
    ensures a <= b ==> a * r <= b * r
  {
  }

  datatype Option<+T> = None | Some(value: T)
}
