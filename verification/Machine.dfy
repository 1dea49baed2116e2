/** Machine integers and bounded kernel maps shared by the four tracers. */
module Machine {
  const TWO32: int := 0x1_0000_0000
  const TWO64: int := 0x1_0000_0000_0000_0000

  type u8 = x: int | 0 <= x < 0x100
  type u32 = x: int | 0 <= x < 0x1_0000_0000
  type u64 = x: int | 0 <= x < 0x1_0000_0000_0000_0000
  type i32 = x: int | -0x8000_0000 <= x < 0x8000_0000
  type i64 = x: int | -0x8000_0000_0000_0000 <= x < 0x8000_0000_0000_0000

  datatype Option<+T> = None | Some(value: T)

  function Min(a: int, b: int): int { if a < b then a else b }

  function WrapAdd(a: u64, b: u64): u64 { (a + b) % TWO64 }

  function WrapSub(a: u64, b: u64): u64 { (a - b) % TWO64 }

  function SatSub(a: u64, b: u64): u64 { if a < b then 0 else a - b }

  function SatAdd(a: u64, b: u64): u64 { if a + b < TWO64 then a + b else TWO64 - 1 }

  /** Kernel runs the programs against bounded maps; Ideal is the tracker with
      unbounded maps and an unbounded ring that never loses anything. */
  datatype Mode = Kernel | Ideal

  /** Does an insert take effect? `ok` is the environment's verdict (the kernel
      may refuse an insert for reasons of its own); a full map refuses new keys. */
  predicate Stored<K, V>(mode: Mode, m: map<K, V>, k: K, cap: nat, ok: bool) {
    mode.Ideal? || (ok && (k in m || |m| < cap))
  }

  function Insert<K, V>(mode: Mode, m: map<K, V>, k: K, v: V, cap: nat, ok: bool): (r: map<K, V>)
    ensures mode.Kernel? && |m| <= cap ==> |r| <= cap
  {
    if Stored(mode, m, k, cap, ok) then
      assert k !in m ==> m[k := v].Keys == m.Keys + {k};
      assert k in m ==> m[k := v].Keys == m.Keys;
      m[k := v]
    else m
  }

  /** Every key of `a` has the same value in `b`. */
  ghost predicate SubMap<K, V>(a: map<K, V>, b: map<K, V>) {
    forall k :: k in a ==> k in b && a[k] == b[k]
  }

  function Remove<K, V>(m: map<K, V>, k: K): (r: map<K, V>)
    ensures |r| == if k in m then |m| - 1 else |m|
  {
    assert (m - {k}).Keys == m.Keys - {k};
    if k in m then m - {k} else m
  }
}
