/** What several of the other modules use. */
module Common {

  type Byte = b: int | 0 <= b < 0x100

  datatype Option<T> = None | Some(value: T)

  /** The resampler's `stbir__small_float`, below which a number counts as zero. */
  const SMALL: real := 1.0 / 1048576.0 / 1048576.0 / 1048576.0 / 1048576.0 / 1048576.0 / 1048576.0

  /** It is 2^-120. */
  lemma SmallIs()
    ensures SMALL * 1329227995784915872903807060280344576.0 == 1.0
  {
  }

  function Times(x: real, y: real): real {
    x * y
  }

  lemma Grows(m: nat, p: int, q: int)
    requires p <= q
    ensures m * p <= m * q
  {
  }
}
