/** The cost parameters `ScryptParams { log_n, r, p }`. The constructor
    `ScryptParams::new` lives in a module that is not part of this model: it is
    represented by the predicate it decides, supplied by the caller. */
module Params {
  import opened Types

  datatype ScryptParams = ScryptParams(logN: uint8, r: uint32, p: uint32)

  /** Parameters as the constructor hands them out: it refuses a zero `r` or `p`. */
  type ValidParams = sp: ScryptParams | sp.r > 0 && sp.p > 0
    witness ScryptParams(0, 1, 1)

  /** The acceptance test of `ScryptParams::new(log_n, r, p)`; whatever else it
      checks, it never accepts `r == 0` or `p == 0`. */
  type ParamsCheck = f: (uint8, uint32, uint32) -> bool
    | forall logN, r, p :: f(logN, r, p) ==> r > 0 && p > 0
    witness (logN: uint8, r: uint32, p: uint32) => r > 0 && p > 0

  /** `ScryptParams::new`: either the three values unchanged, or a failure. */
  function NewParams(accept: ParamsCheck, logN: uint8, r: uint32, p: uint32): (res: Option<ValidParams>)
    ensures res.Some? <==> accept(logN, r, p)
    ensures res.Some? ==> res.value.logN == logN && res.value.r == r && res.value.p == p
    ensures r == 0 || p == 0 ==> res.None?
  {
    if accept(logN, r, p) then Some(ScryptParams(logN, r, p)) else None
  }

  /** `1 << log_n`, the number of blocks ROMix keeps in its scratch buffer. */
  function Pow2(k: nat): (n: nat)
    ensures n >= 1
  {
    if k == 0 then 1 else 2 * Pow2(k - 1)
  }
}
