/** Types every module shares. */
module Basics {
  datatype Option<+T> = None | Some(value: T)

  datatype Result<+T, +E> = Ok(value: T) | Err(error: E) {
    predicate IsFailure() { Err? }

    function PropagateFailure<U>(): Result<U, E>
      requires Err?
    {
      Err(error)
    }

    function Extract(): T
      requires Ok?
    {
      value
    }
  }

  type byte = b: nat | b < 0x100

  type Data = seq<byte>

  const MAX_U32 := 0xffff_ffff

  type u32 = x: nat | x <= MAX_U32

  /** The next number, wrapping around. */
  function Successor(x: u32): u32 { (x + 1) % (MAX_U32 + 1) }

  function Min(a: int, b: int): int { if a <= b then a else b }

  /** The pieces one after the other. */
  function Joined<T>(pieces: seq<seq<T>>): seq<T> {
    if pieces == [] then [] else pieces[0] + Joined(pieces[1..])
  }

  function Power(base: nat, n: nat): nat { if n == 0 then 1 else base * Power(base, n - 1) }
}
