/** The game's operations either finish or panic. A panic aborts the whole
    operation, so it is modelled as an error result that carries its cause. */
module Outcome {
  import opened Point

  datatype Fault =
    | Underflow    // a checked u16 subtraction went below zero
    | Overflow     // a checked u32 addition went past the maximum
    | EmptyRange   // `gen_range` was handed a range with start >= end
    | Exhausted    // a rejection loop did not stop within its allowed attempts

  datatype Result<+T> = Ok(value: T) | Err(fault: Fault) {
    predicate IsFailure() { Err? }

    function PropagateFailure<U>(): Result<U>
      requires Err?
    {
      Err(fault)
    }

    function Extract(): T
      requires Ok?
    {
      value
    }
  }

  /** `a - b` on u16 with the overflow check of a debug build. */
  function Sub16(a: u16, b: u16): (r: Result<u16>)
    ensures r.Ok? <==> b <= a
    ensures r.Ok? ==> r.value + b == a
    ensures r.Err? ==> r.fault == Underflow
  {
    if a < b then Err(Underflow) else Ok(a - b)
  }

  /** `a + b` on u32 with the overflow check of a debug build. */
  function Add32(a: u32, b: u32): (r: Result<u32>)
    ensures r.Ok? <==> a + b < U32_LIMIT
    ensures r.Ok? ==> r.value == a + b
    ensures r.Err? ==> r.fault == Overflow
  {
    if a + b >= U32_LIMIT then Err(Overflow) else Ok(a + b)
  }
}
