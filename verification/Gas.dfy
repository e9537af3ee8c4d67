/** Gas meters: `basicGasMeter` and `infiniteGasMeter` with their 64-bit arithmetic. */
module Gas {
  import opened Bytes

  const MAX_UINT64: int := 0xFFFF_FFFF_FFFF_FFFF
  const TWO63: int := 0x8000_0000_0000_0000
  const TWO64: int := 0x1_0000_0000_0000_0000

  type uint64 = x: int | 0 <= x <= 0xFFFF_FFFF_FFFF_FFFF

  type int64 = x: int | -0x8000_0000_0000_0000 <= x < 0x8000_0000_0000_0000

  /** What a Go `panic` carries, as far as the recovery middleware can tell. */
  datatype Panic = OutOfGas | GasOverflow | OtherPanic(value: bytes)

  datatype Meter = Limited(limit: uint64, consumed: uint64) | Infinite(consumed: uint64) {

    predicate IsPastLimit() {
      Limited? && consumed > limit
    }

    predicate IsOutOfGas() {
      Limited? && consumed >= limit
    }

    function Limit(): uint64 {
      if Limited? then limit else 0
    }

    function ConsumedToLimit(): uint64 {
      if IsPastLimit() then limit else consumed
    }

    /** The meter after `ConsumeGas(amount)`: on overflow a limited meter sticks at the
        maximum, while an infinite one is left at zero. */
    function Consume(amount: uint64): Meter {
      if consumed + amount > MAX_UINT64 then
        if Limited? then this.(consumed := MAX_UINT64) else this.(consumed := 0)
      else
        this.(consumed := consumed + amount)
    }

    /** The panic raised by `ConsumeGas(amount)`, if any. */
    function ConsumePanic(amount: uint64): Option<Panic> {
      if consumed + amount > MAX_UINT64 then Some(GasOverflow)
      else if Limited? && consumed + amount > limit then Some(OutOfGas)
      else None
    }
  }
}
