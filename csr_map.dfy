/** The static table that assigns register-bank indices to the blocks of the
    instrument's top level. */
module CsrMap {

  /** Number of bank indices the register bus decodes. */
  const BankCount: nat := 32

  /** The blocks that own a register bank, by their names in the table. */
  datatype Bank = Xadc | GpioN | GpioP | FastA | FastB | SlowA | SlowB | SlowC | SlowD

  /** The index each bank is assigned. */
  function Index(b: Bank): (i: nat)
    ensures i < BankCount
  {
    match b
    case Xadc => 29
    case GpioN => 30
    case GpioP => 31
    case FastA => 0
    case FastB => 1
    case SlowA => 2
    case SlowB => 3
    case SlowC => 4
    case SlowD => 5
  }

  /** Every index is decodable and no two banks share one. */
  lemma IndexValid()
    ensures forall b :: Index(b) < BankCount
    ensures forall a, b :: Index(a) == Index(b) ==> a == b
  {
  }
}
