/** Scalar vocabulary shared by every structure: fixed-width integers, sides and pool handles. */
module Core {

  type u8 = x: nat | x < 0x100
  type u16 = x: nat | x < 0x1_0000
  type u32 = x: nat | x < 0x1_0000_0000
  type u64 = x: nat | x < 0x1_0000_0000_0000_0000

  type Price = u32
  type Qty = u32
  type OrderRef = u64
  type Owner = u16
  type Timestamp = u64

  /** Marker for "this side is empty" where a best price is cached. */
  const NO_PRICE: Price := 0

  datatype Side = Buy | Sell {
    function Opposite(): Side {
      if Buy? then Sell else Buy
    }

    /** Is price a strictly nearer the inside than price b on this side? */
    predicate Inside(a: int, b: int) {
      if Buy? then a > b else a < b
    }
  }

  /** A 24-bit slot index and an 8-bit generation, the two fields packed into one 32-bit word. */
  datatype Handle = Handle(index: nat, gen: u8) {
    predicate IsNull() {
      this == NULL
    }
  }

  /** The top index value is reserved, so a pool holds at most this many slots. */
  const MAX_CAPACITY: nat := 0xFF_FFFF

  /** All 32 bits set. Its index is MAX_CAPACITY, which no pool can contain. */
  const NULL: Handle := Handle(MAX_CAPACITY, 0xFF)
}
