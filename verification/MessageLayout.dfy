/** The fields of the 23 messages: the packed layouts whose sizes the framing checks a length prefix against. */
module MessageLayouts {
  import opened Core
  import opened Framing

  /** Type, stock locate, tracking number and timestamp, which open every message. */
  const HEADER: nat := 1 + 2 + 2 + 6

  /** The packed size of a message: its header and the widths of its own fields, in order. */
  function PackedSize(t: u8): nat {
    match t as char
    case 'S' => HEADER + 1
    case 'R' => HEADER + 8 + 1 + 1 + 4 + 1 + 1 + 2 + 1 + 1 + 1 + 1 + 1 + 4 + 1
    case 'H' => HEADER + 8 + 1 + 1 + 4
    case 'Y' => HEADER + 8 + 1
    case 'L' => HEADER + 4 + 8 + 1 + 1 + 1
    case 'V' => HEADER + 8 + 8 + 8
    case 'W' => HEADER + 1
    case 'K' => HEADER + 8 + 4 + 1 + 4
    case 'J' => HEADER + 8 + 4 + 4 + 4 + 4
    case 'h' => HEADER + 8 + 1 + 1
    case 'A' => HEADER + 8 + 1 + 4 + 8 + 4
    case 'F' => HEADER + 8 + 1 + 4 + 8 + 4 + 4
    case 'E' => HEADER + 8 + 4 + 8
    case 'C' => HEADER + 8 + 4 + 8 + 1 + 4
    case 'X' => HEADER + 8 + 4
    case 'D' => HEADER + 8
    case 'U' => HEADER + 8 + 8 + 4 + 4
    case 'P' => HEADER + 8 + 1 + 4 + 8 + 4 + 8
    case 'Q' => HEADER + 8 + 8 + 4 + 8 + 1
    case 'B' => HEADER + 8
    case 'I' => HEADER + 8 + 8 + 1 + 8 + 4 + 4 + 4 + 1 + 1
    case 'N' => HEADER + 8 + 1
    case 'O' => HEADER + 8 + 1 + 4 + 4 + 4 + 8 + 4 + 4
    case _ => 0
  }

  /** The declared length of every message is its packed size; what has none is not a message. */
  lemma LengthIsPackedSize(t: u8)
    ensures MessageLength(t) == PackedSize(t)
  {
  }
}
