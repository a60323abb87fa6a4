/** Shared value types of the Huffman engine. */
module Types {

  /** One input byte. The source keeps it in a `char`; the model uses its unsigned value. */
  type Byte = x: int | 0 <= x < 256

  /** A bit string as the source builds it in a `std::string`: `false` is '0', `true` is '1'. */
  type Bits = seq<bool>

  datatype Option<+T> = None | Some(value: T)

  /** The undefined behaviour the source reaches on some inputs. */
  datatype Fault =
    | TopOfEmptyQueue   // `pq.top()` on an empty `std::priority_queue`
    | NullDereference   // `currentNode->left` read through a null `currentNode`

  datatype Result<+T> = Ok(value: T) | Err(fault: Fault)

  /** 2 to the power `n`. */
  function Pow2(n: nat): (p: nat)
    ensures p >= 1
  {
    if n == 0 then 1 else 2 * Pow2(n - 1)
  }

  /** Bit `i` of `v`, bit 0 being the least significant (`std::bitset<8>::operator[]`). */
  function Bit(v: nat, i: nat): bool
  {
    if i == 0 then v % 2 == 1 else Bit(v / 2, i - 1)
  }
}
