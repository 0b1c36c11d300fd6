/** Values shared by every extraction strategy: the optional result of a fetch
    and the rows handed to the output stage. */
module Common {

  /** `None` is the "nothing" a page fetch yields when the request failed. */
  datatype Option<+T> = None | Some(value: T)

  /** One cell of an output tuple: the strategies emit strings and counts. */
  datatype Cell = Str(text: string) | Int(number: int)

  /** An output tuple; the first row of a result is its header. */
  type Row = seq<Cell>

  /** Every row of `table` has `n` cells. */
  predicate HasArity(table: seq<Row>, n: nat)
  {
    forall i :: 0 <= i < |table| ==> |table[i]| == n
  }
}
