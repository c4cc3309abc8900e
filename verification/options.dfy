/** An optional value. In the price table a `None` cell is a missing price
    (pandas' NaN); a `Some` cell holds an observed closing price. */
module Options {

  datatype Option<+T> = None | Some(value: T)
}
