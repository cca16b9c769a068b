/** The answer of a table lookup that may miss: the source checks an item
    kind against its table, and the judge's output reader checks a word
    against the command list. */
module Lookup {

  datatype Option<T> = None | Some(value: T)
}
