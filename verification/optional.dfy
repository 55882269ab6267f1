/** The optional value used for a trie node's terminal word. */
module Optional {

  /** Either no value, or a value of type T. */
  datatype Option<+T> = None | Some(value: T)
}
