/** What several modules use: optional values, and joining of sequences. */
module Common {
  datatype Option<T> = None | Some(value: T)

  lemma ConcatAssociates<T>(a: seq<T>, b: seq<T>, c: seq<T>)
    ensures a + b + c == a + (b + c)
  {
  }
}
