/** What several parts share. */
module Common {

  datatype Option<T> = None | Some(value: T)

  // page_size
  const PAGE: nat := 4096

  lemma PageSize()
    ensures PAGE == 4096
  {
  }
}
