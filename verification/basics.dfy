/** What the models share: the width of a word, the size of a page, and two idioms. */
module Basics {

  /** One more than the largest unsigned long. */
  const WORD: nat := 0x1_0000_0000
  const PAGE_SIZE: nat := 4096

  datatype Option<T> = None | Some(value: T)

  ghost predicate NoDup<T>(s: seq<T>) { forall i, j :: 0 <= i < j < |s| ==> s[i] != s[j] }
}
