/**
 * The `DiffUtil.ItemCallback` the list adapter is built with: two entries
 * are the same item when their names agree, and have the same contents when
 * their names and their URLs agree.
 */
module ItemDiff {
  import opened Api

  /** `areItemsTheSame`: the name identifies an entry, so the new one can differ from the old only in its URL. */
  function AreItemsTheSame(oldItem: Result, newItem: Result): (same: bool)
    ensures same <==> newItem == oldItem.(url := newItem.url)
  {
    oldItem.name == newItem.name
  }

  /** `areContentsTheSame`: name and URL, the only fields shown or kept, both agree. */
  function AreContentsTheSame(oldItem: Result, newItem: Result): (same: bool)
    ensures same ==> AreItemsTheSame(oldItem, newItem)
    ensures same <==> oldItem == newItem
  {
    oldItem.name == newItem.name && oldItem.url == newItem.url
  }

  /** Both predicates are equivalence relations, the finer one refining the coarser. */
  lemma DiffCallbackLaws(a: Result, b: Result, c: Result)
    ensures AreItemsTheSame(a, a) && AreContentsTheSame(a, a)
    ensures AreItemsTheSame(a, b) == AreItemsTheSame(b, a)
    ensures AreContentsTheSame(a, b) == AreContentsTheSame(b, a)
    ensures AreItemsTheSame(a, b) && AreItemsTheSame(b, c) ==> AreItemsTheSame(a, c)
    ensures AreContentsTheSame(a, b) && AreContentsTheSame(b, c) ==> AreContentsTheSame(a, c)
    ensures AreContentsTheSame(a, b) ==> AreItemsTheSame(a, b)
  {
  }

  /** An entry whose URL changed is the same item with new contents: an update, not a new row. */
  lemma SameItemChangedContents(name: string, url1: string, url2: string)
    requires url1 != url2
    ensures AreItemsTheSame(Result(name, url1), Result(name, url2))
    ensures !AreContentsTheSame(Result(name, url1), Result(name, url2))
  {
  }
}
