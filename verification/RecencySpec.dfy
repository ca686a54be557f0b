/** The bounded recency map of include/recency_pool.hh as values. */
module RecencySpec {
  import opened Pages
  import opened Sequences
  import opened AccessTimes

  /** The values after inserting v under p, when the keys that remain are keys. */
  ghost function Remember(saved: map<PageId, Times>, keys: seq<PageId>, p: PageId, v: Times): map<PageId, Times> {
    map q | q in Elems(keys) && (q == p || q in saved) :: if q == p then v else saved[q]
  }
}
