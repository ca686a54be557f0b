/** Page numbers, and the identifier no page may have (include/bufpool.hh, include/recency_pool.hh). */
module Pages {
  const INVALID_ID: nat := 0xFFFF_FFFF_FFFF_FFFF

  type PageId = p: nat | p <= INVALID_ID
}
