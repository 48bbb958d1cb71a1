/** Where a record or an index entry points: a page and a slot in it. */
module Rids {
  datatype Rid = Rid(page: int, slot: int)
}
