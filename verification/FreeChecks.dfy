/** The checks of the locked `free_span` (memory_heap.rs) and what they do to the count of pages in
    use. */
module FreeChecks {
  import opened Options
  import opened SpanModel

  /** `pages_in_use` once a span has passed the checks; `None` when it does not pass. */
  function PagesAfterFree(state: State, allocationsCount: nat, generation: nat, pages: nat,
                          g: nat, pagesInUse: nat): Option<nat> {
    match state
    case Manual => if allocationsCount != 0 then None else Some(pagesInUse)
    case InUse =>
      if allocationsCount != 0 || generation != g || pagesInUse < pages then None else Some(pagesInUse - pages)
    case _ => None
  }

  method CheckFree(state: State, allocationsCount: nat, generation: nat, pages: nat, g: nat, pagesInUse: nat)
    returns (r: Option<nat>)
    ensures r == PagesAfterFree(state, allocationsCount, generation, pages, g, pagesInUse)
    ensures r.Some? ==> allocationsCount == 0 && (state == Manual || (state == InUse && generation == g))
    ensures r.Some? ==> r.value + (if state == InUse then pages else 0) == pagesInUse
  {
    var left := pagesInUse;
    match state {
      case Manual =>
        if allocationsCount != 0 {
          return None;
        }
      case InUse =>
        if allocationsCount != 0 || generation != g || pagesInUse < pages {
          return None;
        }
        left := left - pages;
      case _ => return None;
    }
    r := Some(left);
  }
}
