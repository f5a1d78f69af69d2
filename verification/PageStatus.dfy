/** The residency status a node keeps for a page (dsm_core.h, network_engine.c:21). */
module PageStatus {
  datatype Status = EMPTY | PENDING | VALID | WRITE_PENDING

  /** The page's contents are present locally. */
  predicate Resident(st: Status) {
    st == VALID || st == WRITE_PENDING
  }

  /** fault_handler.c: a read fault on a VALID page is spurious and produces no request. */
  predicate Spurious(st: Status, isWrite: bool) {
    st == VALID && !isWrite
  }

  /** fault_handler.c: the status while the request it produces is outstanding. */
  function Faulted(st: Status, isWrite: bool): Status {
    if st == VALID && isWrite then WRITE_PENDING else PENDING
  }
}
