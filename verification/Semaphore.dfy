/** src/semaphore.rs: the counter that bounds the memory of buffered chunks. */
module Semaphores {

  class Semaphore {
    const startVal: int
    var count: int

    constructor (count: int)
      ensures this.count == startVal == count
    {
      this.count, startVal := count, count;
    }

    /** One pass of the wait loop of `acquire`, under the lock: the count is taken when there is enough
        of it; otherwise the thread waits and will try again. */
    method AcquirePass(want: int) returns (acquired: bool)
      modifies this
      ensures acquired <==> old(count) >= want
      ensures count == old(count) - if acquired then want else 0
    {
      acquired := count >= want;
      if acquired {
        count := count - want;
      }
    }

    method Release(toRelease: int)
      modifies this
      ensures count == if old(count) + toRelease <= startVal then old(count) + toRelease else startVal
    {
      count := count + toRelease;
      if count > startVal {
        count := startVal;
      }
    }
  }
}
