/** What the segmented WAL stands for: a log of appended frames and a committed prefix. */
module WalQueue {

  /** `log[k]` is the frame with seq `k + 1`; the first `head` frames are committed; `saved` is the
      committed prefix that a reopened WAL would find. */
  datatype Queue<T> = Queue(log: seq<T>, head: nat, saved: nat)

  ghost predicate Valid<T>(q: Queue<T>) {
    q.saved <= q.head <= |q.log|
  }

  function Appended<T>(q: Queue<T>, frames: seq<T>): Queue<T> {
    q.(log := q.log + frames)
  }

  /** Only the oldest uncommitted frame can be committed; any other seq is refused. */
  function Committed<T>(q: Queue<T>, seqNo: nat): Queue<T> {
    if q.head < |q.log| && seqNo == q.head + 1 then q.(head := q.head + 1) else q
  }

  /** A checkpoint is saved from which a reopened WAL would skip the first `upTo` frames. */
  function Saved<T>(q: Queue<T>, upTo: nat): Queue<T> {
    q.(saved := upTo)
  }

  function Reopened<T>(q: Queue<T>): Queue<T> {
    q.(head := q.saved)
  }
}
