/**
 * The progress counter a download worker advances and a Task reads
 * (`SimpleProgressBar`). Its `update` hook does nothing and is not modelled.
 */
module ProgressBar {

  datatype Bar = Bar(
    totalSize: int,     // bytes expected, as reported by the downloader
    totalPieces: int,   // number of URL pieces of the download
    currentPiece: int,  // piece being transferred, 1-based
    received: int,      // bytes received so far
    finished: bool)

  /** A fresh bar: nothing received, on the first piece, not finished. */
  function NewBar(totalSize: int, totalPieces: int): (b: Bar)
    ensures b.received == 0 && b.currentPiece == 1 && !b.finished
    ensures b.totalSize == totalSize && b.totalPieces == totalPieces
  {
    Bar(totalSize, totalPieces, 1, 0, false)
  }

  /** A fresh bar built without a piece count: the download is a single piece. */
  function NewBarDefault(totalSize: int): (b: Bar)
    ensures b.totalPieces == 1 && b.totalSize == totalSize
    ensures b.received == 0 && b.currentPiece == 1 && !b.finished
  {
    NewBar(totalSize, 1)
  }

  /** Records `n` more received bytes. */
  function UpdateReceived(b: Bar, n: int): (r: Bar)
    ensures r.received - b.received == n
    ensures r.(received := b.received) == b
  {
    b.(received := b.received + n)
  }

  /** Moves to piece `n`. */
  function UpdatePiece(b: Bar, n: int): (r: Bar)
    ensures r.currentPiece == n
    ensures r.(currentPiece := b.currentPiece) == b
  {
    b.(currentPiece := n)
  }

  /** Marks the download complete: everything received, on the last piece. */
  function Done(b: Bar): (r: Bar)
    ensures r.finished && r.received == r.totalSize && r.currentPiece == r.totalPieces
    ensures r.totalSize == b.totalSize && r.totalPieces == b.totalPieces
  {
    b.(finished := true, received := b.totalSize, currentPiece := b.totalPieces)
  }

  /** Applies `UpdateReceived` once per element of `ns`, in order. */
  function ReceiveAll(b: Bar, ns: seq<int>): Bar
    decreases |ns|
  {
    if ns == [] then b else ReceiveAll(UpdateReceived(b, ns[0]), ns[1..])
  }

  function Sum(ns: seq<int>): int
    decreases |ns|
  {
    if ns == [] then 0 else ns[0] + Sum(ns[1..])
  }

  /** A run of `update_received` calls adds exactly the sum of their arguments and touches nothing else. */
  lemma {:induction false} ReceiveAllAddsSum(b: Bar, ns: seq<int>)
    ensures ReceiveAll(b, ns).received == b.received + Sum(ns)
    ensures ReceiveAll(b, ns).(received := b.received) == b
    decreases |ns|
  {
    if ns != [] {
      ReceiveAllAddsSum(UpdateReceived(b, ns[0]), ns[1..]);
    }
  }

  /** Calling `done()` twice leaves the bar as calling it once. */
  lemma DoneIdempotent(b: Bar)
    ensures Done(Done(b)) == Done(b)
  {
  }

  /** `done()` overrides any received count or piece recorded before it. */
  lemma DoneAbsorbsProgress(b: Bar, n: int, p: int)
    ensures Done(UpdateReceived(b, n)) == Done(b)
    ensures Done(UpdatePiece(b, p)) == Done(b)
  {
  }

  /** A fresh bar has received exactly the sum of the `update_received` calls made on it. */
  lemma NewBarReceivesSum(totalSize: int, totalPieces: int, ns: seq<int>)
    ensures ReceiveAll(NewBar(totalSize, totalPieces), ns).received == Sum(ns)
  {
    ReceiveAllAddsSum(NewBar(totalSize, totalPieces), ns);
  }
}
