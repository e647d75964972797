/** The boundary with libs3. The network is not modelled: a sequence of responses
    stands for what successive, identical requests would return, and
    `S3_status_is_retryable` is a function parameter whose meaning is left open.
    The status each response carries is returned explicitly instead of being
    stashed in the process-wide `statusG`. */
module Transport {
  import opened Wrappers
  import opened Bounds
  import opened DataSink

  /** The libs3 statuses the driver tells apart; every other status is an
      `OtherStatus` with its own code. */
  datatype S3Status = StatusOK | ErrorPreconditionFailed | OtherStatus(code: nat)

  /** One completed libs3 request: the status handed to the completion callback,
      the content length handed to the properties callback (`None` when that
      callback did not fire), and the body chunks handed to the data callback. */
  datatype Response = Response(status: S3Status, contentLength: Option<u64>, chunks: seq<seq<byte>>)

  /** Some response in `rs` ends the retry loop. The source loop is unbounded;
      the model needs the oracle to stop retrying eventually. */
  ghost predicate EventuallySettles(rs: seq<Response>, retryable: S3Status -> bool)
  {
    exists i :: 0 <= i < |rs| && !retryable(rs[i].status)
  }

  /** The number of requests `do { S3_…(…); } while (S3_status_is_retryable(statusG))`
      issues: it always sends one, keeps going while the last status is
      retryable, and stops right after the first one that is not. */
  function RequestCount(rs: seq<Response>, retryable: S3Status -> bool): (n: nat)
    requires EventuallySettles(rs, retryable)
    ensures 1 <= n <= |rs|
    ensures !retryable(rs[n - 1].status)
    ensures forall j :: 0 <= j < n - 1 ==> retryable(rs[j].status)
  {
    if !retryable(rs[0].status) then 1
    else
      var i :| 0 <= i < |rs| && !retryable(rs[i].status);
      assert 0 <= i - 1 < |rs[1..]| && rs[1..][i - 1] == rs[i];
      1 + RequestCount(rs[1..], retryable)
  }

  /** The final `statusG` after the retry loop. */
  function FinalStatus(rs: seq<Response>, retryable: S3Status -> bool): (s: S3Status)
    requires EventuallySettles(rs, retryable)
    ensures !retryable(s)
  {
    rs[RequestCount(rs, retryable) - 1].status
  }

  /** `responsePropertiesCallbackContentlen` stores the content length into the
      caller's slot every time it fires, so after a run of responses the slot
      holds the length from the last response that reported one, or its initial
      (in the source uninitialised) value `init` if none did. */
  function ContentLengthAfter(rs: seq<Response>, init: u64): (v: u64)
    ensures (v == init && forall i :: 0 <= i < |rs| ==> rs[i].contentLength.None?)
      || (exists i :: 0 <= i < |rs| && rs[i].contentLength == Some(v)
           && forall j :: i < j < |rs| ==> rs[j].contentLength.None?)
  {
    if |rs| == 0 then init
    else if rs[|rs| - 1].contentLength.Some? then rs[|rs| - 1].contentLength.value
    else
      var v := ContentLengthAfter(rs[..|rs| - 1], init);
      assert forall i :: 0 <= i < |rs| - 1 ==> rs[..|rs| - 1][i] == rs[i];
      v
  }
}
