/** Consequences of the driver model for whole calls: how `open` splits a name and
    sizes the handle, what `read` leaves in the caller's buffer after retries, and
    the retry-cursor discrepancy of the as-written `read`. */
module DriverScenarios {
  import opened Wrappers
  import opened Bounds
  import opened CString
  import opened DataSink
  import opened Transport
  import opened S3Driver

  /** A name `b/k` with a non-empty, slash-free `b` opens bucket `b` and key `k`,
      slashes inside `k` included. */
  lemma OpenSplitsBucketKey(b: string, k: string, probe: seq<Response>,
                            retryable: S3Status -> bool, uninit: u64)
    requires b != [] && PATH_SEP !in b
    requires IsCString(b) && IsCString(k)
    requires |b| + 1 + |k| < MAX_FILENAME_LEN && |b| < MAX_BUCKET_NAME_SIZE
    requires EventuallySettles(probe, retryable)
    ensures OpenDefined(Some(b + [PATH_SEP] + k), true, probe, retryable)
      && var r := Open(Some(b + [PATH_SEP] + k), true, probe, retryable, uninit);
         r.Success? && r.value.file.bucket == b && r.value.file.key == k
  {
    StrtokRSplitsAtFirstDelim(b, k, PATH_SEP);
    CStringJoin(b, PATH_SEP, k);
  }

  /** The handle's EOF is the content length the last probe reporting one gave,
      whatever the final probe status; if no probe reported a length, it is the
      uninitialised value. A new handle reports EOA 0 and EOF equal to that size. */
  lemma OpenSizesFromProbe(name: string, probe: seq<Response>,
                           retryable: S3Status -> bool, uninit: u64)
    requires name != []
    requires OpenDefined(Some(name), true, probe, retryable)
    ensures var r := Open(Some(name), true, probe, retryable, uninit);
      && r.Success?
      && var n := r.value.probes;
         && (probe[n - 1].contentLength.Some? ==> r.value.file.eof == probe[n - 1].contentLength.value)
         && ((forall i :: 0 <= i < n ==> probe[i].contentLength.None?) ==> r.value.file.eof == uninit)
         && GetEoa(r.value.file) == 0
         && GetEof(r.value.file) == r.value.file.eof
  {
    var r := Open(Some(name), true, probe, retryable, uninit);
    var n := r.value.probes;
    var tried := probe[..n];
    assert forall i :: 0 <= i < n ==> tried[i] == probe[i];
    if probe[n - 1].contentLength.Some? {
      assert tried[|tried| - 1] == probe[n - 1];
    }
  }

  /** Opening `mybucket/data/object1`, a 4096-byte object, in one successful probe. */
  lemma OpenExampleObject(retryable: S3Status -> bool, uninit: u64)
    requires !retryable(StatusOK)
    ensures var probe := [Response(StatusOK, Some(4096), [])];
      OpenDefined(Some("mybucket/data/object1"), true, probe, retryable)
      && var r := Open(Some("mybucket/data/object1"), true, probe, retryable, uninit);
         && r.Success?
         && r.value.file.bucket == "mybucket" && r.value.file.key == "data/object1"
         && GetEof(r.value.file) == 4096 && GetEoa(r.value.file) == 0
         && !r.value.errorPrinted
  {
    var probe := [Response(StatusOK, Some(4096), [])];
    var b, k := "mybucket", "data/object1";
    assert !retryable(probe[0].status);
    assert PATH_SEP !in b by {
      forall i | 0 <= i < |b| ensures b[i] != PATH_SEP { }
    }
    assert "mybucket/data/object1" == b + [PATH_SEP] + k;
    OpenSplitsBucketKey(b, k, probe, retryable, uninit);
    assert RequestCount(probe, retryable) == 1;
    assert probe[..1] == probe;
  }

  /** A probe that ends in a non-retryable error other than PreconditionFailed (an
      access denial, say) still yields a handle; the status is only printed. */
  lemma OpenSoftFailsOnProbeError(name: string, code: nat, len: u64,
                                  retryable: S3Status -> bool, uninit: u64)
    requires name != []
    requires !retryable(OtherStatus(code))
    requires OpenDefined(Some(name), true, [Response(OtherStatus(code), Some(len), [])], retryable)
    ensures var r := Open(Some(name), true, [Response(OtherStatus(code), Some(len), [])], retryable, uninit);
      r.Success? && r.value.errorPrinted && r.value.file.eof == len
  {
    var probe := [Response(OtherStatus(code), Some(len), [])];
    assert probe[..1] == probe;
  }

  /** A retry policy for the examples: every status other than OK and
      PreconditionFailed is retryable. */
  predicate RetryOthers(s: S3Status)
  {
    s.OtherStatus?
  }

  /** A response body of one single-byte chunk. */
  function OneByte(b: byte): (rs: seq<seq<byte>>)
  {
    [[b]]
  }

  /** The as-written read mislays data after a retry. A GET that delivers a byte
      and then fails with a retryable status, followed by a successful GET, is
      reported as a success, yet the retry's byte is written after the failed
      attempt's byte. With a one-byte buffer the second copy runs past its end;
      with a two-byte buffer the object's byte ends up at offset 1 instead of 0. */
  lemma ReadRetryShiftsData(f: Handle)
    ensures var retryable := RetryOthers;
      var rs := [Response(OtherStatus(1), None, OneByte(7)), Response(StatusOK, None, OneByte(9))];
      && EventuallySettles(rs, retryable)
      && Read(f, 0, 1, [0], rs, retryable).result == Pass
      && Read(f, 0, 1, [0], rs, retryable).buf == None
      && Read(f, 0, 2, [0, 0], rs, retryable).result == Pass
      && Read(f, 0, 2, [0, 0], rs, retryable).buf == Some([7, 9])
  {
    var retryable := RetryOthers;
    var rs := [Response(OtherStatus(1), None, OneByte(7)), Response(StatusOK, None, OneByte(9))];
    assert !retryable(rs[1].status);
    assert RequestCount(rs, retryable) == 2;
    assert rs[..2] == rs;
    assert BodyBytes(rs) == [7, 9] by {
      assert Concat(rs[0].chunks) == [7];
      assert Concat(rs[1].chunks) == [9];
      assert rs[1..][1..] == [];
    }
    var r2 := Read(f, 0, 2, [0, 0], rs, retryable);
    assert r2.buf.value == r2.buf.value[..2];
  }

  /** Corrected: restarting the cursor for each GET leaves the successful
      attempt's byte at the start of the buffer, on the same responses. */
  lemma ReadFixedRetryKeepsData(f: Handle)
    ensures var retryable := RetryOthers;
      var rs := [Response(OtherStatus(1), None, OneByte(7)), Response(StatusOK, None, OneByte(9))];
      && EventuallySettles(rs, retryable)
      && ReadFixed(f, 0, 1, [0], rs, retryable).result == Pass
      && ReadFixed(f, 0, 1, [0], rs, retryable).buf == Some([9])
  {
    var retryable := RetryOthers;
    var rs := [Response(OtherStatus(1), None, OneByte(7)), Response(StatusOK, None, OneByte(9))];
    assert !retryable(rs[1].status);
    assert RequestCount(rs, retryable) == 2;
    assert rs[..2] == rs;
    assert BodyBytes([rs[0]]) == [7] by {
      assert Concat(rs[0].chunks) == [7];
    }
    assert BodyBytes([rs[1]]) == [9] by {
      assert Concat(rs[1].chunks) == [9];
    }
    var r := ReadFixed(f, 0, 1, [0], rs, retryable);
    assert forall j :: 0 <= j < 2 ==> |BodyBytes([rs[j]])| <= 1;
    assert r.buf.value == r.buf.value[..1];
  }

  /** With the corrected read, reading `size` bytes at `addr` after any number of
      retries fills the buffer with the bytes of the object the successful GET
      returned, provided each GET returns at most the `size` bytes it asked for. */
  lemma ReadFixedReturnsObjectBytes(f: Handle, obj: seq<byte>, addr: u64, size: u64,
                                    buf: seq<byte>, rs: seq<Response>,
                                    retryable: S3Status -> bool)
    requires |buf| == size && addr + size <= MAXADDR && addr + size <= |obj|
    requires EventuallySettles(rs, retryable)
    requires forall j :: 0 <= j < RequestCount(rs, retryable) ==> |BodyBytes([rs[j]])| <= size
    requires FinalStatus(rs, retryable) == StatusOK
    requires BodyBytes([rs[RequestCount(rs, retryable) - 1]]) == obj[addr..addr + size]
    ensures var r := ReadFixed(f, addr, size, buf, rs, retryable);
      r.result == Pass && r.file.op == OpRead && r.buf == Some(obj[addr..addr + size])
  {
    var r := ReadFixed(f, addr, size, buf, rs, retryable);
    var n := RequestCount(rs, retryable);
    assert r.requests == n;
    assert forall j :: 0 <= j < r.requests ==> |BodyBytes([rs[j]])| <= size;
    assert r.buf.Some?;
    var last := BodyBytes([rs[n - 1]]);
    assert r.buf.value[..|last|] == last;
    assert |last| == size;
    assert r.buf.value[..size] == r.buf.value;
  }

  /** The as-written read returns the object's bytes exactly when none of the
      retried GETs delivered body data before failing. */
  lemma ReadReturnsObjectBytesIffNoPartialRetries(f: Handle, obj: seq<byte>, addr: u64,
                                                  size: u64, buf: seq<byte>,
                                                  rs: seq<Response>,
                                                  retryable: S3Status -> bool)
    requires |buf| == size && addr + size <= MAXADDR && addr + size <= |obj|
    requires EventuallySettles(rs, retryable)
    requires FinalStatus(rs, retryable) == StatusOK
    requires BodyBytes([rs[RequestCount(rs, retryable) - 1]]) == obj[addr..addr + size]
    ensures var r := Read(f, addr, size, buf, rs, retryable);
      && r.result == Pass && r.file.op == OpRead
      && (r.buf == Some(obj[addr..addr + size]) <==>
            BodyBytes(rs[..RequestCount(rs, retryable) - 1]) == [])
  {
    var n := RequestCount(rs, retryable);
    var early := BodyBytes(rs[..n - 1]);
    var want := obj[addr..addr + size];
    assert rs[..n] == rs[..n - 1] + [rs[n - 1]];
    BodyBytesAppend(rs[..n - 1], [rs[n - 1]]);
    assert BodyBytes(rs[..n]) == early + want;
    var r := Read(f, addr, size, buf, rs, retryable);
    assert r.requests == n;
    if early == [] {
      assert early + want == want;
      assert r.buf.Some?;
      assert r.buf.value[..size] == want;
      assert r.buf.value[..size] == r.buf.value;
    }
    if r.buf == Some(want) {
      assert |early + want| <= size;
    }
  }

  /** An undefined address, or one whose region passes `MAXADDR`, fails before any
      GET is sent and leaves the handle's last operation unknown. */
  lemma ReadRejectsBadRegions(f: Handle, size: u64, buf: seq<byte>,
                              rs: seq<Response>, retryable: S3Status -> bool)
    requires |buf| == size
    ensures var r := Read(f, HADDR_UNDEF, size, buf, rs, retryable);
      r.result == Fail(BadValue) && r.requests == 0 && r.file.op == OpUnknown
    ensures size > 0 ==>
      var r := Read(f, MAXADDR, size, buf, rs, retryable);
      r.result == Fail(Overflow) && r.requests == 0 && r.file.op == OpUnknown
  {
  }
}
