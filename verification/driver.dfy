/** The S3 virtual file driver's entry points: `open`, the EOA/EOF accessors,
    `cmp`, `query` and `read`, over an immutable file-handle record. */
module S3Driver {
  import opened Wrappers
  import opened Bounds
  import opened CString
  import opened DataSink
  import opened Transport

  /** `H5FD_MAX_FILENAME_LEN`: capacity of the name copy and of the key buffer. */
  const MAX_FILENAME_LEN: nat := 1024

  /** `S3_MAX_BUCKET_NAME_SIZE`: capacity of the bucket-name buffer. */
  const MAX_BUCKET_NAME_SIZE: nat := 255

  /** Separator between the bucket and the key in a virtual path. */
  const PATH_SEP: char := '/'

  /** The last I/O operation recorded in the handle. */
  datatype FileOp = OpUnknown | OpRead

  /** `H5FD_s3_t`: the bucket and key the handle reads from, the end of the
      allocated address space (`eoa`), the object size seen at open (`eof`) and the
      last operation. */
  datatype Handle = Handle(bucket: string, key: string, eoa: u64, eof: u64, op: FileOp)

  /** Why `open` returns `NULL`: a null or empty name (`H5E_BADVALUE`), or a file
      access property list that does not select this driver (`H5E_OPENERROR`). */
  datatype OpenError = InvalidFileName | DriverNotSelected

  /** A successful `open`: the handle, how many HEAD requests the probe loop sent,
      and whether the final probe status was printed as an error. */
  datatype Opened = Opened(file: Handle, probes: nat, errorPrinted: bool)

  /** Inputs for which `open` is defined in C. A non-empty, selected name is a C
      string (bytes, no NUL inside), must fit the fixed `strcpy` buffers, counted
      in bytes, and must hold a token (a name made only of `/` makes `strtok_r`
      return `NULL`, which is then passed to `strcpy`); the probe loop must stop. */
  ghost predicate OpenDefined(name: Option<string>, driverSelected: bool,
                              probe: seq<Response>, retryable: S3Status -> bool)
  {
    name.Some? && name.value != [] && driverSelected ==>
      && IsCString(name.value)
      && |name.value| < MAX_FILENAME_LEN
      && StrtokR(name.value, PATH_SEP).token.Some?
      && |StrtokR(name.value, PATH_SEP).token.value| < MAX_BUCKET_NAME_SIZE
      && EventuallySettles(probe, retryable)
  }

  /** `H5FD_s3_open`. `driverSelected` stands for the property-list check, `probe`
      for what successive `S3_head_object` calls return, and `uninit` for the
      value of the never-initialised `contentLength` if no probe reports a length.
      A final probe status other than OK or PreconditionFailed is only printed. */
  function Open(name: Option<string>, driverSelected: bool, probe: seq<Response>,
                retryable: S3Status -> bool, uninit: u64): (r: Result<Opened, OpenError>)
    requires OpenDefined(name, driverSelected, probe, retryable)
    ensures name.None? || name == Some([]) ==> r == Failure(InvalidFileName)
    ensures name.Some? && name.value != [] && !driverSelected ==> r == Failure(DriverNotSelected)
    ensures r.Success? <==> name.Some? && name.value != [] && driverSelected
    ensures r.Success? ==>
      var f := r.value.file;
      && f.eoa == 0
      && f.op == OpUnknown
      && f.bucket != [] && PATH_SEP !in f.bucket
      && (name.value == Repeat(PATH_SEP, Span(name.value, PATH_SEP)) + f.bucket + [PATH_SEP] + f.key
          || (f.key == [] && name.value == Repeat(PATH_SEP, Span(name.value, PATH_SEP)) + f.bucket))
      && r.value.probes == RequestCount(probe, retryable)
      && f.eof == ContentLengthAfter(probe[..r.value.probes], uninit)
      && (r.value.errorPrinted <==>
            FinalStatus(probe, retryable) !in {StatusOK, ErrorPreconditionFailed})
  {
    if name.None? || name.value == [] then Failure(InvalidFileName)
    else if !driverSelected then Failure(DriverNotSelected)
    else
      var t := StrtokR(name.value, PATH_SEP);
      StrtokRReconstructs(name.value, PATH_SEP);
      var n := RequestCount(probe, retryable);
      var status := probe[n - 1].status;
      var f := Handle(t.token.value, t.rest, 0, ContentLengthAfter(probe[..n], uninit), OpUnknown);
      Success(Opened(f, n, status != StatusOK && status != ErrorPreconditionFailed))
  }

  /** `H5FD_s3_get_eoa`: the stored end of the allocated address space, which
      never lies beyond what `get_eof` reports. */
  function GetEoa(f: Handle): (r: u64)
    ensures r == f.eoa
    ensures r <= GetEof(f)
  {
    f.eoa
  }

  /** `H5FD_s3_set_eoa`: stores the address unconditionally, with no check against
      the object size, and leaves the rest of the handle alone. */
  function SetEoa(f: Handle, addr: u64): (r: Handle)
    ensures r.eoa == addr
    ensures r.eof == f.eof && r.bucket == f.bucket && r.key == f.key && r.op == f.op
  {
    f.(eoa := addr)
  }

  /** `H5FD_s3_get_eof`: the larger of the stored object size and the EOA. */
  function GetEof(f: Handle): (r: u64)
    ensures r >= f.eof && r >= f.eoa
    ensures r == f.eof || r == f.eoa
  {
    if f.eof > f.eoa then f.eof else f.eoa
  }

  /** After `set_eoa(a)`, `get_eoa` returns `a` and `get_eof` reports the larger of
      `a` and the size seen at open; an EOA below that size does not lower EOF. */
  lemma SetEoaThenGet(f: Handle, a: u64)
    ensures GetEoa(SetEoa(f, a)) == a
    ensures GetEof(SetEoa(f, a)) >= f.eof && GetEof(SetEoa(f, a)) >= a
    ensures a <= f.eof ==> GetEof(SetEoa(f, a)) == f.eof
    ensures a >= f.eof ==> GetEof(SetEoa(f, a)) == a
  {
  }

  /** `H5FD_s3_cmp`: `strcmp` on the bucket names, and on the keys when the
      buckets are equal. */
  function Cmp(f1: Handle, f2: Handle): (r: int)
    ensures -1 <= r <= 1
    ensures r == 0 <==> f1.bucket == f2.bucket && f1.key == f2.key
  {
    var c := Strcmp(f1.bucket, f2.bucket);
    if c != 0 then c else Strcmp(f1.key, f2.key)
  }

  /** `cmp` is the lexicographic order on (bucket, key). */
  lemma CmpOrdersBucketThenKey(f1: Handle, f2: Handle)
    ensures Cmp(f1, f2) < 0 <==>
      LexLess(f1.bucket, f2.bucket) || (f1.bucket == f2.bucket && LexLess(f1.key, f2.key))
  {
    StrcmpIsLexicographic(f1.bucket, f2.bucket);
    StrcmpIsLexicographic(f1.key, f2.key);
  }

  /** `cmp` is antisymmetric in sign, and a handle compares equal to itself. */
  lemma CmpAntisymmetric(f1: Handle, f2: Handle)
    ensures Cmp(f1, f2) == -Cmp(f2, f1)
    ensures Cmp(f1, f1) == 0
  {
    StrcmpAntisymmetric(f1.bucket, f2.bucket);
    StrcmpAntisymmetric(f1.key, f2.key);
  }

  /** `cmp` is transitive. */
  lemma CmpTransitive(f1: Handle, f2: Handle, f3: Handle)
    requires Cmp(f1, f2) < 0 && Cmp(f2, f3) < 0
    ensures Cmp(f1, f3) < 0
  {
    CmpOrdersBucketThenKey(f1, f2);
    CmpOrdersBucketThenKey(f2, f3);
    StrcmpAntisymmetric(f1.bucket, f2.bucket);
    StrcmpAntisymmetric(f2.bucket, f3.bucket);
    if Strcmp(f1.bucket, f2.bucket) < 0 && Strcmp(f2.bucket, f3.bucket) < 0 {
      StrcmpTransitive(f1.bucket, f2.bucket, f3.bucket);
    } else if Strcmp(f1.key, f2.key) < 0 && Strcmp(f2.key, f3.key) < 0 {
      StrcmpTransitive(f1.key, f2.key, f3.key);
    }
  }

  /** VFD feature flags; the last two are the ones `query` leaves commented out. */
  datatype Feature =
    | AggregateMetadata | AccumulateMetadata | DataSieve | AggregateSmallData
    | PosixCompatHandle | IgnoreDrvrInfo

  /** `H5FD_s3_query`: when the caller passes a flags pointer, the flags are cleared
      and the four supported features set; the handle is never consulted. */
  function Query(flagsGiven: bool): (r: Option<set<Feature>>)
    ensures r.Some? <==> flagsGiven
    ensures r.Some? ==> forall ft :: ft in r.value <==> !(ft.PosixCompatHandle? || ft.IgnoreDrvrInfo?)
  {
    if flagsGiven then
      Some({AggregateMetadata, AccumulateMetadata, DataSieve, AggregateSmallData})
    else None
  }

  /** Why `read` fails: an undefined address (`H5E_BADVALUE`), a region past
      `MAXADDR` (`H5E_OVERFLOW`), or a non-OK final status from the GET loop. */
  datatype ReadError = BadValue | Overflow | RequestFailed(status: S3Status)

  /** What `read` leaves behind: the handle, the return value, the caller's
      buffer (`None` once a chunk was copied past its end) and the number of GET
      requests sent. */
  datatype ReadOutcome = ReadOutcome(file: Handle, result: Outcome<ReadError>,
                                     buf: Option<seq<byte>>, requests: nat)

  /** Every body byte delivered by a run of responses, in order. */
  function BodyBytes(rs: seq<Response>): (b: seq<byte>)
  {
    if |rs| == 0 then [] else Concat(rs[0].chunks) + BodyBytes(rs[1..])
  }

  /** The data callbacks of successive GET requests sharing one cursor, as in the
      source: the cursor is not reset between retries. */
  function DeliverShared(c: Cursor, rs: seq<Response>): (r: Option<Cursor>)
    ensures r.Some? ==> |r.value.mem| == |c.mem|
    decreases |rs|
  {
    if |rs| == 0 then Some(c)
    else
      match Deliver(c, rs[0].chunks)
      case None => None
      case Some(c') => DeliverShared(c', rs[1..])
  }

  /** The data callbacks of successive GET requests, each starting again at the
      start of the buffer. */
  function DeliverFromStart(mem: seq<byte>, rs: seq<Response>): (r: Option<seq<byte>>)
    ensures r.Some? ==> |r.value| == |mem|
    decreases |rs|
  {
    if |rs| == 0 then Some(mem)
    else
      match Deliver(Cursor(mem, 0), rs[0].chunks)
      case None => None
      case Some(c') => DeliverFromStart(c'.mem, rs[1..])
  }

  /** The request goes out exactly when the address is defined and the region
      `[addr, addr + size)` fits below `MAXADDR`. */
  predicate RegionValid(addr: u64, size: u64)
  {
    addr != HADDR_UNDEF && !RegionOverflow(addr, size)
  }

  /** `H5FD_s3_read` as written. `rs` stands for what successive `S3_get_object`
      calls return. The cursor into `buf` lives across the whole retry loop, so
      bytes of a failed attempt stay in place and later data lands after them. */
  function Read(f: Handle, addr: u64, size: u64, buf: seq<byte>,
                rs: seq<Response>, retryable: S3Status -> bool): (r: ReadOutcome)
    requires |buf| == size
    requires RegionValid(addr, size) ==> EventuallySettles(rs, retryable)
    ensures r.file.bucket == f.bucket && r.file.key == f.key
    ensures r.file.eoa == f.eoa && r.file.eof == f.eof
    ensures r.file.op == OpRead <==> r.result.Pass?
    ensures r.buf.Some? ==> |r.buf.value| == size
    ensures addr == HADDR_UNDEF ==> r.result == Fail(BadValue) && r.requests == 0 && r.buf == Some(buf)
    ensures addr != HADDR_UNDEF && addr + size > MAXADDR ==>
      r.result == Fail(Overflow) && r.requests == 0 && r.buf == Some(buf)
    ensures addr + size <= MAXADDR ==>
      && r.requests == RequestCount(rs, retryable)
      && (r.result.Pass? <==> rs[r.requests - 1].status == StatusOK)
      && (r.result.Fail? ==> r.result.error == RequestFailed(rs[r.requests - 1].status))
      && var data := BodyBytes(rs[..r.requests]);
         (r.buf.Some? <==> |data| <= size)
         && (r.buf.Some? ==> r.buf.value[..|data|] == data && r.buf.value[|data|..] == buf[|data|..])
  {
    if addr == HADDR_UNDEF then ReadOutcome(f.(op := OpUnknown), Fail(BadValue), Some(buf), 0)
    else if RegionOverflow(addr, size) then ReadOutcome(f.(op := OpUnknown), Fail(Overflow), Some(buf), 0)
    else
      var n := RequestCount(rs, retryable);
      var status := rs[n - 1].status;
      var sink := DeliverShared(Cursor(buf, 0), rs[..n]);
      DeliverSharedWritesBody(Cursor(buf, 0), rs[..n]);
      var out := if sink.Some? then Some(sink.value.mem) else None;
      if status == StatusOK then ReadOutcome(f.(op := OpRead), Pass, out, n)
      else ReadOutcome(f.(op := OpUnknown), Fail(RequestFailed(status)), out, n)
  }

  /** `H5FD_s3_read` with the cursor reset to the start of the buffer before every
      GET request. */
  function ReadFixed(f: Handle, addr: u64, size: u64, buf: seq<byte>,
                     rs: seq<Response>, retryable: S3Status -> bool): (r: ReadOutcome)
    requires |buf| == size
    requires RegionValid(addr, size) ==> EventuallySettles(rs, retryable)
    ensures r.file.bucket == f.bucket && r.file.key == f.key
    ensures r.file.eoa == f.eoa && r.file.eof == f.eof
    ensures r.file.op == OpRead <==> r.result.Pass?
    ensures r.buf.Some? ==> |r.buf.value| == size
    ensures addr == HADDR_UNDEF ==> r.result == Fail(BadValue) && r.requests == 0 && r.buf == Some(buf)
    ensures addr != HADDR_UNDEF && addr + size > MAXADDR ==>
      r.result == Fail(Overflow) && r.requests == 0 && r.buf == Some(buf)
    ensures addr + size <= MAXADDR ==>
      && r.requests == RequestCount(rs, retryable)
      && (r.result.Pass? <==> rs[r.requests - 1].status == StatusOK)
      && (r.result.Fail? ==> r.result.error == RequestFailed(rs[r.requests - 1].status))
      && ((forall j :: 0 <= j < r.requests ==> |BodyBytes([rs[j]])| <= size) ==>
            && r.buf.Some?
            && var last := BodyBytes([rs[r.requests - 1]]);
               r.buf.value[..|last|] == last)
  {
    if addr == HADDR_UNDEF then ReadOutcome(f.(op := OpUnknown), Fail(BadValue), Some(buf), 0)
    else if RegionOverflow(addr, size) then ReadOutcome(f.(op := OpUnknown), Fail(Overflow), Some(buf), 0)
    else
      var n := RequestCount(rs, retryable);
      var status := rs[n - 1].status;
      var out := DeliverFromStart(buf, rs[..n]);
      DeliverFromStartKeepsLast(buf, rs[..n]);
      if status == StatusOK then ReadOutcome(f.(op := OpRead), Pass, out, n)
      else ReadOutcome(f.(op := OpUnknown), Fail(RequestFailed(status)), out, n)
  }

  lemma {:induction false} BodyBytesAppend(a: seq<Response>, b: seq<Response>)
    ensures BodyBytes(a + b) == BodyBytes(a) + BodyBytes(b)
    decreases |a|
  {
    if |a| == 0 {
      assert a + b == b;
    } else {
      assert (a + b)[1..] == a[1..] + b;
      BodyBytesAppend(a[1..], b);
    }
  }

  /** With one cursor shared across requests, the buffer receives the bodies of all
      requests back to back from its start. */
  lemma {:induction false} DeliverSharedWritesBody(c: Cursor, rs: seq<Response>)
    requires c.pos <= |c.mem|
    ensures DeliverShared(c, rs).Some? <==> c.pos + |BodyBytes(rs)| <= |c.mem|
    ensures DeliverShared(c, rs).Some? ==>
      var c' := DeliverShared(c, rs).value;
      && c'.pos == c.pos + |BodyBytes(rs)|
      && |c'.mem| == |c.mem|
      && c'.mem[c.pos..c'.pos] == BodyBytes(rs)
      && c'.mem[..c.pos] == c.mem[..c.pos]
      && c'.mem[c'.pos..] == c.mem[c'.pos..]
    decreases |rs|
  {
    if |rs| > 0 {
      var first := Concat(rs[0].chunks);
      assert BodyBytes(rs) == first + BodyBytes(rs[1..]);
      DeliverWritesConcat(c, rs[0].chunks);
      if c.pos + |first| <= |c.mem| {
        var mid := Deliver(c, rs[0].chunks).value;
        DeliverSharedWritesBody(mid, rs[1..]);
        if DeliverShared(c, rs).Some? {
          var c' := DeliverShared(c, rs).value;
          assert c'.mem[c.pos..c'.pos] == c'.mem[c.pos..mid.pos] + c'.mem[mid.pos..c'.pos];
          assert c'.mem[c.pos..mid.pos] == mid.mem[..mid.pos][c.pos..];
          assert mid.mem[..mid.pos][c.pos..] == mid.mem[c.pos..mid.pos];
          assert c'.mem[..c.pos] == mid.mem[..mid.pos][..c.pos];
          assert c'.mem[c'.pos..] == mid.mem[c'.pos..];
          assert mid.mem[c'.pos..] == mid.mem[mid.pos..][c'.pos - mid.pos..];
        }
      }
    } else {
      assert BodyBytes(rs) == [];
    }
  }

  /** Restarting each request at the start of the buffer leaves the last request's
      body at the start, provided no body exceeds the buffer. */
  lemma {:induction false} DeliverFromStartKeepsLast(mem: seq<byte>, rs: seq<Response>)
    ensures (forall j :: 0 <= j < |rs| ==> |BodyBytes([rs[j]])| <= |mem|) ==>
      && DeliverFromStart(mem, rs).Some?
      && |DeliverFromStart(mem, rs).value| == |mem|
      && (|rs| > 0 ==>
            var last := BodyBytes([rs[|rs| - 1]]);
            DeliverFromStart(mem, rs).value[..|last|] == last)
    decreases |rs|
  {
    if |rs| > 0 && forall j :: 0 <= j < |rs| ==> |BodyBytes([rs[j]])| <= |mem| {
      var first := rs[0];
      assert BodyBytes([first]) == Concat(first.chunks) by {
        assert [first][1..] == [];
      }
      DeliverWritesConcat(Cursor(mem, 0), first.chunks);
      var mid := Deliver(Cursor(mem, 0), first.chunks).value;
      assert forall j :: 0 <= j < |rs[1..]| ==> rs[1..][j] == rs[j + 1];
      DeliverFromStartKeepsLast(mid.mem, rs[1..]);
      if |rs| == 1 {
        assert mid.mem[..|Concat(first.chunks)|] == mid.mem[0..mid.pos];
      } else {
        assert rs[1..][|rs[1..]| - 1] == rs[|rs| - 1];
      }
    }
  }
}
