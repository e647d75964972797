# S3 virtual file driver for HDF5, modelled in Dafny

The HDF5 S3 driver (`src/H5FDs3.c`) presents one object of an S3 bucket as a
read-only, byte-addressable HDF5 file. This project models its core:

- **Bounds checks** (`bounds.dfy`, module `Bounds`). These are the `MAXADDR`,
  `ADDR_OVERFLOW`, `SIZE_OVERFLOW` and `REGION_OVERFLOW` macros, with `haddr_t`,
  `hsize_t`, `size_t` and `HDoff_t` all 64 bits wide. Wrap-around addition, the
  bitwise `&` and `~` (computed bit by bit), and the cast to the signed offset
  type are written out explicitly. The proofs show that the whole region macro
  means `A + Z > MAXADDR` over unbounded integers.
- **C string routines** (`cstring.dfy`, module `CString`). `strcmp` is proved to
  be the lexicographic order, antisymmetric and transitive. `strtok_r` with the
  single delimiter `/` splits the virtual path into bucket and key.
- **Body-data cursor** (`datasink.dfy`, module `DataSink`). This is
  `getObjectDataCallback`: a byte-by-byte `memcpy` at the cursor, then the cursor
  advances. The model also covers a whole request's run of callbacks, and what
  those leave in the caller's buffer.
- **libs3 boundary** (`transport.dfy`, module `Transport`). A finite sequence of
  responses stands for what repeated, identical requests return. Each response
  carries a status, a content length and body chunks. `S3_status_is_retryable`
  is a function parameter with no fixed meaning. The model also covers the
  `do { … } while (retryable)` loop and the content-length callback.
- **Driver entry points** (`driver.dfy`, module `S3Driver`). These are `open`,
  `get_eoa`, `set_eoa`, `get_eof`, `cmp`, `query` and `read`, over an immutable
  handle record `{bucket, key, eoa, eof, op}`.
- **Whole-call consequences** (`scenarios.dfy`, module `DriverScenarios`). This
  covers how `open` names and sizes a handle, and what `read` leaves in the
  buffer after retries. It also holds the retry-cursor finding below.

Three behaviours of the C code that are easy to overlook, and that the model
keeps:

- `open` skips any leading `/` before the bucket name, because `strtok_r` skips
  leading delimiters.
- `contentLength` is uninitialised when the response-properties callback never
  fires during the probe, so `Open` takes that value as the free parameter
  `uninit`.
- A retried GET appends its data after the bytes that a failed attempt already
  delivered (see Findings).

## Model

| member | source | states |
|---|---|---|
| Bounds.Pow2Values | src/H5FDs3.c:69 | `MAXADDR` is `2^(64-1) - 1` for a 64-bit `HDoff_t` |
| Bounds.Not64 | src/H5FDs3.c:70-71 | the bitwise complement of a 64-bit value adds up with it to `2^64 - 1` |
| Bounds.MaskHighBit | src/H5FDs3.c:70-71 | `x & ~MAXADDR` is nonzero exactly when `x >= 2^63` |
| Bounds.AddrOverflow | src/H5FDs3.c:70 | `ADDR_OVERFLOW(A)` holds iff `A > MAXADDR`, which includes `HADDR_UNDEF` |
| Bounds.SizeOverflow | src/H5FDs3.c:71 | `SIZE_OVERFLOW(Z)` holds iff `Z > MAXADDR` |
| Bounds.Add64 | src/H5FDs3.c:73-74 | `A + Z` on 64-bit unsigned values equals the true sum, or the sum less `2^64` when it wraps |
| Bounds.Signed64 | src/H5FDs3.c:74 | the cast to `HDoff_t` lies in the signed range and agrees with the unsigned value modulo `2^64` |
| Bounds.RegionOverflow | src/H5FDs3.c:72-74 | `REGION_OVERFLOW(A,Z)` holds iff `A + Z > MAXADDR` over unbounded integers |
| Bounds.RegionOverflowWithinRange | src/H5FDs3.c:72-74 | with `A, Z <= MAXADDR` the sum never wraps or equals `HADDR_UNDEF`, and the signed comparison fires exactly on overflow |
| Bounds.OverflowThresholds | src/H5FDs3.c:69-71 | both checks fire exactly on values with the top bit set, `HADDR_UNDEF` included |
| CString.Strcmp | src/H5FDs3.c:489-493 | `strcmp` is zero exactly on equal strings, and otherwise has a sign |
| CString.StrcmpIsLexicographic | src/H5FDs3.c:489-493 | `strcmp` is negative exactly when the first string is a proper prefix of the second or is smaller at the first difference |
| CString.StrcmpAntisymmetric | src/H5FDs3.c:489-493 | swapping the operands of `strcmp` flips its sign |
| CString.StrcmpTransitive | src/H5FDs3.c:489-493 | `strcmp` orders strings transitively |
| CString.StrtokR | src/H5FDs3.c:389 | a token `strtok_r` returns is non-empty and holds no delimiter |
| CString.StrtokRNoToken | src/H5FDs3.c:389 | `strtok_r` returns no token exactly when the input is nothing but delimiters |
| CString.StrtokRReconstructs | src/H5FDs3.c:386-402 | the skipped `/`s, bucket, one `/` and key rebuild the name verbatim |
| CString.StrtokRSkipsLeading | src/H5FDs3.c:389 | leading `/` characters do not change the split |
| CString.StrtokRSplitsAtFirstDelim | src/H5FDs3.c:389-402 | `b/k` with a non-empty, slash-free `b` splits into bucket `b` and exactly key `k`, even if `k` holds slashes |
| CString.StrtokRWholeToken | src/H5FDs3.c:389-402 | a slash-free name is all bucket, with an empty key |
| DataSink.Overwrite | src/H5FDs3.c:318 | copying a chunk changes exactly the bytes `[pos, pos+len)` to the chunk and keeps the length |
| DataSink.GetObjectDataCallback | src/H5FDs3.c:313-322 | the callback's byte loop puts the chunk at the cursor, leaves every other byte alone, and advances the cursor by the chunk length |
| DataSink.RunDataCallbacks | src/H5FDs3.c:313-322 | running the callback on each chunk in turn gives the functional delivery result, or stops when a chunk would overrun |
| DataSink.DeliverWritesConcat | src/H5FDs3.c:313-322 | chunks `c1…cn` from cursor `p` fit iff `p + Σ|ci|` is within the buffer. Then bytes `[p, p+Σ|ci|)` are `c1+…+cn`, the cursor ends at `p+Σ|ci|`, and all other bytes are unchanged |
| Transport.RequestCount | src/H5FDs3.c:652-655 | the do/while loop sends at least one request, keeps going while the status is retryable, and stops at the first non-retryable one |
| Transport.FinalStatus | src/H5FDs3.c:657 | the status left in `statusG` after the loop is non-retryable |
| Transport.ContentLengthAfter | src/H5FDs3.c:326-334 | the content-length slot holds the length from the last response that reported one, or its initial value if none did |
| S3Driver.Open | src/H5FDs3.c:364-422 | a null or empty name fails with a bad-value error first, then an unselected driver fails. A success has `eoa = 0`, `op = OP_UNKNOWN`, and a non-empty slash-free bucket that with the key rebuilds the name. Its `eof` is the probed content length, and an error is printed exactly when the final probe status is neither OK nor PreconditionFailed |
| S3Driver.GetEoa | src/H5FDs3.c:549-557 | `get_eoa` returns the stored EOA, which never exceeds what `get_eof` reports |
| S3Driver.SetEoa | src/H5FDs3.c:572-582 | `set_eoa` stores the address unconditionally and changes nothing else |
| S3Driver.GetEof | src/H5FDs3.c:598-606 | `get_eof` is the maximum of `eof` and `eoa` |
| S3Driver.SetEoaThenGet | src/H5FDs3.c:549-606 | after `set_eoa(a)`, `get_eoa` is `a` and `get_eof` is the larger of `a` and `eof`; an EOA below `eof` does not lower EOF |
| S3Driver.Cmp | src/H5FDs3.c:480-497 | `cmp` is zero exactly when both bucket and key are equal |
| S3Driver.CmpOrdersBucketThenKey | src/H5FDs3.c:489-493 | `cmp` is the lexicographic order on bucket, then key |
| S3Driver.CmpAntisymmetric | src/H5FDs3.c:470-493 | `cmp` is antisymmetric in sign, and `cmp(h,h) = 0` |
| S3Driver.CmpTransitive | src/H5FDs3.c:470-493 | `cmp` is transitive |
| S3Driver.Query | src/H5FDs3.c:511-533 | given a flags pointer, `query` reports exactly the four supported features, never the POSIX-handle or ignore-driver-info ones |
| S3Driver.Read | src/H5FDs3.c:624-673 | an undefined address fails with a bad-value error and a region past `MAXADDR` with an overflow error, both with no request. Otherwise the retry loop runs and `read` succeeds iff the final status is OK. `op` becomes `OP_READ` exactly on success. The buffer receives all retried bodies back to back, or overruns when they exceed `size` |
| S3Driver.ReadFixed | src/H5FDs3.c:651-661 | corrected `read` with the cursor reset per request: the same error cases and status rule, and the final request's body at the start of the buffer whenever no body exceeds `size` |
| S3Driver.DeliverShared | src/H5FDs3.c:651-655 | the data callbacks of all GET requests run in turn on one cursor into `buf`; the buffer keeps its length |
| S3Driver.DeliverSharedWritesBody | src/H5FDs3.c:651-655 | one cursor shared across requests writes the concatenated bodies of all requests from the buffer start |
| S3Driver.DeliverFromStartKeepsLast | src/H5FDs3.c:651-655 | restarting the cursor per request leaves the last body at the buffer start |
| DriverScenarios.OpenSplitsBucketKey | src/H5FDs3.c:384-402 | opening `b/k` gives bucket `b` and key `k` |
| DriverScenarios.OpenSizesFromProbe | src/H5FDs3.c:403-419 | the new handle's `eof` is the last probed length, whatever the final probe status, and otherwise the uninitialised value. `get_eoa` is 0 and `get_eof` is `eof` |
| DriverScenarios.OpenExampleObject | src/H5FDs3.c:376-422 | `mybucket/data/object1` of 4096 bytes opens with bucket `mybucket`, key `data/object1`, EOF 4096 and EOA 0 |
| DriverScenarios.OpenSoftFailsOnProbeError | src/H5FDs3.c:414-419 | a final probe error other than PreconditionFailed is printed, yet `open` still succeeds with the reported size |
| DriverScenarios.ReadRetryShiftsData | src/H5FDs3.c:651-661 | counterexample: after a failed attempt delivered a byte, the successful retry's byte overruns a 1-byte buffer or lands at offset 1 of a 2-byte buffer, while `read` reports success |
| DriverScenarios.ReadFixedRetryKeepsData | src/H5FDs3.c:651-661 | on the same responses, the corrected read leaves the successful byte at offset 0 |
| DriverScenarios.ReadFixedReturnsObjectBytes | src/H5FDs3.c:651-661 | after any number of retries, the corrected read fills the buffer with the object bytes `[addr, addr+size)` the successful GET returned |
| DriverScenarios.ReadReturnsObjectBytesIffNoPartialRetries | src/H5FDs3.c:651-661 | when the final GET returns the requested object bytes, the as-written read succeeds, and it leaves exactly those bytes in the buffer if and only if no earlier, failed GET delivered any data |
| DriverScenarios.ReadRejectsBadRegions | src/H5FDs3.c:637-640 | `read` at `HADDR_UNDEF`, or of a non-empty region at `MAXADDR`, fails with no request and `op = OP_UNKNOWN` |

## Left out

- `H5FD_s3_init`, `H5FD_s3_init_interface`, `H5FD_s3_term` and `H5Pset_fapl_s3` are left out. They are process bootstrap: environment variables, libs3 initialisation, `exit`, and driver registration.
- `open`'s property-list check is the boolean input `driverSelected`; property lists are not modelled.
- `H5FD_s3_close` and all memory management (`H5FL_CALLOC`, `H5FL_FREE`, `HDcalloc`, `HDfree`) are left out. An allocation failure in `open` is not modelled.
- Names are C strings: each `char` of a name stands for one byte, and a name holds no NUL (`CString.IsCString`, required by `Open`). Multi-byte character encodings are the caller's concern, so every length below counts bytes.
- The unchecked `strcpy` calls into the fixed name, bucket and key buffers become preconditions on `Open`. The name must be shorter than `H5FD_MAX_FILENAME_LEN` (1024), and the bucket shorter than `S3_MAX_BUCKET_NAME_SIZE` (255). The headers that define these constants are not part of this model.
- A name made only of `/` gives `strcpy` a `NULL` from `strtok_r`, which is undefined in C. It is excluded by `Open`'s precondition.
- `S3_head_object` and `S3_get_object` are replaced by a finite response sequence. `S3_status_is_retryable` is a parameter. Because the source loops are unbounded, the sequence must contain a non-retryable status whenever a request is sent.
- `responseCompleteCallback`, `printError` and the global buffer `errorDetailsG` are left out. They do `snprintf` formatting and `stderr` output. Printing after `open` shows up only as the `errorPrinted` flag. In `read`, a non-OK status is returned as `RequestFailed(status)`.
- Content written past the end of the caller's buffer is undefined in C. The model does not track it: `buf` becomes `None`.
- Transport.ContentLengthAfter: when no probe reports a length, the model returns the free parameter `uninit`. The source reads an uninitialised variable there, so no value is promised.
- `open`'s `flags` and `maxaddr` arguments, the `dxpl_id` and `type` arguments of `read`, and the `type` argument of the EOA accessors are left out. The source never uses them.
- `query`'s flag bit values come from a header that is not part of this model. The features are an abstract set.
- The bucket context's protocol, URI style and credentials are left out. They are copied from process globals and only matter to libs3.
- The driver class table `H5FD_s3_g` and its reported `maxaddr` are left out. So are the unsupported write, flush and truncate entries.
- CString.Strcmp: returns only -1, 0 or 1. C promises only the sign of `strcmp`, and the driver uses only the sign.

## Findings

| source | as written | input that shows it | evidently intended | confidence | as-written member | corrected member |
|---|---|---|---|---|---|---|
| src/H5FDs3.c:651-661 | The write cursor into `buf` is set before the retry loop and reset only after it. Each retried `S3_get_object` writes after the bytes an earlier, failed attempt delivered. | A GET delivers byte 7, then fails with a retryable status; the retry returns OK with byte 9. With `size = 1`, `read` reports success but copies byte 9 past the buffer. With `size = 2` the buffer holds `7, 9`. | Reset the cursor to the start of the buffer before every attempt. The buffer then holds the successful response's bytes. | not executed; medium: it needs libs3 to deliver body data before a retryable failure | S3Driver.Read, DriverScenarios.ReadRetryShiftsData | S3Driver.ReadFixed, DriverScenarios.ReadFixedReturnsObjectBytes |
