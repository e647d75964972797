/** The body-data callback of a ranged GET: every chunk libs3 hands over is copied
    to the cursor position in the caller's buffer, and the cursor moves on by the
    chunk's length. The callback does not check the chunk against the end of the
    buffer; a copy that would run past it is undefined behaviour in C, and the
    model reports it as `None` instead of inventing memory beyond the buffer. */
module DataSink {
  import opened Wrappers

  type byte = x: int | 0 <= x < 256

  /** The caller's destination buffer and the write cursor into it. */
  datatype Cursor = Cursor(mem: seq<byte>, pos: nat)

  /** All chunks of a response body, in delivery order. */
  function Concat(chunks: seq<seq<byte>>): (r: seq<byte>)
  {
    if |chunks| == 0 then [] else chunks[0] + Concat(chunks[1..])
  }

  /** `mem` with `chunk` written over `[pos, pos + |chunk|)`. */
  function Overwrite(mem: seq<byte>, pos: nat, chunk: seq<byte>): (r: seq<byte>)
    requires pos + |chunk| <= |mem|
    ensures |r| == |mem|
    ensures forall i :: pos <= i < pos + |chunk| ==> r[i] == chunk[i - pos]
    ensures forall i :: 0 <= i < |mem| && !(pos <= i < pos + |chunk|) ==> r[i] == mem[i]
  {
    mem[..pos] + chunk + mem[pos + |chunk|..]
  }

  /** `getObjectDataCallback`: `memcpy(*buf, buffer, bufferSize)` one byte at a
      time, then `*buf += bufferSize`. */
  method GetObjectDataCallback(mem: seq<byte>, pos: nat, chunk: seq<byte>)
    returns (mem': seq<byte>, pos': nat)
    requires pos + |chunk| <= |mem|
    ensures pos' == pos + |chunk|
    ensures |mem'| == |mem|
    ensures mem'[pos..pos'] == chunk
    ensures forall i :: 0 <= i < |mem| && !(pos <= i < pos') ==> mem'[i] == mem[i]
  {
    mem' := mem;
    var n := 0;
    while n < |chunk|
      invariant 0 <= n <= |chunk|
      invariant |mem'| == |mem|
      invariant forall i :: pos <= i < pos + n ==> mem'[i] == chunk[i - pos]
      invariant forall i :: 0 <= i < |mem| && !(pos <= i < pos + n) ==> mem'[i] == mem[i]
    {
      mem' := mem'[pos + n := chunk[n]];
      n := n + 1;
    }
    pos' := pos + |chunk|;
  }

  /** One request's worth of data callbacks, starting from cursor `c`. `None` when
      some chunk would be copied past the end of the buffer. */
  function Deliver(c: Cursor, chunks: seq<seq<byte>>): (r: Option<Cursor>)
    ensures r.Some? ==> |r.value.mem| == |c.mem|
    decreases |chunks|
  {
    if |chunks| == 0 then Some(c)
    else if c.pos + |chunks[0]| > |c.mem| then None
    else Deliver(Cursor(Overwrite(c.mem, c.pos, chunks[0]), c.pos + |chunks[0]|), chunks[1..])
  }

  lemma {:induction false} ConcatAppend(a: seq<seq<byte>>, b: seq<seq<byte>>)
    ensures Concat(a + b) == Concat(a) + Concat(b)
  {
    if |a| > 0 {
      assert (a + b)[1..] == a[1..] + b;
      ConcatAppend(a[1..], b);
    } else {
      assert a + b == b;
    }
  }

  /** After chunks `c1 … cn` from cursor position `p`, the bytes `[p, p + Σ|ci|)`
      hold `c1 + … + cn`, the cursor sits just after them, and every other byte of
      the buffer is unchanged. The copies stay inside the buffer exactly when the
      chunks fit after `p`. */
  lemma {:induction false} DeliverWritesConcat(c: Cursor, chunks: seq<seq<byte>>)
    requires c.pos <= |c.mem|
    ensures Deliver(c, chunks).Some? <==> c.pos + |Concat(chunks)| <= |c.mem|
    ensures Deliver(c, chunks).Some? ==>
      var c' := Deliver(c, chunks).value;
      && c'.pos == c.pos + |Concat(chunks)|
      && |c'.mem| == |c.mem|
      && c'.mem[c.pos..c'.pos] == Concat(chunks)
      && c'.mem[..c.pos] == c.mem[..c.pos]
      && c'.mem[c'.pos..] == c.mem[c'.pos..]
    decreases |chunks|
  {
    if |chunks| == 0 {
      assert Concat(chunks) == [];
    } else {
      var h := chunks[0];
      assert Concat(chunks) == h + Concat(chunks[1..]);
      if c.pos + |h| <= |c.mem| {
        var m := Overwrite(c.mem, c.pos, h);
        var mid := Cursor(m, c.pos + |h|);
        DeliverWritesConcat(mid, chunks[1..]);
        if Deliver(c, chunks).Some? {
          var c' := Deliver(c, chunks).value;
          assert c'.mem[c.pos..c'.pos] == c'.mem[c.pos..mid.pos] + c'.mem[mid.pos..c'.pos];
          assert c'.mem[c.pos..mid.pos] == m[c.pos..mid.pos];
          assert m[c.pos..mid.pos] == h;
          assert c'.mem[..c.pos] == m[..mid.pos][..c.pos];
          assert m[..c.pos] == c.mem[..c.pos];
          assert c'.mem[c'.pos..] == m[c'.pos..];
          assert m[c'.pos..] == c.mem[c'.pos..];
        }
      }
    }
  }

  /** The data callbacks libs3 makes during one request, run in order on the
      caller's cursor; `None` as soon as a chunk would not fit. */
  method RunDataCallbacks(c: Cursor, chunks: seq<seq<byte>>) returns (r: Option<Cursor>)
    ensures r == Deliver(c, chunks)
  {
    var cur := c;
    var i := 0;
    while i < |chunks|
      invariant 0 <= i <= |chunks|
      invariant Deliver(c, chunks) == Deliver(cur, chunks[i..])
    {
      var chunk := chunks[i];
      assert chunks[i..][0] == chunk && chunks[i..][1..] == chunks[i + 1..];
      if cur.pos + |chunk| > |cur.mem| {
        return None;
      }
      var mem', pos' := GetObjectDataCallback(cur.mem, cur.pos, chunk);
      assert mem' == Overwrite(cur.mem, cur.pos, chunk);
      cur := Cursor(mem', pos');
      i := i + 1;
    }
    return Some(cur);
  }
}
