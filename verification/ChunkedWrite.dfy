/**
 Writing a run of bytes to guest memory in chunks of at most eight, each as one little-endian number.
 */
module ChunkedWrite {
  import opened Outcomes
  import opened Words
  import opened Memory

  /** The byte at an address. */
  function ByteAt(mem: Mem, a: nat): Option<Byte>
    requires Valid(mem)
  {
    match RegionAt(mem, a)
    case Some(i) => Some(mem[i].bytes[a - mem[i].base])
    case None => None
  }

  /** The same regions, whatever their bytes. */
  predicate SameLayout(a: Mem, b: Mem) {
    |a| == |b| && forall i :: 0 <= i < |a| ==> a[i] == b[i].(bytes := a[i].bytes)
  }

  lemma LayoutJoins(a: Mem, b: Mem, c: Mem)
    requires SameLayout(a, b) && SameLayout(b, c)
    ensures SameLayout(a, c)
  {
  }

  lemma {:induction false} LayoutDecodes(a: Mem, b: Mem, x: nat)
    requires SameLayout(a, b)
    ensures RegionAt(a, x) == RegionAt(b, x)
  {
    if a != [] {
      assert a[0] == b[0].(bytes := a[0].bytes);
      LayoutDecodes(a[1..], b[1..], x);
    }
  }

  /** The byte at `x` after `data` has been put at `addr`. */
  predicate HoldsAt(after: Mem, before: Mem, addr: nat, data: seq<Byte>, x: nat)
    requires Valid(after) && Valid(before)
  {
    ByteAt(after, x) == if addr <= x < addr + |data| then Some(data[x - addr]) else ByteAt(before, x)
  }

  /** The bytes at `addr` and on are `data`; every other byte is as before. */
  ghost predicate Holds(after: Mem, before: Mem, addr: nat, data: seq<Byte>)
    requires Valid(after) && Valid(before)
  {
    forall x: nat :: HoldsAt(after, before, addr, data, x)
  }

  lemma HoldsJoin(after: Mem, between: Mem, before: Mem, addr: nat, data: seq<Byte>, n: nat)
    requires Valid(after) && Valid(between) && Valid(before) && n <= |data|
    requires Holds(between, before, addr, data[..n]) && Holds(after, between, addr + n, data[n..])
    ensures Holds(after, before, addr, data)
  {
    hide ByteAt, Valid;
    forall x: nat
      ensures HoldsAt(after, before, addr, data, x)
    {
      assert HoldsAt(between, before, addr, data[..n], x) && HoldsAt(after, between, addr + n, data[n..], x);
    }
  }

  lemma HoldsNothing(mem: Mem, addr: nat)
    requires Valid(mem)
    ensures Holds(mem, mem, addr, [])
  {
  }

  // ---- one write ----

  lemma ByteAfterWrite(mem: Mem, i: nat, r: Region, addr: nat, data: seq<Byte>, x: nat)
    requires Valid(mem) && RegionAt(mem, addr) == Some(i) && WriteSlice(mem[i], addr, data) == Ok(r) && Valid(mem[i := r])
    ensures HoldsAt(mem[i := r], mem, addr, data, x)
  {
    SameDecode(mem, i, r, x);
    if addr <= x < addr + |data| {
      DecodesTo(mem, x, i);
    }
    hide Valid;
  }

  lemma WriteSets(mem: Mem, addr: nat, n: nat, val: nat)
    requires Valid(mem) && Write(mem, addr, n, val).Ok?
    ensures var m := Write(mem, addr, n, val).value;
            Valid(m) && SameLayout(m, mem) && Holds(m, mem, addr, Bytes(val, n))
  {
    var i := RegionAt(mem, addr).value;
    var r := WriteSlice(mem[i], addr, Bytes(val, n)).value;
    ReplaceKeepsValid(mem, i, r);
    var m, data := mem[i := r], Bytes(val, n);
    forall x: nat
      ensures HoldsAt(m, mem, addr, data, x)
    {
      ByteAfterWrite(mem, i, r, addr, data, x);
    }
  }

  /** A byte that can be written. */
  predicate Writable(mem: Mem, a: nat) {
    RegionAt(mem, a).Some? && mem[RegionAt(mem, a).value].kind != Rom
  }

  predicate AllWritable(mem: Mem, addr: nat, n: nat)
    decreases n
  {
    n == 0 || (Writable(mem, addr) && AllWritable(mem, addr + 1, n - 1))
  }

  lemma {:induction false} AllWritableIs(mem: Mem, addr: nat, n: nat)
    ensures AllWritable(mem, addr, n) <==> forall x: nat :: addr <= x < addr + n ==> Writable(mem, x)
    decreases n
  {
    if n > 0 {
      AllWritableIs(mem, addr + 1, n - 1);
    }
  }

  lemma {:induction false} AllWritableSplits(mem: Mem, addr: nat, n: nat, k: nat)
    requires k <= n
    ensures AllWritable(mem, addr, n) == (AllWritable(mem, addr, k) && AllWritable(mem, addr + k, n - k))
    decreases k
  {
    hide Writable;
    if k > 0 {
      AllWritableSplits(mem, addr + 1, n - 1, k - 1);
    }
  }

  lemma LayoutWritable(a: Mem, b: Mem, x: nat)
    requires SameLayout(a, b)
    ensures Writable(a, x) == Writable(b, x)
  {
    LayoutDecodes(a, b, x);
  }

  lemma {:induction false} LayoutAllWritable(a: Mem, b: Mem, addr: nat, n: nat)
    requires SameLayout(a, b)
    ensures AllWritable(a, addr, n) == AllWritable(b, addr, n)
    decreases n
  {
    hide Writable;
    if n > 0 {
      LayoutWritable(a, b, addr);
      LayoutAllWritable(a, b, addr + 1, n - 1);
    }
  }

  /** One write succeeds exactly if all its bytes can be written and lie in one region. */
  lemma OneChunk(mem: Mem, addr: nat, n: nat, v: nat)
    requires Valid(mem) && 1 <= n <= 8
    ensures Write(mem, addr, n, v).Ok? <==>
            AllWritable(mem, addr, n) && RegionAt(mem, addr) == RegionAt(mem, addr + n - 1)
  {
    AllWritableIs(mem, addr, n);
    var at := RegionAt(mem, addr);
    if at.Some? {
      forall x: nat | addr <= x < addr + n && mem[at.value].Contains(addr + n - 1)
        ensures RegionAt(mem, x) == at
      {
        DecodesTo(mem, x, at.value);
      }
      assert RegionAt(mem, addr + n - 1) == at <==> mem[at.value].Contains(addr + n - 1);
    } else {
      assert !Writable(mem, addr);
    }
  }

  // ---- a run of bytes ----

  function ChunkLength(n: nat): (len: nat)
    ensures len <= n && len <= 8 && (n > 0 ==> len > 0)
  {
    if n < 8 then n else 8
  }

  /** Writes in chunks of eight bytes and what is left, each as one number. */
  function WriteChunks(mem: Mem, addr: nat, data: seq<Byte>): Result<Mem>
    decreases |data|
  {
    if data == [] then Ok(mem)
    else
      var n := ChunkLength(|data|);
      var next :- Write(mem, addr, n, BytesValue(data[..n]));
      WriteChunks(next, addr + n, data[n..])
  }

  /** Writes byte by byte. */
  function WriteBytes(mem: Mem, addr: nat, data: seq<Byte>): Result<Mem>
    decreases |data|
  {
    if data == [] then Ok(mem)
    else
      var next :- Write(mem, addr, 1, data[0]);
      WriteBytes(next, addr + 1, data[1..])
  }

  /** The loader's loop. */
  method WriteChecked(mem: Mem, addr: nat, data: seq<Byte>) returns (r: Result<Mem>)
    ensures r == WriteChunks(mem, addr, data)
  {
    hide Write, BytesValue;
    var next, done := mem, 0;
    assert data[0..] == data;
    while done < |data|
      invariant done <= |data|
      invariant WriteChunks(mem, addr, data) == WriteChunks(next, addr + done, data[done..])
    {
      var n := ChunkLength(|data| - done);
      var chunk := data[done..done + n];
      assert data[done..][..n] == chunk && data[done..][n..] == data[done + n..];
      var written := Write(next, addr + done, n, BytesValue(chunk));
      if written.Err? {
        return Err;
      }
      next, done := written.value, done + n;
    }
    r := Ok(next);
  }

  lemma {:induction false} ChunksSet(mem: Mem, addr: nat, data: seq<Byte>)
    requires Valid(mem) && WriteChunks(mem, addr, data).Ok?
    ensures var m := WriteChunks(mem, addr, data).value;
            Valid(m) && SameLayout(m, mem) && Holds(m, mem, addr, data)
    decreases |data|
  {
    hide Valid, SameLayout, Holds, Write, BytesValue, Bytes;
    if data == [] {
      HoldsNothing(mem, addr);
      SameAsItself(mem);
    } else {
      var n := ChunkLength(|data|);
      var v := BytesValue(data[..n]);
      var next := Write(mem, addr, n, v).value;
      BytesOfValue(data[..n]);
      WriteSets(mem, addr, n, v);
      ChunksSet(next, addr + n, data[n..]);
      var m := WriteChunks(mem, addr, data).value;
      HoldsJoin(m, next, mem, addr, data, n);
      LayoutJoins(m, next, mem);
    }
  }

  lemma SameAsItself(mem: Mem)
    ensures SameLayout(mem, mem)
  {
  }

  lemma {:induction false} BytewiseSets(mem: Mem, addr: nat, data: seq<Byte>)
    requires Valid(mem) && WriteBytes(mem, addr, data).Ok?
    ensures var m := WriteBytes(mem, addr, data).value;
            Valid(m) && SameLayout(m, mem) && Holds(m, mem, addr, data)
    decreases |data|
  {
    hide Valid, SameLayout, Holds, Write, Bytes;
    if data == [] {
      HoldsNothing(mem, addr);
      SameAsItself(mem);
    } else {
      var next := Write(mem, addr, 1, data[0]).value;
      OneByte(data[0]);
      assert data[..1] == [data[0]];
      WriteSets(mem, addr, 1, data[0]);
      BytewiseSets(next, addr + 1, data[1..]);
      var m := WriteBytes(mem, addr, data).value;
      HoldsJoin(m, next, mem, addr, data, 1);
      LayoutJoins(m, next, mem);
    }
  }

  lemma OneByte(b: Byte)
    ensures Bytes(b, 1) == [b]
  {
    assert Bytes(b, 1) == [b % 256] + Bytes(b / 256, 0);
  }

  /** Writing byte by byte succeeds exactly if every byte can be written. */
  lemma {:induction false} BytewiseSucceeds(mem: Mem, addr: nat, data: seq<Byte>)
    requires Valid(mem)
    ensures WriteBytes(mem, addr, data).Ok? <==> AllWritable(mem, addr, |data|)
    decreases |data|
  {
    hide Valid, SameLayout, Holds, Write;
    if data != [] {
      OneChunk(mem, addr, 1, data[0]);
      AllWritableSplits(mem, addr, |data|, 1);
      if Write(mem, addr, 1, data[0]).Ok? {
        var next := Write(mem, addr, 1, data[0]).value;
        WriteSets(mem, addr, 1, data[0]);
        BytewiseSucceeds(next, addr + 1, data[1..]);
        LayoutAllWritable(next, mem, addr + 1, |data| - 1);
      }
    }
  }

  /** No chunk of the range straddles the end of a region. */
  predicate ChunksStayInside(mem: Mem, addr: nat, n: nat)
    decreases n
  {
    n == 0 || (var len := ChunkLength(n);
               RegionAt(mem, addr) == RegionAt(mem, addr + len - 1) && ChunksStayInside(mem, addr + len, n - len))
  }

  lemma {:induction false} LayoutStaysInside(a: Mem, b: Mem, addr: nat, n: nat)
    requires SameLayout(a, b)
    ensures ChunksStayInside(a, addr, n) == ChunksStayInside(b, addr, n)
    decreases n
  {
    hide RegionAt, SameLayout;
    if n > 0 {
      var len := ChunkLength(n);
      LayoutDecodes(a, b, addr);
      LayoutDecodes(a, b, addr + len - 1);
      LayoutStaysInside(a, b, addr + len, n - len);
    }
  }

  /** The first chunk, and the layout after it. */
  lemma FirstChunk(mem: Mem, addr: nat, data: seq<Byte>)
    requires Valid(mem) && data != []
    ensures var n := ChunkLength(|data|);
            var first := Write(mem, addr, n, BytesValue(data[..n]));
            && (first.Ok? <==> AllWritable(mem, addr, n) && RegionAt(mem, addr) == RegionAt(mem, addr + n - 1))
            && (first.Ok? ==> Valid(first.value) && SameLayout(first.value, mem))
            && WriteChunks(mem, addr, data) == if first.Ok? then WriteChunks(first.value, addr + n, data[n..]) else Err
  {
    hide Valid, SameLayout, Holds, Write, RegionAt, BytesValue, AllWritable;
    var n := ChunkLength(|data|);
    var v := BytesValue(data[..n]);
    OneChunk(mem, addr, n, v);
    if Write(mem, addr, n, v).Ok? {
      WriteSets(mem, addr, n, v);
    }
  }

  lemma {:induction false} ChunksSucceed(mem: Mem, addr: nat, data: seq<Byte>)
    requires Valid(mem)
    ensures WriteChunks(mem, addr, data).Ok? <==>
            AllWritable(mem, addr, |data|) && ChunksStayInside(mem, addr, |data|)
    decreases |data|
  {
    hide *;
    if data == [] {
      NothingToWrite(mem, addr);
    } else {
      FirstChunk(mem, addr, data);
      StaysInsideStep(mem, addr, |data|);
      var n := ChunkLength(|data|);
      AllWritableSplits(mem, addr, |data|, n);
      var first := Write(mem, addr, n, BytesValue(data[..n]));
      if first.Ok? {
        ChunksSucceed(first.value, addr + n, data[n..]);
        LayoutStaysInside(first.value, mem, addr + n, |data| - n);
        LayoutAllWritable(first.value, mem, addr + n, |data| - n);
      }
    }
  }

  lemma NothingToWrite(mem: Mem, addr: nat)
    ensures WriteChunks(mem, addr, []).Ok? && AllWritable(mem, addr, 0) && ChunksStayInside(mem, addr, 0)
  {
  }

  lemma StaysInsideStep(mem: Mem, addr: nat, n: nat)
    requires n > 0
    ensures var len := ChunkLength(n);
            ChunksStayInside(mem, addr, n) <==>
            RegionAt(mem, addr) == RegionAt(mem, addr + len - 1) && ChunksStayInside(mem, addr + len, n - len)
  {
    hide RegionAt;
  }

  lemma SameBytesSameMemory(a: Mem, b: Mem)
    requires Valid(a) && Valid(b) && SameLayout(a, b) && forall x: nat :: ByteAt(a, x) == ByteAt(b, x)
    ensures a == b
  {
    hide ByteAt, Valid;
    forall i | 0 <= i < |a|
      ensures a[i] == b[i]
    {
      SameRegion(a, b, i);
    }
  }

  lemma SameRegion(a: Mem, b: Mem, i: nat)
    requires Valid(a) && Valid(b) && SameLayout(a, b) && forall x: nat :: ByteAt(a, x) == ByteAt(b, x)
    requires i < |a|
    ensures a[i] == b[i]
  {
    forall k | 0 <= k < a[i].size
      ensures a[i].bytes[k] == b[i].bytes[k]
    {
      DecodesTo(a, a[i].base + k, i);
      DecodesTo(b, a[i].base + k, i);
      assert ByteAt(a, a[i].base + k) == ByteAt(b, a[i].base + k);
    }
    assert a[i].bytes == b[i].bytes;
  }

  lemma SameWrite(a: Mem, b: Mem, mem: Mem, addr: nat, data: seq<Byte>)
    requires Valid(a) && Valid(b) && Valid(mem) && SameLayout(a, mem) && SameLayout(b, mem)
    requires Holds(a, mem, addr, data) && Holds(b, mem, addr, data)
    ensures a == b
  {
    forall x: nat
      ensures ByteAt(a, x) == ByteAt(b, x)
    {
      assert HoldsAt(a, mem, addr, data, x) && HoldsAt(b, mem, addr, data, x);
    }
    SameBytesSameMemory(a, b);
  }

  /** The bytes from `8 k` on, eight of them or what is left of `n`, lie in one region. */
  predicate EightInside(mem: Mem, addr: nat, n: nat, k: nat)
    requires 8 * k < n
  {
    RegionAt(mem, addr + 8 * k) == RegionAt(mem, addr + (if 8 * k + 8 <= n then 8 * k + 7 else n - 1))
  }

  lemma EightShifted(mem: Mem, addr: nat, n: nat, k: nat)
    requires 8 * k + 8 < n
    ensures EightInside(mem, addr + 8, n - 8, k) == EightInside(mem, addr, n, k + 1)
  {
    hide RegionAt;
    assert addr + 8 + 8 * k == addr + 8 * (k + 1);
  }

  lemma FirstEight(mem: Mem, addr: nat, n: nat)
    requires n > 0
    ensures ChunksStayInside(mem, addr, n) <==>
            EightInside(mem, addr, n, 0) && (n > 8 ==> ChunksStayInside(mem, addr + 8, n - 8))
  {
    StaysInsideStep(mem, addr, n);
    assert ChunkLength(n) == if n < 8 then n else 8;
    NothingToWrite(mem, addr + n);
    hide RegionAt, ChunksStayInside;
  }

  /** The chunks are of eight bytes and a rest. */
  lemma {:induction false} ChunksAreEights(mem: Mem, addr: nat, n: nat)
    ensures ChunksStayInside(mem, addr, n) <==> forall k: nat :: 8 * k < n ==> EightInside(mem, addr, n, k)
    decreases n
  {
    if n == 0 {
      NothingToWrite(mem, addr);
    } else {
      FirstEight(mem, addr, n);
      hide *;
      if n > 8 {
        ChunksAreEights(mem, addr + 8, n - 8);
        forall k: nat | 8 * k + 8 < n
          ensures EightInside(mem, addr + 8, n - 8, k) == EightInside(mem, addr, n, k + 1)
        {
          EightShifted(mem, addr, n, k);
        }
        forall k: nat | 0 < k && 8 * k < n
          ensures EightInside(mem, addr, n, k) == EightInside(mem, addr + 8, n - 8, k - 1)
        {
          EightShifted(mem, addr, n, k - 1);
        }
      }
    }
  }

  /**
   Writing in chunks succeeds exactly if writing byte by byte does and no chunk straddles the end of a
   region; and then both leave the same memory.
   */
  lemma ChunkedIsBytewise(mem: Mem, addr: nat, data: seq<Byte>)
    requires Valid(mem)
    ensures WriteChunks(mem, addr, data).Ok? <==>
            WriteBytes(mem, addr, data).Ok? && ChunksStayInside(mem, addr, |data|)
    ensures WriteChunks(mem, addr, data).Ok? ==> WriteChunks(mem, addr, data) == WriteBytes(mem, addr, data)
  {
    hide WriteChunks, WriteBytes, Valid, SameLayout, Holds;
    BytewiseSucceeds(mem, addr, data);
    ChunksSucceed(mem, addr, data);
    if WriteChunks(mem, addr, data).Ok? {
      ChunksSet(mem, addr, data);
      BytewiseSets(mem, addr, data);
      SameWrite(WriteChunks(mem, addr, data).value, WriteBytes(mem, addr, data).value, mem, addr, data);
    }
  }
}
