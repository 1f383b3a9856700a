/** scepfsdRead and scepfsdWrite: requests larger than the shared segment are cut into chunks. */
module PfsdTransfer {
  import opened ByteStrings

  const INT_LIMIT := 0x8000_0000

  /** How many of n bytes a read at pos delivers, and how many a write at pos takes on a device of that capacity. */
  function Readable(data: Bytes, pos: nat, n: nat): (r: nat)
    ensures r <= n && (r > 0 ==> pos + r <= |data|) && (r < n ==> pos + r >= |data|)
  {
    if pos >= |data| then 0 else if pos + n <= |data| then n else |data| - pos
  }

  function Writable(capacity: nat, pos: nat, n: nat): (r: nat)
    ensures r <= n && (r > 0 ==> pos + r <= capacity) && (r < n ==> pos + r >= capacity)
  {
    if pos >= capacity then 0 else if pos + n <= capacity then n else capacity - pos
  }

  /** The file with bytes written at pos. */
  function Overwritten(data: Bytes, pos: nat, bytes: Bytes): Bytes
    requires pos <= |data|
  {
    data[..pos] + bytes + if pos + |bytes| <= |data| then data[pos + |bytes|..] else []
  }

  /** Byte by byte: bytes stand at pos, everything else is as it was, and the file grows only as far as it must. */
  lemma OverwrittenInBytes(data: Bytes, pos: nat, bytes: Bytes)
    requires pos <= |data|
    ensures var r := Overwritten(data, pos, bytes);
      && |r| == (if pos + |bytes| > |data| then pos + |bytes| else |data|)
      && forall k :: 0 <= k < |r| ==> r[k] == if pos <= k < pos + |bytes| then bytes[k - pos] else data[k]
  {
  }

  lemma OverwrittenTwice(data: Bytes, pos: nat, a: Bytes, b: Bytes)
    requires pos <= |data|
    ensures pos + |a| <= |Overwritten(data, pos, a)|
    ensures Overwritten(Overwritten(data, pos, a), pos + |a|, b) == Overwritten(data, pos, a + b)
  {
    var once := Overwritten(data, pos, a);
    assert once[..pos + |a|] == data[..pos] + a;
    if pos + |a| + |b| <= |once| && pos + |a| <= |data| {
      assert once[pos + |a|..] == data[pos + |a|..];
      assert once[pos + |a| + |b|..] == once[pos + |a|..][|b|..] == data[pos + |a| + |b|..];
    }
  }

  // ----- what the caller is told -----

  /** How many chunks of the segment's size come before the last request. */
  function FullChunks(size: nat, chunk: nat): (k: nat)
    requires chunk > 0
    ensures size <= chunk <==> k == 0
    ensures k * chunk <= size <= (k + 1) * chunk
    ensures size > 0 ==> k * chunk < size
  {
    Chunks(size, chunk);
    if size == 0 then 0 else (size - 1) / chunk
  }

  lemma Chunks(size: nat, chunk: nat)
    requires chunk > 0
    ensures size > 0 ==>
      var k := (size - 1) / chunk; (size <= chunk <==> k == 0) && k * chunk < size <= (k + 1) * chunk
  {
    if size > 0 {
      var k := (size - 1) / chunk;
      assert size - 1 == k * chunk + (size - 1) % chunk;
      if k > 0 {
        assert k * chunk >= chunk;
      }
    }
  }

  /** How many requests are made when none fails and the file has avail of the bytes: up to the first that comes
      back short, or the last. */
  function Requests(size: nat, chunk: nat, avail: nat): (n: nat)
    requires chunk > 0
    ensures n > 0
    ensures n <= FullChunks(size, chunk) + 1
    ensures n <= FullChunks(size, chunk) ==> (n - 1) * chunk <= avail < n * chunk
  {
    WholeAndPart(avail, chunk);
    1 + if avail / chunk < FullChunks(size, chunk) then avail / chunk else FullChunks(size, chunk)
  }

  lemma WholeAndPart(n: nat, chunk: nat)
    requires chunk > 0
    ensures n / chunk * chunk <= n < (n / chunk + 1) * chunk
  {
    assert n == n / chunk * chunk + n % chunk;
  }

  /** The bytes a request has moved, by its answer. */
  function Count(r: int): nat { if r < 0 then 0 else r }

  /** The first of n requests that fails, or n; request 0 is the one numbered from. */
  function FirstFailure(fails: nat -> int, from: nat, n: nat): (j: nat)
    ensures j <= n
    ensures forall c :: from <= c < from + j ==> fails(c) >= 0
    ensures j < n ==> fails(from + j) < 0
    decreases n
  {
    if n == 0 || fails(from) < 0 then 0 else 1 + FirstFailure(fails, from + 1, n - 1)
  }

  lemma {:induction false} FirstFailureIs(fails: nat -> int, from: nat, n: nat, j: nat)
    requires j <= n && (forall c :: from <= c < from + j ==> fails(c) >= 0) && (j < n ==> fails(from + j) < 0)
    ensures FirstFailure(fails, from, n) == j
    decreases n
  {
    if j > 0 {
      assert fails(from) >= 0;
      FirstFailureIs(fails, from + 1, n - 1, j - 1);
    }
  }

  /** How a transfer goes: the requests it makes, the bytes it moves, and what the caller is told. */
  datatype Course = Course(requests: nat, done: nat, told: int)

  /** The course of a transfer of size bytes in chunks, when avail of them are there and request c fails with
      fails(c): the first failure ends it, and a failure of the last request is added to the count so far. */
  function CourseOf(fails: nat -> int, from: nat, size: nat, chunk: nat, avail: nat): Course
    requires chunk > 0
  {
    var k, n := FullChunks(size, chunk), Requests(size, chunk, avail);
    var j := FirstFailure(fails, from, n);
    if j == n then Course(n, avail, avail)
    else Course(j + 1, j * chunk, if j < k then fails(from + j) else fails(from + j) + k * chunk)
  }

  /** The first i requests are served. */
  ghost predicate NoneFails(fails: nat -> int, from: nat, i: nat)
  {
    forall c :: from <= c < from + i ==> fails(c) >= 0
  }

  lemma NoneFailsYet(fails: nat -> int, from: nat)
    ensures NoneFails(fails, from, 0)
  {
  }

  lemma NoneFailsStill(fails: nat -> int, from: nat, i: nat)
    requires NoneFails(fails, from, i)
    ensures fails(from + i) >= 0 ==> NoneFails(fails, from, i + 1)
  {
  }

  /** The bytes in i chunks. */
  function SizeOf(i: nat, chunk: nat): (r: nat)
    ensures i == 0 ==> r == 0
  {
    i * chunk
  }

  /** The request after i full chunks, when its answer r ends the transfer: an error, a short count, or any
      answer to the last request. */
  lemma Stops(fails: nat -> int, from: nat, size: nat, chunk: nat, avail: nat, i: nat, r: int)
    requires chunk > 0 && i <= FullChunks(size, chunk) && SizeOf(i, chunk) <= avail <= size
    requires NoneFails(fails, from, i)
    requires if fails(from + i) < 0 then r == fails(from + i) else 0 <= r == avail - SizeOf(i, chunk)
    requires r >= chunk ==> i == FullChunks(size, chunk)
    ensures var chunked := SizeOf(i, chunk);
      CourseOf(fails, from, size, chunk, avail)
        == Course(i + 1, chunked + Count(r), if r < 0 && i < FullChunks(size, chunk) then r else r + chunked)
  {
    hide FullChunks, Requests;
    RequestsReach(size, chunk, avail, i);
    FirstFailureIs(fails, from, Requests(size, chunk, avail), if r < 0 then i else i + 1);
  }

  /** The request after i full chunks is made, and is the last one if it is short or all chunks are behind it. */
  lemma RequestsReach(size: nat, chunk: nat, avail: nat, i: nat)
    requires chunk > 0 && i <= FullChunks(size, chunk) && i * chunk <= avail
    ensures i < Requests(size, chunk, avail)
    ensures avail - i * chunk < chunk || i == FullChunks(size, chunk) ==> Requests(size, chunk, avail) == i + 1
  {
    WholeChunks(chunk, avail, i);
    hide FullChunks;
    if avail - i * chunk < chunk {
      assert avail < (i + 1) * chunk;
      NotMoreChunks(chunk, avail, i);
    }
  }

  /** Without failures every request of the course is made, and the caller is told what was there. */
  lemma NothingFails(fails: nat -> int, from: nat, size: nat, chunk: nat, avail: nat)
    requires chunk > 0 && forall c :: fails(c) >= 0
    ensures CourseOf(fails, from, size, chunk, avail) == Course(Requests(size, chunk, avail), avail, avail)
  {
    FirstFailureIs(fails, from, Requests(size, chunk, avail), Requests(size, chunk, avail));
  }

  lemma NotLessByFactor(a: nat, b: nat, c: nat)
    requires a <= b
    ensures a * c <= b * c
  {
  }

  lemma LessByFactor(a: nat, b: nat, c: nat)
    requires a * c < b * c
    ensures a < b
  {
    if b <= a {
      NotLessByFactor(b, a, c);
    }
  }

  lemma WholeChunks(chunk: nat, avail: nat, i: nat)
    requires chunk > 0 && i * chunk <= avail
    ensures i <= avail / chunk
  {
    var q := avail / chunk;
    assert avail == q * chunk + avail % chunk;
    LessByFactor(i, q + 1, chunk);
  }

  lemma NotMoreChunks(chunk: nat, avail: nat, i: nat)
    requires chunk > 0 && avail < (i + 1) * chunk
    ensures avail / chunk <= i
  {
    var q := avail / chunk;
    assert avail == q * chunk + avail % chunk;
    LessByFactor(q, i + 1, chunk);
  }

  /** When request j is the first to fail, the caller is told its error itself exactly when it is not the last
      request or no chunk came before it; otherwise the size of all the chunks before it is added to the error. */
  lemma ErrorIsToldIff(fails: nat -> int, from: nat, size: nat, chunk: nat, avail: nat, j: nat)
    requires chunk > 0 && j < Requests(size, chunk, avail)
    requires (forall c :: from <= c < from + j ==> fails(c) >= 0) && fails(from + j) < 0
    ensures CourseOf(fails, from, size, chunk, avail).done == j * chunk
    ensures CourseOf(fails, from, size, chunk, avail).requests == j + 1
    ensures var k, told := FullChunks(size, chunk), CourseOf(fails, from, size, chunk, avail).told;
      && (told == fails(from + j) <==> j < k || k == 0)
      && (told != fails(from + j) ==> told == fails(from + j) + k * chunk && j == k)
  {
    var k := FullChunks(size, chunk);
    FirstFailureIs(fails, from, Requests(size, chunk, avail), j);
    if k > 0 {
      assert k * chunk >= chunk;
    }
  }

  /** Whatever fails and whatever the file holds, the caller is told the count or the very error. */
  ghost predicate AlwaysTold(size: nat, chunk: nat)
    requires chunk > 0
  {
    forall fails: nat -> int, from: nat, avail: nat | avail <= size ::
      var j := FirstFailure(fails, from, Requests(size, chunk, avail));
      CourseOf(fails, from, size, chunk, avail).told
        == if j == Requests(size, chunk, avail) then avail else fails(from + j)
  }

  /** That can be relied on exactly for requests that fit the segment. */
  lemma AlwaysToldIff(size: nat, chunk: nat)
    requires chunk > 0
    ensures AlwaysTold(size, chunk) <==> size <= chunk
  {
    var k := FullChunks(size, chunk);
    if size > chunk {
      var fails: nat -> int := c => if c == k then -1 else 0;
      WholeChunks(chunk, size, k);
      assert k < Requests(size, chunk, size);
      ErrorIsToldIff(fails, 0, size, chunk, size, k);
      FirstFailureIs(fails, 0, Requests(size, chunk, size), k);
      assert !AlwaysTold(size, chunk);
    } else {
      forall fails: nat -> int, from: nat, avail: nat | avail <= size
        ensures var j := FirstFailure(fails, from, Requests(size, chunk, avail));
          CourseOf(fails, from, size, chunk, avail).told
            == if j == Requests(size, chunk, avail) then avail else fails(from + j)
      {
      }
    }
  }

  class Client {
    const shm: array<byte>     // ShmPtr, SharedMemorySize bytes
    var data: Bytes            // the file behind the descriptor
    var pos: nat               // its position
    const capacity: nat        // how large the file may grow
    const fails: nat -> int    // the error of the n-th request, 0 when it is served
    var calls: nat

    constructor (shm: array<byte>, data: Bytes, pos: nat, capacity: nat, fails: nat -> int)
      ensures this.shm == shm && this.data == data && this.pos == pos && this.capacity == capacity
      ensures this.fails == fails && calls == 0
    {
      this.shm, this.data, this.pos, this.capacity, this.fails, this.calls := shm, data, pos, capacity, fails, 0;
    }

    ghost predicate Valid()
      reads this
    {
      0 < shm.Length < INT_LIMIT && pos <= |data| && forall n :: fails(n) <= 0
    }

    /** PFSD_REQ_READ at the daemon: reads n bytes into the segment. */
    method ServeRead(n: nat) returns (r: int)
      requires Valid() && n <= shm.Length
      modifies this`pos, this`calls, shm
      ensures Valid() && calls == old(calls) + 1
      ensures fails(old(calls)) < 0 ==> r == fails(old(calls)) && pos == old(pos)
      ensures fails(old(calls)) == 0 ==> r == Readable(data, old(pos), n) && pos == old(pos) + r
      ensures fails(old(calls)) == 0 ==> shm[..r] == data[old(pos)..old(pos) + r]
    {
      r := fails(calls);
      calls := calls + 1;
      if r < 0 {
        return;
      }
      var got := Readable(data, pos, n);
      Put(shm, 0, data[pos..pos + got]);
      assert shm[..got] == data[pos..pos + got];
      pos := pos + got;
      r := got;
    }

    /** PFSD_REQ_WRITE at the daemon: writes n bytes from the segment. */
    method ServeWrite(n: nat) returns (r: int)
      requires Valid() && n <= shm.Length
      modifies this`data, this`pos, this`calls
      ensures Valid() && calls == old(calls) + 1
      ensures fails(old(calls)) < 0 ==> r == fails(old(calls)) && pos == old(pos) && data == old(data)
      ensures fails(old(calls)) == 0 ==> r == Writable(capacity, old(pos), n) && pos == old(pos) + r
      ensures fails(old(calls)) == 0 ==> data == Overwritten(old(data), old(pos), shm[..r])
    {
      r := fails(calls);
      calls := calls + 1;
      if r < 0 {
        return;
      }
      var taken := Writable(capacity, pos, n);
      data := Overwritten(data, pos, shm[..taken]);
      pos := pos + taken;
      r := taken;
    }

    /** scepfsdRead into dst from index at on, as its caller sees it. It moves the bytes and tells the count or the
        error of its course; when no request fails, those are the bytes and the count of one unbounded read. */
    method Read(dst: array<byte>, at: nat, size: nat) returns (ret: int)
      requires Valid() && dst != shm && at + size <= dst.Length && size < INT_LIMIT
      modifies this`pos, this`calls, shm, dst
      ensures Valid()
      ensures var avail := if size <= |data| - old(pos) then size else |data| - old(pos);
        var c := CourseOf(fails, old(calls), size, shm.Length, avail);
        && ret == c.told && calls == old(calls) + c.requests && pos == old(pos) + c.done && c.done <= avail
        && (forall k :: at <= k < at + c.done ==> dst[k] == data[old(pos) + (k - at)])
        && (forall k :: 0 <= k < dst.Length && !(at <= k < at + size) ==> dst[k] == old(dst[k]))
    {
      hide CourseOf, Delivered;
      ghost var before, from, start := dst[..], pos, calls;
      ret := ReadChunks(dst, at, size);
      DeliveredInBytes(data, from, before, dst[..], at, size, CourseOf(fails, start, size, shm.Length, Readable(data, from, size)).done);
      assert forall k :: 0 <= k < dst.Length ==> dst[k] == dst[..][k] && old(dst[k]) == before[k];
    }

    static lemma DeliveredInBytes(data: Bytes, pos: nat, before: Bytes, after: Bytes, at: nat, size: nat, done: nat)
      requires Delivered(data, pos, before, after, at, size, done)
      ensures |before| == |after| && pos + done <= |data| && at + done <= |after|
      ensures forall k :: at <= k < at + done ==> after[k] == data[pos + (k - at)]
      ensures forall k :: 0 <= k < |after| && !(at <= k < at + size) ==> after[k] == before[k]
    {
      assert forall k :: at <= k < at + done ==> after[k] == after[at..at + done][k - at];
      forall k | 0 <= k < |after| && !(at <= k < at + size) ensures after[k] == before[k] {
        assert k < at ==> after[k] == after[..at][k] && before[k] == before[..at][k];
        assert k >= at + size ==> after[k] == after[at + size..][k - at - size] && before[k] == before[at + size..][k - at - size];
      }
    }

    /** The code of scepfsdRead, which calls itself for a chunk. */
    method ReadChunks(dst: array<byte>, at: nat, size: nat) returns (ret: int)
      requires Valid() && dst != shm && at + size <= dst.Length && size < INT_LIMIT
      modifies this`pos, this`calls, shm, dst
      ensures Valid()
      ensures var avail := Readable(data, old(pos), size);
        var c := CourseOf(fails, old(calls), size, shm.Length, avail);
        && ret == c.told && calls == old(calls) + c.requests && pos == old(pos) + c.done && c.done <= avail
        && Delivered(data, old(pos), old(dst[..]), dst[..], at, size, c.done)
      decreases size
    {
      hide Readable, Delivered, CourseOf, FullChunks, Requests, FirstFailure, SizeOf, NoneFails;
      NoneFailsYet(fails, calls);
      ghost var k, i, avail := FullChunks(size, shm.Length), 0, Readable(data, pos, size);
      ghost var first, from, start := dst[..], pos, calls;
      var chunked := 0;
      NothingDelivered(data, pos, dst[..], at, size);
      while shm.Length < size - chunked
        invariant Valid() && chunked == SizeOf(i, shm.Length) && i <= k && chunked <= avail
        invariant calls == start + i && pos == from + chunked
        invariant NoneFails(fails, start, i)
        invariant Delivered(data, from, first, dst[..], at, size, chunked)
        decreases size - chunked
      {
        ghost var before := dst[..];
        NotYetLast(size, shm.Length, i);
        OneRequest(fails, calls, shm.Length, shm.Length, Readable(data, pos, shm.Length));
        var result := ReadChunks(dst, at + chunked, shm.Length);
        ghost var after := dst[..];
        Together(data, from, first, before, after, at, size, chunked, shm.Length, Count(result));
        if result < shm.Length {
          Stops(fails, start, size, shm.Length, avail, i, result);
        }
        if result < 0 {
          return result;
        }
        if result < shm.Length {
          return result + chunked;
        }
        NoneFailsStill(fails, start, i);
        chunked := chunked + result;
        i := i + 1;
      }
      ghost var before := dst[..];
      NowLast(size, shm.Length, i);
      ret := ReadLast(dst, at + chunked, size - chunked);
      ghost var after := dst[..];
      Together(data, from, first, before, after, at, size, chunked, size - chunked, Count(ret));
      Stops(fails, start, size, shm.Length, avail, i, ret);
      ret := ret + chunked;
    }

    /** The request that fits the segment: the daemon reads, the whole of the requested size is copied out. */
    method ReadLast(dst: array<byte>, at: nat, n: nat) returns (ret: int)
      requires Valid() && dst != shm && at + n <= dst.Length && n <= shm.Length
      modifies this`pos, this`calls, shm, dst
      ensures Valid() && calls == old(calls) + 1
      ensures ret == if fails(old(calls)) < 0 then fails(old(calls)) else Readable(data, old(pos), n)
      ensures pos == old(pos) + Count(ret)
      ensures Delivered(data, old(pos), old(dst[..]), dst[..], at, n, Count(ret))
    {
      ret := ServeRead(n);
      Put(dst, at, shm[..n]);
      assert ret >= 0 ==> dst[at..at + ret] == shm[..ret];
    }

    /** A request that fits the segment is one request. */
    static lemma OneRequest(fails: nat -> int, from: nat, size: nat, chunk: nat, avail: nat)
      requires chunk > 0 && size <= chunk && avail <= size
      ensures CourseOf(fails, from, size, chunk, avail)
        == if fails(from) < 0 then Course(1, 0, fails(from)) else Course(1, avail, avail)
    {
      FirstFailureIs(fails, from, 1, if fails(from) < 0 then 0 else 1);
    }

    /** While more than a chunk is missing, the last request is still to come. */
    static lemma NotYetLast(size: nat, chunk: nat, i: nat)
      requires chunk > 0 && chunk < size - SizeOf(i, chunk)
      ensures i < FullChunks(size, chunk) && SizeOf(i + 1, chunk) == SizeOf(i, chunk) + chunk
    {
      LessByFactor(i + 1, FullChunks(size, chunk) + 1, chunk);
    }

    static lemma NowLast(size: nat, chunk: nat, i: nat)
      requires chunk > 0 && i <= FullChunks(size, chunk) && SizeOf(i, chunk) <= size <= SizeOf(i, chunk) + chunk
      ensures i == FullChunks(size, chunk)
    {
      if size > 0 {
        LessByFactor(FullChunks(size, chunk), i + 1, chunk);
      }
    }

    /** done bytes of the file from pos on stand in the buffer from at on; outside the size bytes that were asked
        for the buffer is as it was. */
    static ghost predicate Delivered(data: Bytes, pos: nat, before: Bytes, after: Bytes, at: nat, size: nat, done: nat)
    {
      && pos <= |data| && |before| == |after| && at + size <= |after| && done <= Readable(data, pos, size)
      && after[at..at + done] == data[pos..pos + done]
      && after[..at] == before[..at] && after[at + size..] == before[at + size..]
    }

    static lemma NothingDelivered(data: Bytes, pos: nat, buffer: Bytes, at: nat, size: nat)
      requires pos <= |data| && at + size <= |buffer|
      ensures Delivered(data, pos, buffer, buffer, at, size, 0)
    {
      assert buffer[at..at] == [] == data[pos..pos];
    }

    /** A chunk behind the first chunked bytes: the two deliveries are one, and so are the counts. */
    static lemma Together(data: Bytes, pos: nat, first: Bytes, before: Bytes, after: Bytes, at: nat, size: nat,
                          chunked: nat, n: nat, done: nat)
      requires chunked + n <= size
      requires Delivered(data, pos, first, before, at, size, chunked)
      requires Delivered(data, pos + chunked, before, after, at + chunked, n, done)
      ensures Delivered(data, pos, first, after, at, size, chunked + done)
      ensures chunked + done <= Readable(data, pos, size)
      ensures done == Readable(data, pos + chunked, n) && (done < n || chunked + n == size) ==>
        chunked + done == Readable(data, pos, size)
    {
      KeptAround(before, after, at, chunked, n, size);
      assert after[at..at + chunked + done] == after[at..at + chunked] + after[at + chunked..at + chunked + done];
      assert data[pos..pos + chunked + done] == data[pos..pos + chunked] + data[pos + chunked..pos + chunked + done];
    }

    /** A change between at + chunked and at + chunked + n leaves the rest of the buffer. */
    static lemma KeptAround(before: Bytes, after: Bytes, at: nat, chunked: nat, n: nat, size: nat)
      requires |before| == |after| && at + size <= |before| && chunked + n <= size
      requires after[..at + chunked] == before[..at + chunked]
      requires after[at + chunked + n..] == before[at + chunked + n..]
      ensures after[..at] == before[..at] && after[at..at + chunked] == before[at..at + chunked]
      ensures after[at + size..] == before[at + size..]
    {
      assert after[..at] == after[..at + chunked][..at];
      assert before[..at] == before[..at + chunked][..at];
      assert after[at..at + chunked] == after[..at + chunked][at..];
      assert before[at..at + chunked] == before[..at + chunked][at..];
      var d := size - chunked - n;
      assert after[at + size..] == after[at + chunked + n..][d..];
      assert before[at + size..] == before[at + chunked + n..][d..];
    }

    /** scepfsdWrite of src, as its caller sees it. It writes the bytes and tells the count or the error of its course;
        when no request fails, it takes as many bytes as one unbounded write would, short ones at the end of the
        device included. The written bytes stand at the position, everything else in the file is as it was. */
    method Write(src: Bytes) returns (ret: int)
      requires Valid() && |src| < INT_LIMIT
      modifies this`data, this`pos, this`calls, shm
      ensures Valid()
      ensures var room := if old(pos) >= capacity then 0 else if |src| <= capacity - old(pos) then |src| else capacity - old(pos);
        var c := CourseOf(fails, old(calls), |src|, shm.Length, room);
        && ret == c.told && calls == old(calls) + c.requests && pos == old(pos) + c.done && c.done <= room
        && |data| == (if old(pos) + c.done > old(|data|) then old(pos) + c.done else old(|data|))
        && forall k :: 0 <= k < |data| ==>
          data[k] == if old(pos) <= k < old(pos) + c.done then src[k - old(pos)] else old(data)[k]
    {
      hide CourseOf;
      ghost var before, from, start := data, pos, calls;
      ret := WriteChunks(src);
      ghost var done := CourseOf(fails, start, |src|, shm.Length, Writable(capacity, from, |src|)).done;
      OverwrittenInBytes(before, from, src[..done]);
    }

    /** The code of scepfsdWrite, which calls itself for a chunk. */
    method WriteChunks(src: Bytes) returns (ret: int)
      requires Valid() && |src| < INT_LIMIT
      modifies this`data, this`pos, this`calls, shm
      ensures Valid()
      ensures var avail := Writable(capacity, old(pos), |src|);
        var c := CourseOf(fails, old(calls), |src|, shm.Length, avail);
        && ret == c.told && calls == old(calls) + c.requests && pos == old(pos) + c.done && c.done <= avail
        && Taken(capacity, old(data), old(pos), data, src, c.done)
      decreases |src|
    {
      hide Writable, Taken, CourseOf, FullChunks, Requests, FirstFailure, SizeOf;
      ghost var k, i, avail := FullChunks(|src|, shm.Length), 0, Writable(capacity, pos, |src|);
      var chunked := 0;
      NothingTaken(capacity, data, pos, src);
      while shm.Length < |src| - chunked
        invariant Valid() && chunked == SizeOf(i, shm.Length) && i <= k && chunked <= avail
        invariant calls == old(calls) + i && pos == old(pos) + chunked
        invariant forall c :: old(calls) <= c < calls ==> fails(c) >= 0
        invariant Taken(capacity, old(data), old(pos), data, src, chunked)
        decreases |src| - chunked
      {
        ghost var before := data;
        NotYetLast(|src|, shm.Length, i);
        OneRequest(fails, calls, shm.Length, shm.Length, Writable(capacity, pos, shm.Length));
        var result := WriteChunks(src[chunked..chunked + shm.Length]);
        BothTaken(capacity, old(data), old(pos), before, data, src, chunked, shm.Length, Count(result));
        if result < shm.Length {
          Stops(fails, old(calls), |src|, shm.Length, avail, i, result);
        }
        if result < 0 {
          return result;
        }
        if result < shm.Length {
          return result + chunked;
        }
        chunked := chunked + result;
        i := i + 1;
      }
      ghost var before := data;
      NowLast(|src|, shm.Length, i);
      assert src[chunked..] == src[chunked..chunked + (|src| - chunked)];
      ret := WriteLast(src[chunked..]);
      BothTaken(capacity, old(data), old(pos), before, data, src, chunked, |src| - chunked, Count(ret));
      Stops(fails, old(calls), |src|, shm.Length, avail, i, ret);
      ret := ret + chunked;
    }

    method WriteLast(bytes: Bytes) returns (ret: int)
      requires Valid() && |bytes| <= shm.Length
      modifies this`data, this`pos, this`calls, shm
      ensures Valid() && calls == old(calls) + 1
      ensures ret == if fails(old(calls)) < 0 then fails(old(calls)) else Writable(capacity, old(pos), |bytes|)
      ensures pos == old(pos) + Count(ret)
      ensures Taken(capacity, old(data), old(pos), data, bytes, Count(ret))
    {
      NothingTaken(capacity, data, pos, bytes);
      Put(shm, 0, bytes);
      ret := ServeWrite(|bytes|);
      assert ret >= 0 ==> shm[..ret] == bytes[..ret];
    }

    /** The first done bytes of src have been written at pos. */
    static ghost predicate Taken(capacity: nat, before: Bytes, pos: nat, after: Bytes, src: Bytes, done: nat)
    {
      pos <= |before| && done <= Writable(capacity, pos, |src|) && after == Overwritten(before, pos, src[..done])
    }

    static lemma NothingTaken(capacity: nat, data: Bytes, pos: nat, src: Bytes)
      requires pos <= |data|
      ensures Taken(capacity, data, pos, data, src, 0)
    {
      assert src[..0] == [];
    }

    static lemma BothTaken(capacity: nat, first: Bytes, pos: nat, before: Bytes, after: Bytes, src: Bytes,
                           chunked: nat, n: nat, done: nat)
      requires chunked + n <= |src|
      requires Taken(capacity, first, pos, before, src, chunked)
      requires Taken(capacity, before, pos + chunked, after, src[chunked..chunked + n], done)
      ensures Taken(capacity, first, pos, after, src, chunked + done)
      ensures chunked + done <= Writable(capacity, pos, |src|)
      ensures done == Writable(capacity, pos + chunked, n) && (done < n || chunked + n == |src|) ==>
        chunked + done == Writable(capacity, pos, |src|)
    {
      var piece := src[chunked..chunked + n][..done];
      assert src[..chunked + done] == src[..chunked] + piece;
      OverwrittenTwice(first, pos, src[..chunked], piece);
    }
  }

  /** A run in which an error is not told: a segment of one byte, two bytes to read, and the second request fails
      with -5. The caller gets -4, another error; with an error of -1 it would get 0, the end of the file. */
  method ErrorIsMisread(error: int) returns (ret: int)
    requires error < 0
    ensures ret == error + 1
  {
    var shm := new byte[1];
    var c := new Client(shm, [7, 7], 0, 2, n => if n == 1 then error else 0);
    var dst := new byte[2];
    ret := c.Read(dst, 0, 2);
    assert FullChunks(2, 1) == 1;
    Stops(c.fails, 0, 2, 1, 2, 1, error);
  }
}
