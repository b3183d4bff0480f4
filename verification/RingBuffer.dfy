/** The ring buffer of src/libnetdata/ringbuffer: one array, two cursors and a byte count. */
module RingBuffers {
  import opened Bytes

  /** Position `i` of a ring of `size` bytes, for positions at most one lap ahead. */
  function Wrap(size: nat, i: nat): (r: nat)
    requires i < 2 * size || i == size == 0
    ensures r < size || r == size == 0
  {
    if i < size then i else i - size
  }

  lemma WrapIsModulo(size: nat, i: nat)
    requires i < 2 * size
    ensures i % size == Wrap(size, i)
  {
    if i >= size {
      assert i == size + (i - size);
      assert (size + (i - size)) % size == i - size;
    }
  }

  /** `n` bytes of the ring `d` read from position `start` on. */
  function Unroll(d: string, start: nat, n: nat): (s: string)
    requires n <= |d| && (start < |d| || n == 0)
    ensures |s| == n
    ensures forall k | 0 <= k < n :: s[k] == d[Wrap(|d|, start + k)]
  {
    seq(n, k requires 0 <= k < n => d[Wrap(|d|, start + k)])
  }

  lemma UnrollTake(d: string, start: nat, n: nat, k: nat)
    requires start < |d| && k <= n <= |d|
    ensures Unroll(d, start, n)[..k] == Unroll(d, start, k)
  {
  }

  /** Dropping the oldest bytes moves the start. */
  lemma UnrollDrop(d: string, start: nat, n: nat, k: nat)
    requires start < |d| && k <= n <= |d|
    ensures Unroll(d, start, n)[k..] == Unroll(d, Wrap(|d|, start + k), n - k)
  {
  }

  /** Moving a cursor by `k` bytes of the `n` in front of it. */
  lemma MoveCursor(size: nat, start: nat, n: nat, k: nat)
    requires start < size && k <= n <= size
    ensures (start + k) % size == Wrap(size, start + k)
    ensures Wrap(size, Wrap(size, start + k) + (n - k)) == Wrap(size, start + n)
  {
    WrapIsModulo(size, start + k);
  }

  /**
   The bytes left by `rbuf_bump_tail`. A move by nothing on a full ring finds the cursors equal and flushes the ring
   (a build with assertions stops there).
   */
  function Bumped(s: string, n: nat, capacity: nat): string {
    if n == 0 && |s| == capacity then [] else Skip(s, n)
  }

  /** Popping `run` bytes and then the others of `len` is popping `len` bytes. */
  lemma PopTwice(s: string, run: nat, len: nat, capacity: nat)
    requires 0 < run < len && run <= |s| <= capacity
    ensures var rest := Bumped(s, run, capacity);
      var n := Min(len - run, |rest|);
      s[..run] + rest[..n] == s[..Min(len, |s|)] && Bumped(rest, n, capacity) == Bumped(s, Min(len, |s|), capacity)
  {
    TakeTwice(s, run, Min(len - run, |s| - run));
  }

  /** Taking `a` bytes and then `b` bytes is taking `a + b` bytes. */
  lemma TakeTwice(s: string, a: nat, b: nat)
    requires a + b <= |s|
    ensures s[..a] + s[a..][..b] == s[..a + b] && s[a..][b..] == s[a + b..]
  {
  }

  /** Writing a run of free bytes behind the readable ones appends it. */
  lemma UnrollWrite(d: string, d': string, start: nat, n: nat, run: string)
    requires start < |d| && n + |run| <= |d| && n < |d|
    requires |d'| == |d|
    requires Wrap(|d|, start + n) + |run| <= |d|
    requires var at := Wrap(|d|, start + n); d' == d[..at] + run + d[at + |run|..]
    ensures Unroll(d', start, n + |run|) == Unroll(d, start, n) + run
  {
    var at := Wrap(|d|, start + n);
    forall k | 0 <= k < n + |run|
      ensures Unroll(d', start, n + |run|)[k] == (Unroll(d, start, n) + run)[k]
    {
      assert Unroll(d', start, n + |run|)[k] == d'[Wrap(|d|, start + k)];
    }
  }

  /** The search has to go on behind the first `k` offsets. */
  predicate Absent(hay: string, needle: string, k: nat)
    requires k <= |hay|
  {
    forall i | 0 <= i < k :: !Agrees(hay[i..], needle)
  }

  lemma AbsentNext(hay: string, needle: string, k: nat)
    requires k < |hay| && Absent(hay, needle, k) && !Agrees(hay[k..], needle)
    ensures Absent(hay, needle, k + 1)
  {
  }

  lemma AbsentFinds(hay: string, needle: string, k: nat)
    requires k <= |hay| && Absent(hay, needle, k) && (k < |hay| ==> Agrees(hay[k..], needle))
    ensures Find(hay, needle) == k
  {
    FindIs(hay, needle, k);
  }

  class RingBuffer {
    const data: array<char>
    /** Next byte to write. */
    var head: nat
    /** Oldest readable byte. */
    var tail: nat
    var count: nat

    /** The readable bytes, oldest first. */
    ghost var contents: string

    ghost predicate Valid()
      reads this, data
    {
      && (head < data.Length || head == data.Length == 0)
      && (tail < data.Length || tail == data.Length == 0)
      && count <= data.Length
      && head == Wrap(data.Length, tail + count)
      && contents == Unroll(data[..], tail, count)
    }

    constructor (size: nat)
      ensures Valid() && fresh(data)
      ensures data.Length == size && contents == []
    {
      data := new char[size](_ => NUL);
      head, tail, count := 0, 0, 0;
      contents := [];
    }

    function Capacity(): nat
      reads this
    {
      data.Length
    }

    function BytesAvailable(): nat
      reads this
    {
      count
    }

    function BytesFree(): (n: int)
      requires Valid()
      reads this, data
      ensures n >= 0
    {
      data.Length - count
    }

    method Flush()
      requires Valid()
      modifies this
      ensures Valid() && contents == []
    {
      head, tail, count := 0, 0, 0;
      contents := [];
    }

    /** Length of the longest run that can be written at `head` without wrapping. */
    method LinearInsertRange() returns (bytes: nat)
      requires Valid()
      ensures bytes <= data.Length - count && count == |contents|
      ensures bytes == 0 <==> count == data.Length
      ensures head + bytes <= data.Length
    {
      if head == tail && count != 0 {
        return 0;
      }
      bytes := (if head >= tail then data.Length else tail) - head;
    }

    /** Length of the longest run that can be read at `tail` without wrapping. */
    method LinearReadRange() returns (bytes: nat)
      requires Valid()
      ensures bytes <= count
      ensures bytes == 0 <==> count == 0
      ensures count == |contents|
      ensures tail + bytes <= data.Length
    {
      if head == tail && count == 0 {
        return 0;
      }
      bytes := (if tail >= head then data.Length else head) - tail;
    }

    /** A move by nothing takes a remainder by zero on a ring of size zero. */
    method BumpHead(bytes: nat) returns (ok: bool)
      requires Valid() && (data.Length == 0 ==> bytes > 0)
      modifies this`head, this`count, this`contents
      ensures Valid()
      ensures ok <==> bytes <= data.Length - |old(contents)|
      ensures |contents| == |old(contents)| + (if ok then bytes else 0)
      ensures contents[..|old(contents)|] == old(contents)
    {
      if bytes > BytesFree() {
        return false;
      }
      WrapIsModulo(data.Length, head + bytes);
      UnrollTake(data[..], tail, count + bytes, count);
      head := (head + bytes) % data.Length;
      count := count + bytes;
      contents := Unroll(data[..], tail, count);
      return true;
    }

    method BumpTailNoopt(bytes: nat) returns (ok: bool)
      requires Valid() && (data.Length == 0 ==> bytes > 0)
      modifies this`tail, this`count, this`contents
      ensures Valid()
      ensures ok <==> bytes <= |old(contents)|
      ensures contents == Skip(old(contents), bytes)
    {
      if bytes > count {
        return false;
      }
      MoveCursor(data.Length, tail, count, bytes);
      UnrollDrop(data[..], tail, count, bytes);
      tail := (tail + bytes) % data.Length;
      count := count - bytes;
      contents := contents[bytes..];
      return true;
    }

    /** `stops` says that the assertion fails, which ends a build that has assertions. */
    method BumpTail(bytes: nat) returns (ok: bool, stops: bool)
      requires Valid() && (data.Length == 0 ==> bytes > 0)
      modifies this
      ensures Valid()
      ensures ok <==> bytes <= |old(contents)|
      ensures contents == Bumped(old(contents), bytes, data.Length)
      ensures stops <==> bytes == 0 && |old(contents)| == data.Length
    {
      ok := BumpTailNoopt(bytes);
      stops := false;
      if ok && tail == head {
        stops := count != 0;
        Flush();
      }
    }

    /** Writes as many of the bytes as fit. */
    method Push(bytes: string) returns (n: nat)
      requires Valid()
      modifies this, data
      ensures Valid()
      ensures n == Min(|bytes|, data.Length - |old(contents)|)
      ensures contents == old(contents) + bytes[..n]
      decreases |bytes|
    {
      var room := LinearInsertRange();
      if room == 0 {
        return 0;
      }
      n := Min(room, |bytes|);
      WriteRun(bytes[..n]);
      if n < |bytes| {
        var rest := Push(bytes[n..]);
        TakeTwice(bytes, n, rest);
        n := n + rest;
      }
    }

    /** The `memcpy` and head move of one push round. */
    method WriteRun(run: string)
      requires Valid() && count < data.Length
      requires |run| <= data.Length - count && head + |run| <= data.Length
      modifies this, data
      ensures Valid() && contents == old(contents) + run
    {
      ghost var d := data[..];
      forall i | 0 <= i < |run| {
        data[head + i] := run[i];
      }
      assert data[..] == d[..head] + run + d[head + |run|..];
      UnrollWrite(d, data[..], tail, count, run);
      UnrollTake(data[..], tail, count + |run|, count);
      var _ := BumpHead(|run|);
    }

    /** Removes and returns up to `len` of the oldest bytes. */
    method Pop(len: nat) returns (bytes: string)
      requires Valid()
      modifies this
      ensures Valid()
      ensures bytes == old(contents)[..Min(len, |old(contents)|)]
      ensures contents == Bumped(old(contents), Min(len, |old(contents)|), data.Length)
      decreases len
    {
      var run := LinearReadRange();
      if run == 0 {
        return [];
      }
      run := Min(run, len);
      bytes := ReadRun(run);
      if run < len {
        var rest := Pop(len - run);
        bytes := bytes + rest;
        PopTwice(old(contents), run, len, data.Length);
      }
    }

    /** The `memcpy` and tail move of one pop round. */
    method ReadRun(run: nat) returns (bytes: string)
      requires Valid() && run <= count && tail + run <= data.Length && count > 0
      modifies this
      ensures Valid()
      ensures bytes == old(contents)[..run] && contents == Bumped(old(contents), run, data.Length)
    {
      bytes := data[tail..tail + run];
      UnrollTake(data[..], tail, count, run);
      var _, _ := BumpTail(run);
    }

    /** The byte at an offset from the tail. */
    lemma ByteAt(offset: nat)
      requires Valid() && offset < count
      ensures contents[offset] == data[Wrap(data.Length, tail + offset)]
    {
    }

    /** The cursor one byte on, `rbuf_ptr_inc`. */
    lemma NextPosition(offset: nat)
      requires Valid() && offset < count
      ensures var p := Wrap(data.Length, tail + offset);
        (if p + 1 >= data.Length then 0 else p + 1) == Wrap(data.Length, tail + offset + 1)
      ensures Wrap(data.Length, tail + offset + 1) == head <==> offset + 1 == count
    {
    }

    /** Compares the bytes from offset `k` on; `at` is the array index of that offset. */
    method Memcmp(ghost k: nat, at: nat, needle: string) returns (equal: bool)
      requires Valid() && needle != []
      requires k < count || k == count == 0
      requires at == Wrap(data.Length, tail + k)
      ensures equal <==> Agrees(contents[k..], needle)
    {
      var p, j := at, 0;
      if p == head && count != 0 {
        ByteAt(k);
        NextPosition(k);
        if data[p] != needle[0] {
          assert contents[k..][0] != needle[0];
          return false;
        }
        p := if p + 1 >= data.Length then 0 else p + 1;
        j := 1;
      }
      while p != head && j != |needle|
        invariant k + j <= count && j <= |needle|
        invariant p == Wrap(data.Length, tail + k + j)
        invariant p == head && j != |needle| ==> k + j == count
        invariant forall i | 0 <= i < j :: contents[k..][i] == needle[i]
        decreases |needle| - j
      {
        ByteAt(k + j);
        NextPosition(k + j);
        if data[p] != needle[j] {
          assert contents[k..][j] != needle[j];
          return false;
        }
        p := if p + 1 >= data.Length then 0 else p + 1;
        j := j + 1;
      }
      return true;
    }

    method MemcmpN(needle: string) returns (equal: bool)
      requires Valid() && needle != []
      ensures equal <==> Agrees(contents, needle)
    {
      equal := Memcmp(0, tail, needle);
      assert contents[0..] == contents;
    }

    method FindBytes(needle: string) returns (found: bool, idx: nat)
      requires Valid() && needle != []
      ensures idx == Find(contents, needle)
      ensures found <==> idx < |contents|
    {
      var p := tail;
      idx := 0;
      if count == 0 {
        return false, 0;
      }
      ghost var hay := contents;
      if head == tail && count != 0 {
        var equal := Memcmp(0, p, needle);
        if equal {
          AbsentFinds(hay, needle, 0);
          return true, 0;
        }
        AbsentNext(hay, needle, 0);
        p := if p + 1 >= data.Length then 0 else p + 1;
        idx := 1;
      }
      while p != head
        invariant idx <= count
        invariant p == Wrap(data.Length, tail + idx)
        invariant idx == 0 ==> count < data.Length
        invariant Absent(hay, needle, idx)
        decreases count - idx
      {
        var equal := Memcmp(idx, p, needle);
        if equal {
          AbsentFinds(hay, needle, idx);
          return true, idx;
        }
        AbsentNext(hay, needle, idx);
        p := if p + 1 >= data.Length then 0 else p + 1;
        idx := idx + 1;
      }
      AbsentFinds(hay, needle, idx);
      return false, idx;
    }
  }
}
