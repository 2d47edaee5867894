/** The file side of `do_ftruncate`: setting the length, then, when a pad byte
    was given, writing it from the base size up to the new length in chunks of
    at most one block. */
module ResizeEngine {
  import opened LongInt
  import opened Results
  import opened SizeParser
  import opened ResizeCalc

  function Zeros(n: nat): (r: seq<bv8>)
    ensures |r| == n && forall i :: 0 <= i < n ==> r[i] == 0
  {
    seq(n, _ => 0)
  }

  function Repeat(c: bv8, n: nat): (r: seq<bv8>)
    ensures |r| == n && forall i :: 0 <= i < n ==> r[i] == c
  {
    seq(n, _ => c)
  }

  /** The contents after `ftruncate` to n bytes: cut, or extended by a hole that
      reads as zero bytes. */
  function Resized(data: seq<bv8>, n: nat): (r: seq<bv8>)
    ensures |r| == n
    ensures forall i :: 0 <= i < n ==> r[i] == if i < |data| then data[i] else 0
  {
    if n <= |data| then data[..n] else data + Zeros(n - |data|)
  }

  /** The contents after writing `bytes` at offset `off`; a gap between the old
      end and `off` reads as zero bytes, and writing nothing changes nothing. */
  function Overwrite(data: seq<bv8>, off: nat, bytes: seq<bv8>): (r: seq<bv8>)
    ensures |r| == if bytes == [] then |data| else Max(|data|, off + |bytes|)
  {
    if bytes == [] then data
    else
      var front := if off <= |data| then data[..off] else data + Zeros(off - |data|);
      var back := if off + |bytes| < |data| then data[off + |bytes|..] else [];
      front + bytes + back
  }

  /** Byte i after a write: the written byte inside the written range, the old
      byte elsewhere, zero in a gap. */
  lemma OverwriteAt(data: seq<bv8>, off: nat, bytes: seq<bv8>, i: nat)
    requires i < |Overwrite(data, off, bytes)|
    ensures Overwrite(data, off, bytes)[i] ==
              if off <= i < off + |bytes| then bytes[i - off] else if i < |data| then data[i] else 0
  {
    if bytes != [] {
      var front := if off <= |data| then data[..off] else data + Zeros(off - |data|);
      var back := if off + |bytes| < |data| then data[off + |bytes|..] else [];
      assert Overwrite(data, off, bytes) == front + bytes + back;
      if i < off {
        assert (front + bytes + back)[i] == front[i];
      } else if i < off + |bytes| {
        assert (front + bytes + back)[i] == bytes[i - off];
      } else {
        assert (front + bytes + back)[i] == back[i - off - |bytes|];
      }
    }
  }

  /** Two writes back to back are one write of both byte strings. */
  lemma OverwriteCompose(data: seq<bv8>, off: nat, a: seq<bv8>, b: seq<bv8>)
    ensures Overwrite(Overwrite(data, off, a), off + |a|, b) == Overwrite(data, off, a + b)
  {
    if a == [] {
      assert a + b == b;
    } else if b == [] {
      assert a + b == a;
    } else {
      var mid := Overwrite(data, off, a);
      var lhs := Overwrite(mid, off + |a|, b);
      var rhs := Overwrite(data, off, a + b);
      assert |lhs| == |rhs|;
      forall i | 0 <= i < |lhs|
        ensures lhs[i] == rhs[i]
      {
        OverwriteAt(mid, off + |a|, b, i);
        OverwriteAt(data, off, a + b, i);
        if i < |mid| {
          OverwriteAt(data, off, a, i);
        }
      }
    }
  }

  /** What `write` returns for a request of n bytes, given the answers the
      device has in store: the first answer, a negative one meaning failure
      (-1) and a smaller one a short write; none left means a complete write. */
  function Reply(replies: seq<int>, n: nat): (act: int)
    ensures -1 <= act <= n
    ensures replies == [] ==> act == n
  {
    if replies == [] then n
    else if replies[0] < 0 then -1
    else Min(replies[0], n)
  }

  function Rest(replies: seq<int>): seq<int>
  {
    if replies == [] then [] else replies[1..]
  }

  /** The number of bytes a `write` that returned act has written. */
  function Written(act: int): nat
  {
    if act < 0 then 0 else act
  }

  /** An open descriptor of a file: its contents, its offset, its block size
      (st_blksize), whether `ftruncate` succeeds on it, and the answers its
      device will give to the coming `write` calls. */
  class OpenFile {
    var content: seq<bv8>
    var offset: nat
    const blockSize: int
    const resizable: bool
    var replies: seq<int>

    constructor (content: seq<bv8>, blockSize: int, resizable: bool, replies: seq<int>)
      ensures this.content == content && this.offset == 0 && this.blockSize == blockSize
      ensures this.resizable == resizable && this.replies == replies
    {
      this.content := content;
      this.offset := 0;
      this.blockSize := blockSize;
      this.resizable := resizable;
      this.replies := replies;
    }

    /** `ftruncate(fd, n)`. */
    method SetLength(n: nat) returns (ok: bool)
      modifies this
      ensures ok == resizable
      ensures content == if ok then Resized(old(content), n) else old(content)
      ensures offset == old(offset) && replies == old(replies)
    {
      ok := resizable;
      if ok {
        content := Resized(content, n);
      }
    }

    /** `lseek(fd, pos, SEEK_SET)`, which succeeds for any non-negative offset. */
    method Seek(pos: nat) returns (r: int)
      modifies this
      ensures r == pos && offset == pos
      ensures content == old(content) && replies == old(replies)
    {
      offset := pos;
      r := pos;
    }

    /** `write(fd, buf, n)`: the device writes some prefix of the n bytes at the
        offset, or fails. */
    method Write(buf: array<bv8>, n: nat) returns (act: int)
      requires n <= buf.Length
      modifies this
      ensures act == Reply(old(replies), n)
      ensures content == Overwrite(old(content), old(offset), buf[..Written(act)])
      ensures offset == old(offset) + Written(act)
      ensures replies == Rest(old(replies))
    {
      act := Reply(replies, n);
      content := Overwrite(content, offset, buf[..Written(act)]);
      offset := offset + Written(act);
      replies := Rest(replies);
    }
  }

  /** The course of the pad loop of lines 229-245 apart from the bytes it
      writes: the byte counts it requests of `write`, how many bytes the device
      took, and whether every write was complete. */
  datatype Trace = Trace(requests: seq<nat>, written: nat, ok: bool, replies: seq<int>)

  /** While bytes are left, request min(left, bs) of them; a failed or short
      write ends the loop with failure. The bytes written never exceed the
      count, and the run succeeds exactly when it wrote all of them. */
  function PadTrace(replies: seq<int>, left: int, bs: int): (t: Trace)
    requires bs > 0
    ensures t.written <= Max(left, 0)
    ensures t.ok <==> t.written == Max(left, 0)
    decreases if left > 0 then left else 0
  {
    if left <= 0 then Trace([], 0, true, replies)
    else
      var req: nat := if left > bs then bs else left;
      var act := Reply(replies, req);
      if act < req then Trace([req], Written(act), false, Rest(replies))
      else
        var rest := PadTrace(Rest(replies), left - bs, bs);
        Trace([req] + rest.requests, req + rest.written, rest.ok, rest.replies)
  }

  /** The bytes of `content` from `offset` on overwritten by w copies of c. */
  function Filled(content: seq<bv8>, offset: nat, c: bv8, w: nat): seq<bv8>
  {
    Overwrite(content, offset, Repeat(c, w))
  }

  /** Filling w bytes and then a more is filling w + a bytes. */
  lemma FillMore(content: seq<bv8>, offset: nat, c: bv8, w: nat, a: nat)
    ensures Filled(Filled(content, offset, c, w), offset + w, c, a) == Filled(content, offset, c, w + a)
  {
    OverwriteCompose(content, offset, Repeat(c, w), Repeat(c, a));
    assert Repeat(c, w) + Repeat(c, a) == Repeat(c, w + a);
  }

  /** The rest of the loop, run after the writes so far took w bytes, ends as
      the whole run `t0` does. */
  ghost predicate Continues(rest: Trace, w: nat, t0: Trace)
  {
    w + rest.written == t0.written && rest.ok == t0.ok && rest.replies == t0.replies
  }

  /** One turn of the pad loop: after the write of min(left, bs) bytes, a short
      or failed write ends the run, a complete one leaves the rest of the run
      to the bytes still left. */
  lemma PadTurn(t0: Trace, bs: int, left: int, w: nat, replies: seq<int>, act: int)
    requires bs > 0 && left > 0
    requires Continues(PadTrace(replies, left, bs), w, t0)
    requires act == Reply(replies, if left > bs then bs else left)
    ensures var req: nat := if left > bs then bs else left;
            (act < req ==> !t0.ok && w + Written(act) == t0.written && Rest(replies) == t0.replies) &&
            (act >= req ==> Continues(PadTrace(Rest(replies), left - bs, bs), w + req, t0))
  {
  }

  /** The pad loop's invariant, for a run from `content0` at `offset0` whose
      whole trace is `t0`: the bytes taken so far are pad bytes from `offset0`
      on, and the rest of the run completes `t0`. */
  ghost predicate PadInv(content0: seq<bv8>, offset0: nat, c: bv8, t0: Trace, bs: int, left: int,
                         content: seq<bv8>, offset: nat, replies: seq<int>)
    requires bs > 0
  {
    FilledFrom(content0, offset0, c, content, offset) && Continues(PadTrace(replies, left, bs), offset - offset0, t0)
  }

  /** The bytes from `offset0` up to `offset` of `content0` are pad bytes. */
  ghost predicate FilledFrom(content0: seq<bv8>, offset0: nat, c: bv8, content: seq<bv8>, offset: nat)
  {
    offset0 <= offset && content == Filled(content0, offset0, c, offset - offset0)
  }

  /** The pad loop as the source runs it, over a block-sized buffer filled
      with c: the device's answers decide the trace, and the bytes it took are
      pad bytes written contiguously from the starting offset. */
  method WritePad(f: OpenFile, blk: array<bv8>, c: bv8, count: int) returns (ok: bool)
    requires f.blockSize > 0 && blk.Length == f.blockSize
    requires forall i :: 0 <= i < blk.Length ==> blk[i] == c
    modifies f
    ensures var t := PadTrace(old(f.replies), count, f.blockSize);
            ok == t.ok && f.content == Filled(old(f.content), old(f.offset), c, t.written) &&
            f.offset == old(f.offset) + t.written && f.replies == t.replies
  {
    ghost var (content0, offset0) := (f.content, f.offset);
    ghost var t0 := PadTrace(f.replies, count, f.blockSize);
    assert Repeat(c, 0) == [];
    ok := true;
    var left := count;
    while left > 0
      invariant PadInv(content0, offset0, c, t0, f.blockSize, left, f.content, f.offset, f.replies)
      invariant ok
      decreases left
    {
      var rem: nat := if left > f.blockSize then f.blockSize else left;
      var act := PadWrite(f, blk, c, left, content0, offset0, t0);
      if act < rem {
        ok := false;
        break;
      }
      left := left - f.blockSize;
    }
  }

  /** One turn of the pad loop: the write of min(left, bs) bytes of the
      buffer; a short or failed one ends the run, a complete one keeps the
      invariant for the bytes still left. */
  method PadWrite(f: OpenFile, blk: array<bv8>, c: bv8, left: int, ghost content0: seq<bv8>, ghost offset0: nat,
                  ghost t0: Trace) returns (act: int)
    requires f.blockSize > 0 && blk.Length == f.blockSize && left > 0
    requires forall i :: 0 <= i < blk.Length ==> blk[i] == c
    requires PadInv(content0, offset0, c, t0, f.blockSize, left, f.content, f.offset, f.replies)
    modifies f
    ensures act < (if left > f.blockSize then f.blockSize else left) ==>
              !t0.ok && f.content == Filled(content0, offset0, c, t0.written) &&
              f.offset == offset0 + t0.written && f.replies == t0.replies
    ensures act >= (if left > f.blockSize then f.blockSize else left) ==>
              PadInv(content0, offset0, c, t0, f.blockSize, left - f.blockSize, f.content, f.offset, f.replies)
  {
    var rem: nat := if left > f.blockSize then f.blockSize else left;
    ghost var (content, offset, replies) := (f.content, f.offset, f.replies);
    act := f.Write(blk, rem);
    FilledPrefix(blk, c, Written(act));
    assert f.content == Filled(content, offset, c, Written(act));
    PadInvTurn(content0, offset0, c, t0, f.blockSize, left, content, offset, replies, act, f.content, f.offset, f.replies);
  }

  /** The invariant across one turn, from the state before the write and the
      state the write left. */
  lemma PadInvTurn(content0: seq<bv8>, offset0: nat, c: bv8, t0: Trace, bs: int, left: int,
                   content: seq<bv8>, offset: nat, replies: seq<int>,
                   act: int, content': seq<bv8>, offset': nat, replies': seq<int>)
    requires bs > 0 && left > 0
    requires PadInv(content0, offset0, c, t0, bs, left, content, offset, replies)
    requires act == Reply(replies, if left > bs then bs else left)
    requires content' == Filled(content, offset, c, Written(act))
    requires offset' == offset + Written(act) && replies' == Rest(replies)
    ensures FilledFrom(content0, offset0, c, content', offset')
    ensures act < (if left > bs then bs else left) ==>
              !t0.ok && offset' == offset0 + t0.written && replies' == t0.replies
    ensures act >= (if left > bs then bs else left) ==>
              PadInv(content0, offset0, c, t0, bs, left - bs, content', offset', replies')
  {
    FillMore(content0, offset0, c, offset - offset0, Written(act));
    PadTurn(t0, bs, left, offset - offset0, replies, act);
  }

  lemma FilledPrefix(blk: array<bv8>, c: bv8, w: nat)
    requires w <= blk.Length && forall i :: 0 <= i < blk.Length ==> blk[i] == c
    ensures blk[..w] == Repeat(c, w)
  {
  }

  /** The sum of a list of byte counts. */
  function Sum(counts: seq<nat>): nat
  {
    if counts == [] then 0 else counts[0] + Sum(counts[1..])
  }

  /** The chunks the loop asks for: none when nothing is to be written; every
      chunk but the last a whole block; the last between 1 and a block. */
  lemma {:induction false} PadChunks(replies: seq<int>, left: int, bs: int)
    requires bs > 0
    ensures var r := PadTrace(replies, left, bs).requests;
            (r == [] <==> left <= 0) &&
            (forall k :: 0 <= k < |r| - 1 ==> r[k] == bs) &&
            (r != [] ==> 1 <= r[|r| - 1] <= bs)
  {
    PadLastChunk(replies, left, bs);
    PadWholeBlocks(replies, left, bs);
  }

  lemma {:induction false} PadLastChunk(replies: seq<int>, left: int, bs: int)
    requires bs > 0
    ensures var r := PadTrace(replies, left, bs).requests;
            (r == [] <==> left <= 0) && (r != [] ==> 1 <= r[|r| - 1] <= bs)
    decreases if left > 0 then left else 0
  {
    if left > 0 {
      var req: nat := if left > bs then bs else left;
      if Reply(replies, req) >= req {
        var rest := PadTrace(Rest(replies), left - bs, bs).requests;
        PadLastChunk(Rest(replies), left - bs, bs);
        if rest != [] {
          assert ([req] + rest)[|rest|] == rest[|rest| - 1];
        }
      }
    }
  }

  lemma {:induction false} PadWholeBlocks(replies: seq<int>, left: int, bs: int)
    requires bs > 0
    ensures var r := PadTrace(replies, left, bs).requests;
            forall k :: 0 <= k < |r| - 1 ==> r[k] == bs
    decreases if left > 0 then left else 0
  {
    if left > 0 {
      var req: nat := if left > bs then bs else left;
      if Reply(replies, req) >= req {
        var rest := PadTrace(Rest(replies), left - bs, bs).requests;
        PadWholeBlocks(Rest(replies), left - bs, bs);
        PadLastChunk(Rest(replies), left - bs, bs);
        var r := [req] + rest;
        if rest != [] {
          assert left > bs;
          forall k | 1 <= k < |r| - 1
            ensures r[k] == bs
          {
            assert r[k] == rest[k - 1];
          }
        }
      }
    }
  }

  /** The chunks add up to the whole count asked for on success, and to no
      more than it otherwise. */
  lemma {:induction false} PadRequestedTotal(replies: seq<int>, left: int, bs: int)
    requires bs > 0
    ensures var t := PadTrace(replies, left, bs);
            Sum(t.requests) <= Max(left, 0) && (t.ok ==> Sum(t.requests) == Max(left, 0))
    decreases if left > 0 then left else 0
  {
    if left > 0 {
      var req: nat := if left > bs then bs else left;
      if Reply(replies, req) >= req {
        var rest := PadTrace(Rest(replies), left - bs, bs).requests;
        PadRequestedTotal(Rest(replies), left - bs, bs);
        assert ([req] + rest)[1..] == rest;
      } else {
        assert [req][1..] == [];
      }
    }
  }

  /** Whether the device, answering from `replies`, takes each of the writes
      `counts` whole. */
  predicate AllComplete(replies: seq<int>, counts: seq<nat>)
    decreases |counts|
  {
    counts == [] || (Reply(replies, counts[0]) == counts[0] && AllComplete(Rest(replies), counts[1..]))
  }

  /** The loop stops at the first incomplete write: all writes before the last
      were taken whole, and the run succeeded exactly when all of them were. */
  lemma {:induction false} PadStopsAtShortWrite(replies: seq<int>, left: int, bs: int)
    requires bs > 0
    ensures var t := PadTrace(replies, left, bs);
            (t.ok <==> AllComplete(replies, t.requests)) &&
            (t.requests != [] ==> AllComplete(replies, t.requests[..|t.requests| - 1]))
  {
    PadOkIffComplete(replies, left, bs);
    PadPrefixComplete(replies, left, bs);
  }

  lemma {:induction false} PadOkIffComplete(replies: seq<int>, left: int, bs: int)
    requires bs > 0
    ensures PadTrace(replies, left, bs).ok <==> AllComplete(replies, PadTrace(replies, left, bs).requests)
    decreases if left > 0 then left else 0
  {
    if left > 0 {
      var req: nat := if left > bs then bs else left;
      var t := PadTrace(replies, left, bs);
      if Reply(replies, req) >= req {
        var rest := PadTrace(Rest(replies), left - bs, bs);
        PadOkIffComplete(Rest(replies), left - bs, bs);
        assert t.requests[0] == req && t.requests[1..] == rest.requests;
      } else {
        assert t.requests == [req];
      }
    }
  }

  lemma {:induction false} PadPrefixComplete(replies: seq<int>, left: int, bs: int)
    requires bs > 0
    ensures var t := PadTrace(replies, left, bs);
            t.requests != [] ==> AllComplete(replies, t.requests[..|t.requests| - 1])
    decreases if left > 0 then left else 0
  {
    if left > 0 {
      var req: nat := if left > bs then bs else left;
      var t := PadTrace(replies, left, bs);
      if Reply(replies, req) >= req {
        var rest := PadTrace(Rest(replies), left - bs, bs);
        PadPrefixComplete(Rest(replies), left - bs, bs);
        assert t.requests == [req] + rest.requests;
        if rest.requests != [] {
          assert t.requests[..|t.requests| - 1] == [req] + rest.requests[..|rest.requests| - 1];
        } else {
          assert t.requests[..|t.requests| - 1] == [];
        }
      } else {
        assert t.requests[..|t.requests| - 1] == [];
      }
    }
  }

  /** A device that takes every write whole: the loop succeeds. */
  lemma {:induction false} PadCompleteWhenDeviceAccepts(left: int, bs: int)
    requires bs > 0
    ensures PadTrace([], left, bs).ok
    decreases if left > 0 then left else 0
  {
    if left > 0 {
      PadCompleteWhenDeviceAccepts(left - bs, bs);
    }
  }

  /** Padding an n-byte file from offset b <= n to its end keeps the first b
      bytes and ends in n - b pad bytes, whatever the file held between b and n
      before. */
  lemma PaddedResult(data: seq<bv8>, b: nat, n: nat, c: bv8)
    requires b <= n
    ensures Overwrite(Resized(data, n), b, Repeat(c, n - b)) == Resized(data, b) + Repeat(c, n - b)
  {
    var lhs := Overwrite(Resized(data, n), b, Repeat(c, n - b));
    var rhs := Resized(data, b) + Repeat(c, n - b);
    assert |lhs| == |rhs|;
    forall i | 0 <= i < |lhs|
      ensures lhs[i] == rhs[i]
    {
      OverwriteAt(Resized(data, n), b, Repeat(c, n - b), i);
    }
  }

  /** What the pad loop leaves in an n-byte file padded from b: nothing
      changes and nothing is requested when n <= b; after a successful run the
      file is its first b bytes followed by n - b pad bytes. */
  lemma PadOutcome(data: seq<bv8>, b: nat, n: nat, c: bv8, replies: seq<int>, bs: int)
    requires bs > 0
    ensures var run := PadTrace(replies, n - b, bs);
            (n <= b ==> run.requests == [] && run.ok && Filled(Resized(data, n), b, c, run.written) == Resized(data, n)) &&
            (b <= n && run.ok ==> Filled(Resized(data, n), b, c, run.written) == Resized(data, b) + Repeat(c, n - b))
  {
    var run := PadTrace(replies, n - b, bs);
    if n <= b {
      assert Repeat(c, 0) == [];
    } else {
      PaddedResult(data, b, n, c);
    }
    if b == n && run.ok {
      PaddedResult(data, b, n, c);
    }
  }

  /** Padding an empty file to 100 bytes of 'A' (0x41) gives 100 bytes of 'A'. */
  lemma PadExample()
    ensures var run := PadTrace([], 100, 4096);
            run.ok && Filled(Resized([], 100), 0, 0x41, run.written) == Repeat(0x41, 100)
  {
    PadCompleteWhenDeviceAccepts(100, 4096);
    PadOutcome([], 0, 100, 0x41, [], 4096);
    assert Resized([], 0) == [];
  }

  /** `do_ftruncate` (lines 102-250), with the current size and the block size
      read from the file as if `fstat` always succeeded. */
  method DoFtruncate(f: OpenFile, ssize: int, rsize: int, mode: RelMode, pad: Option<bv8>, blockMode: bool)
    returns (ok: bool)
    requires InLong(ssize) && InLong(rsize) && |f.content| <= LONG_MAX && 0 < f.blockSize <= LONG_MAX
    requires mode.IsRounding() ==> ssize > 0
    modifies f
    ensures var t := Resolve(ssize, rsize, mode, pad.Some?, blockMode, |old(f.content)|, f.blockSize);
            (t.Err? || !f.resizable ==>
               !ok && f.content == old(f.content) && f.offset == old(f.offset) && f.replies == old(f.replies)) &&
            (t.Ok? && f.resizable && pad.None? ==>
               ok && f.content == Resized(old(f.content), t.value.size) &&
               f.offset == old(f.offset) && f.replies == old(f.replies)) &&
            (t.Ok? && f.resizable && pad.Some? ==>
               var b := t.value.base.value;
               var run := PadTrace(old(f.replies), t.value.size - b, f.blockSize);
               ok == run.ok && f.content == Filled(Resized(old(f.content), t.value.size), b, pad.value, run.written) &&
               f.offset == b + run.written && f.replies == run.replies)
  {
    var t := Resolve(ssize, rsize, mode, pad.Some?, blockMode, |f.content|, f.blockSize);
    if t.Err? {
      return false;
    }
    ok := ResizeAndPad(f, t.value, pad);
  }

  /** Lines 194-247 once the target is known: `ftruncate` to its size and,
      with a pad byte, fill from its base size up to the new end. */
  method ResizeAndPad(f: OpenFile, target: Target, pad: Option<bv8>) returns (ok: bool)
    requires target.size >= 0 && f.blockSize > 0
    requires pad.Some? ==> target.base.Some? && target.base.value >= 0
    modifies f
    ensures !f.resizable ==>
              !ok && f.content == old(f.content) && f.offset == old(f.offset) && f.replies == old(f.replies)
    ensures f.resizable && pad.None? ==>
              ok && f.content == Resized(old(f.content), target.size) &&
              f.offset == old(f.offset) && f.replies == old(f.replies)
    ensures f.resizable && pad.Some? ==>
              var b := target.base.value;
              var run := PadTrace(old(f.replies), target.size - b, f.blockSize);
              ok == run.ok && f.content == Filled(Resized(old(f.content), target.size), b, pad.value, run.written) &&
              f.offset == b + run.written && f.replies == run.replies
  {
    ok := f.SetLength(target.size);
    if !ok {
      return;
    }
    if pad.Some? {
      ok := PadFrom(f, target.base.value, target.size, pad.value);
    }
  }

  /** Lines 206-245: seek to the base size and fill up to the target size
      with blocks of c. */
  method PadFrom(f: OpenFile, fsize: nat, size: int, c: bv8) returns (ok: bool)
    requires f.blockSize > 0
    modifies f
    ensures var run := PadTrace(old(f.replies), size - fsize, f.blockSize);
            ok == run.ok && f.content == Filled(old(f.content), fsize, c, run.written) &&
            f.offset == fsize + run.written && f.replies == run.replies
  {
    var pos := f.Seek(fsize);
    var blk := new bv8[f.blockSize](_ => c);
    ok := WritePad(f, blk, c, size - fsize);
  }

  /** Whether line 109 calls `fstat`: in block mode, or for a relative size
      with no reference size. */
  predicate FstatCalled(blockMode: bool, mode: RelMode, rsize: int)
    ensures blockMode ==> FstatCalled(blockMode, mode, rsize)
    ensures !blockMode && mode == Absolute ==> !FstatCalled(blockMode, mode, rsize)
    ensures !blockMode && rsize >= 0 ==> !FstatCalled(blockMode, mode, rsize)
    ensures !blockMode && mode != Absolute && rsize < 0 ==> FstatCalled(blockMode, mode, rsize)
  {
    blockMode || (mode != Absolute && rsize < 0)
  }

  /** Whether `sb` is read: its block size in block mode (line 117), its type
      and size when the base size is the current size (line 135), its block
      size when padding (lines 221-229). */
  predicate StatRead(blockMode: bool, mode: RelMode, rsize: int, padding: bool)
    ensures padding ==> StatRead(blockMode, mode, rsize, padding)
    ensures !padding ==> (StatRead(blockMode, mode, rsize, padding) <==> FstatCalled(blockMode, mode, rsize))
  {
    blockMode || ((mode != Absolute || padding) && rsize < 0) || padding
  }

  /** Padding with a reference size, or padding to an absolute size, reads
      `sb` although `fstat` was never called. */
  lemma StatReadWithoutFstat()
    ensures StatRead(false, Relative, 0, true) && !FstatCalled(false, Relative, 0)
    ensures StatRead(false, Absolute, -1, true) && !FstatCalled(false, Absolute, -1)
  {
  }

  /** When `fstat` is evidently needed: also whenever a pad byte was given. */
  predicate FstatNeeded(blockMode: bool, mode: RelMode, rsize: int, padding: bool)
    ensures FstatCalled(blockMode, mode, rsize) ==> FstatNeeded(blockMode, mode, rsize, padding)
    ensures padding ==> FstatNeeded(blockMode, mode, rsize, padding)
    ensures !padding ==> (FstatNeeded(blockMode, mode, rsize, padding) <==> FstatCalled(blockMode, mode, rsize))
  {
    FstatCalled(blockMode, mode, rsize) || padding
  }

  /** With that condition every read of `sb` follows a call of `fstat`, and
      `fstat` is called only when `sb` is read. */
  lemma FstatNeededCoversReads(blockMode: bool, mode: RelMode, rsize: int, padding: bool)
    ensures StatRead(blockMode, mode, rsize, padding) <==> FstatNeeded(blockMode, mode, rsize, padding)
  {
  }
}
