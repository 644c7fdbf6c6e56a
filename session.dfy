/** One reading session on the device: the reads a process issues between an
    open and its close, each advancing the file offset the kernel keeps for
    that open file. */
module SpgSession {
  import opened Spg

  /** One read request: the byte count asked for and whether the copy to
      user memory succeeds. */
  datatype Request = Request(len: nat, copyOk: bool)

  /** What a session has produced so far: the current offset, the bytes
      delivered to user memory in order, and each read's return value. */
  datatype Session = Session(offset: nat, delivered: string, results: seq<int>)

  /** The session obtained by issuing `reqs` in order from `offset`. */
  function Run(pw: string, offset: nat, reqs: seq<Request>): (s: Session)
    ensures |s.results| == |reqs|
    decreases |reqs|
  {
    if reqs == [] then Session(offset, [], [])
    else
      var r := ReadStep(pw, offset, reqs[0].len, reqs[0].copyOk);
      var rest := Run(pw, r.offset, reqs[1..]);
      Session(rest.offset, r.data + rest.delivered, [r.result] + rest.results)
  }

  /** Sum of the requested byte counts. */
  function Requested(reqs: seq<Request>): (n: nat)
    ensures reqs != [] ==> reqs[0].len <= n
  {
    if reqs == [] then 0 else reqs[0].len + Requested(reqs[1..])
  }

  /** Sum of the non-negative return values, i.e. the byte counts that
      successful reads report. */
  function Reported(results: seq<int>): (n: nat)
    ensures results != [] && results[0] >= 0 ==> results[0] <= n
  {
    if results == [] then 0
    else (if results[0] >= 0 then results[0] else 0) + Reported(results[1..])
  }

  /** Every read asks for at least one byte and its copy succeeds. */
  predicate AllSucceed(reqs: seq<Request>)
  {
    forall i :: 0 <= i < |reqs| ==> reqs[i].len > 0 && reqs[i].copyOk
  }

  /** Whatever the requests and their copy outcomes, the offset only moves
      forward, never past the end of the text, and the bytes delivered are
      exactly the text between the starting and the final offset. */
  lemma {:induction false} RunDeliversSlice(pw: string, offset: nat, reqs: seq<Request>)
    requires offset <= |pw|
    ensures offset <= Run(pw, offset, reqs).offset <= |pw|
    ensures Run(pw, offset, reqs).delivered == pw[offset..Run(pw, offset, reqs).offset]
    decreases |reqs|
  {
    if reqs != [] {
      var r := ReadStep(pw, offset, reqs[0].len, reqs[0].copyOk);
      RunDeliversSlice(pw, r.offset, reqs[1..]);
      var rest := Run(pw, r.offset, reqs[1..]);
      assert pw[offset..rest.offset] == pw[offset..r.offset] + pw[r.offset..rest.offset];
    }
  }

  /** The results add up to the bytes delivered: every read returns a byte
      count or -EFAULT, the counts sum to the number of bytes delivered, and
      that number is how far the offset moved. */
  lemma {:induction false} RunResultsCount(pw: string, offset: nat, reqs: seq<Request>)
    requires offset <= |pw|
    ensures forall i :: 0 <= i < |reqs| ==> Run(pw, offset, reqs).results[i] >= 0 || Run(pw, offset, reqs).results[i] == -EFAULT
    ensures |Run(pw, offset, reqs).delivered| == Run(pw, offset, reqs).offset - offset
    ensures Reported(Run(pw, offset, reqs).results) == |Run(pw, offset, reqs).delivered|
    decreases |reqs|
  {
    RunDeliversSlice(pw, offset, reqs);
    if reqs != [] {
      var r := ReadStep(pw, offset, reqs[0].len, reqs[0].copyOk);
      RunResultsCount(pw, r.offset, reqs[1..]);
      var s := Run(pw, offset, reqs);
      assert s.results[1..] == Run(pw, r.offset, reqs[1..]).results;
    }
  }

  /** When every read asks for something and every copy succeeds, the offset
      reached is the starting offset plus everything requested, capped at the
      end of the text. */
  lemma {:induction false} RunAllSucceedOffset(pw: string, offset: nat, reqs: seq<Request>)
    requires offset <= |pw|
    requires AllSucceed(reqs)
    ensures Run(pw, offset, reqs).offset == Min(offset + Requested(reqs), |pw|)
    decreases |reqs|
  {
    if reqs != [] {
      var r := ReadStep(pw, offset, reqs[0].len, reqs[0].copyOk);
      assert AllSucceed(reqs[1..]) by {
        forall i | 0 <= i < |reqs[1..]| ensures reqs[1..][i].len > 0 && reqs[1..][i].copyOk {
          assert reqs[1..][i] == reqs[i + 1];
        }
      }
      RunAllSucceedOffset(pw, r.offset, reqs[1..]);
    }
  }

  /** From offset 0, successful reads that together ask for at least the
      whole text deliver exactly the text, and any further read returns 0
      without moving the offset. */
  lemma DrainDeliversPassword(pw: string, reqs: seq<Request>, len: nat, copyOk: bool)
    requires AllSucceed(reqs)
    requires Requested(reqs) >= |pw|
    ensures Run(pw, 0, reqs).offset == |pw|
    ensures Run(pw, 0, reqs).delivered == pw
    ensures ReadStep(pw, Run(pw, 0, reqs).offset, len, copyOk) == ReadOutcome(0, |pw|, [])
  {
    RunAllSucceedOffset(pw, 0, reqs);
    RunDeliversSlice(pw, 0, reqs);
  }

  /** A read whose copy fails leaves the session where it was: the failed
      attempt followed by more reads delivers the same bytes, returns the same
      values and reaches the same offset as those reads alone, so the caller
      can retry at the same offset. (A zero-byte read never faults.) */
  lemma FaultThenRetry(pw: string, offset: nat, len: nat, reqs: seq<Request>)
    requires offset < |pw|
    requires len > 0
    ensures Run(pw, offset, [Request(len, false)] + reqs).results[0] == -EFAULT
    ensures Run(pw, offset, [Request(len, false)] + reqs).offset == Run(pw, offset, reqs).offset
    ensures Run(pw, offset, [Request(len, false)] + reqs).delivered == Run(pw, offset, reqs).delivered
    ensures Run(pw, offset, [Request(len, false)] + reqs).results[1..] == Run(pw, offset, reqs).results
  {
    assert ([Request(len, false)] + reqs)[1..] == reqs;
  }

  /** `k` reads of `c` bytes each, every copy succeeding. */
  function Chunks(c: nat, k: nat): (reqs: seq<Request>)
    ensures |reqs| == k
    ensures forall i :: 0 <= i < k ==> reqs[i] == Request(c, true)
    ensures Requested(reqs) == c * k
  {
    if k == 0 then []
    else
      var reqs := [Request(c, true)] + Chunks(c, k - 1);
      assert reqs[1..] == Chunks(c, k - 1);
      reqs
  }

  /** The counts returned by `k` reads of `c` bytes with `remaining` bytes
      of text left: each read returns `c` or what is left, whichever is
      smaller. */
  function ChunkCounts(remaining: nat, c: nat, k: nat): (counts: seq<int>)
    ensures |counts| == k
  {
    if k == 0 then []
    else [Min(c, remaining)] + ChunkCounts(remaining - Min(c, remaining), c, k - 1)
  }

  /** Successive successful reads of a fixed size return that size until
      less is left, then the rest, then 0 for every further read. */
  lemma {:induction false} ChunkedResults(pw: string, offset: nat, c: nat, k: nat)
    requires offset <= |pw|
    ensures Run(pw, offset, Chunks(c, k)).results == ChunkCounts(|pw| - offset, c, k)
    decreases k
  {
    if k > 0 {
      var reqs := Chunks(c, k);
      assert reqs[0] == Request(c, true);
      assert reqs[1..] == Chunks(c, k - 1);
      var r := ReadStep(pw, offset, c, true);
      assert r.offset == offset + Min(c, |pw| - offset);
      ChunkedResults(pw, r.offset, c, k - 1);
    }
  }

  /** Reading a 16-character password in chunks of 5 returns 5, 5, 5 and 1,
      delivers the whole password, and a fifth read returns 0. */
  lemma ChunksOfFive(pw: string)
    requires |pw| == PasswordLen
    ensures Run(pw, 0, Chunks(5, 5)).results == [5, 5, 5, 1, 0]
    ensures Run(pw, 0, Chunks(5, 5)).delivered == pw
  {
    ChunkedResults(pw, 0, 5, 5);
    assert ChunkCounts(16, 5, 5) == [5, 5, 5, 1, 0];
    DrainDeliversPassword(pw, Chunks(5, 5), 5, true);
  }

  /** Opening the device with draws `rands` and reading 16 bytes returns all
      16 characters, each from the charset; a second read returns 0. */
  lemma OpenThenReadAll(rands: seq<nat>)
    requires |rands| == PasswordLen
    ensures Run(Generated(rands), 0, [Request(16, true), Request(16, true)]).results == [16, 0]
    ensures Run(Generated(rands), 0, [Request(16, true), Request(16, true)]).delivered == Generated(rands)
    ensures forall i :: 0 <= i < PasswordLen ==>
      IsCharsetChar(Run(Generated(rands), 0, [Request(16, true), Request(16, true)]).delivered[i])
  {
    var pw := Generated(rands);
    var reqs := [Request(16, true), Request(16, true)];
    assert reqs[1..] == [Request(16, true)];
    assert reqs[1..][1..] == [];
    assert pw[0..16] == pw;
  }
}
