/** Bytes on the session stream and newline framing: the stream is a sequence of
    records, each terminated by one newline byte. */
module Wire {

  type byte = b: int | 0 <= b < 256

  /** The record terminator, `\n`. */
  const NL: byte := 10

  /** Position of the first occurrence of `b` in `s` (what `bytes.split(b, 1)` splits at). */
  function IndexOf(s: seq<byte>, b: byte): (k: nat)
    requires b in s
    ensures k < |s| && s[k] == b
    ensures b !in s[..k]
  {
    if s[0] == b then 0 else 1 + IndexOf(s[1..], b)
  }

  /** The complete records of `s`, in stream order, without their terminators. */
  function Lines(s: seq<byte>): (r: seq<seq<byte>>)
    ensures Unterminated(r)
    ensures |r| <= |s|
    decreases |s|
  {
    if NL !in s then []
    else
      var k := IndexOf(s, NL);
      var rest := Lines(s[k + 1..]);
      assert forall i | 0 < i <= |rest| :: ([s[..k]] + rest)[i] == rest[i - 1];
      [s[..k]] + rest
  }

  /** The unterminated bytes after the last newline of `s`. */
  function Tail(s: seq<byte>): (r: seq<byte>)
    ensures NL !in r
    ensures |r| <= |s| && r == s[|s| - |r|..]
    decreases |s|
  {
    if NL !in s then s
    else
      var rest := s[IndexOf(s, NL) + 1..];
      var r := Tail(rest);
      assert rest[|rest| - |r|..] == s[|s| - |r|..];
      r
  }

  /** The stream that carries `records`, each followed by its terminator. */
  function Frame(records: seq<seq<byte>>): seq<byte>
  {
    if records == [] then [] else records[0] + [NL] + Frame(records[1..])
  }

  /** The received chunks joined in arrival order. */
  function Concat(chunks: seq<seq<byte>>): seq<byte>
    decreases |chunks|
  {
    if chunks == [] then [] else Concat(chunks[..|chunks| - 1]) + chunks[|chunks| - 1]
  }

  /** No record contains the terminator. */
  predicate Unterminated(records: seq<seq<byte>>)
  {
    forall i | 0 <= i < |records| :: NL !in records[i]
  }

  /** Splitting loses and duplicates nothing: the records, re-terminated, followed by
      the tail give back the stream; no record and not the tail holds a newline. */
  lemma {:induction false} SplitIsLossless(s: seq<byte>)
    ensures Frame(Lines(s)) + Tail(s) == s
    ensures Unterminated(Lines(s))
    ensures NL !in Tail(s)
    decreases |s|
  {
    if NL in s {
      var k := IndexOf(s, NL);
      var line, rest := s[..k], s[k + 1..];
      SplitIsLossless(rest);
      SplitAround(s, k);
      SplitAtFirst(line, rest);
      FrameFirst(Lines(s), Tail(rest));
    }
  }

  lemma SplitAround(s: seq<byte>, k: nat)
    requires k < |s|
    ensures s == s[..k] + [s[k]] + s[k + 1..]
  {
  }

  lemma {:induction false} FrameAppend(records: seq<seq<byte>>, r: seq<byte>)
    ensures Frame(records + [r]) == Frame(records) + r + [NL]
  {
    if records != [] {
      assert (records + [r])[1..] == records[1..] + [r];
      FrameAppend(records[1..], r);
    }
  }

  /** Framing is the only way to split: a stream made of newline-free records
      followed by any bytes splits into exactly those records, then the split of the
      remaining bytes. */
  lemma {:induction false} SplitOfFramed(records: seq<seq<byte>>, rest: seq<byte>)
    requires Unterminated(records)
    ensures Lines(Frame(records) + rest) == records + Lines(rest)
    ensures Tail(Frame(records) + rest) == Tail(rest)
  {
    if records != [] {
      var r, more := records[0], records[1..];
      assert Unterminated(more) by {
        forall i | 0 <= i < |more| ensures NL !in more[i] {
          assert more[i] == records[i + 1];
        }
      }
      SplitOfFramed(more, rest);
      var after := Frame(more) + rest;
      assert Frame(records) + rest == r + [NL] + after by {
        FrameFirst(records, rest);
      }
      assert Lines(r + [NL] + after) == [r] + Lines(after) && Tail(r + [NL] + after) == Tail(after) by {
        assert NL !in records[0];
        SplitAtFirst(r, after);
      }
      assert [r] + (more + Lines(rest)) == records + Lines(rest) by {
        ConsAppend(records, Lines(rest));
      }
    } else {
      assert Frame(records) + rest == rest;
    }
  }

  lemma Regroup<T>(x: seq<T>, y: seq<T>, z: seq<T>)
    ensures x + y + z == x + (y + z)
  {
  }

  lemma FrameFirst(records: seq<seq<byte>>, rest: seq<byte>)
    requires records != []
    ensures Frame(records) + rest == records[0] + [NL] + (Frame(records[1..]) + rest)
  {
  }

  lemma ConsAppend<T>(xs: seq<T>, ys: seq<T>)
    requires xs != []
    ensures [xs[0]] + (xs[1..] + ys) == xs + ys
  {
  }

  /** One newline-free record, its terminator, then anything: the first record is `x`. */
  lemma SplitAtFirst(x: seq<byte>, y: seq<byte>)
    requires NL !in x
    ensures Lines(x + [NL] + y) == [x] + Lines(y)
    ensures Tail(x + [NL] + y) == Tail(y)
  {
    var s := x + [NL] + y;
    FirstIndexAfter(x, y, NL);
    assert s[..|x|] == x && s[|x| + 1..] == y;
  }

  /** The first `b` in `x + [b] + y`, when `x` holds no `b`, is right after `x`. */
  lemma FirstIndexAfter(x: seq<byte>, y: seq<byte>, b: byte)
    requires b !in x
    ensures b in x + [b] + y && IndexOf(x + [b] + y, b) == |x|
  {
    assert (x + [b] + y)[|x|] == b;
  }

  /** A tail with no newline is the whole buffer kept, and yields no record. */
  lemma SplitOfUnterminated(s: seq<byte>)
    requires NL !in s
    ensures Lines(s) == [] && Tail(s) == s
  {
  }

  /** Where a stream is cut into chunks does not matter: splitting `a` and then the
      kept tail of `a` followed by `b` yields the records and the tail of `a + b`. */
  lemma ChunkingIsIrrelevant(a: seq<byte>, b: seq<byte>)
    ensures Lines(a) + Lines(Tail(a) + b) == Lines(a + b)
    ensures Tail(Tail(a) + b) == Tail(a + b)
  {
    var records, tail := Lines(a), Tail(a);
    assert a + b == Frame(records) + (tail + b) by {
      SplitIsLossless(a);
      Regroup(Frame(records), tail, b);
    }
    SplitOfFramed(records, tail + b);
  }
}
