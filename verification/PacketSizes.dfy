/** How large the packets of an upload are, and how many chunks fit into the status of a session. */
module PacketSizes {
  import opened Wrappers
  import opened Slices
  import opened Bytes
  import opened Text
  import opened Sorting
  import opened Checkpoint
  import opened Disk
  import opened Payloads
  import opened Server
  import PacketCodec

  // Requests.

  lemma {:induction false} FieldsTextSize(fields: seq<Field>)
    ensures |FieldsText(fields)| == FieldSizes(fields)
  {
    if fields != [] {
      FieldsTextSize(fields[1..]);
    }
  }

  function FieldSizes(fields: seq<Field>): nat {
    if fields == [] then 0 else 2 + |fields[0].0| + |fields[0].1| + FieldSizes(fields[1..])
  }

  function QuerySize(id: string): nat {
    34 + 2 * |id|
  }

  lemma QuerySizeExact(id: string)
    ensures |MakeQuery(id)| == QuerySize(id)
  {
    hide HexEncode;
    var fields := [("session_hex", HexEncode(id))];
    FieldsTextSize(fields);
    assert fields[1..] == [];
  }

  function CommitSize(id: string, total: nat): nat {
    41 + 2 * |id| + |Decimal(total)|
  }

  lemma CommitSizeExact(id: string, total: nat)
    ensures |MakeCommit(id, total)| == CommitSize(id, total)
  {
    hide HexEncode, Decimal, FieldSizes;
    var fields := CommitFields(id, Decimal(total));
    FieldsTextSize(fields);
    SizesFrom(fields, 0);
    SizesFrom(fields, 1);
    NoFieldSizes();
    assert fields[2..] == [] && fields[0..] == fields;
    assert FieldSizes(fields) == 2 + 11 + 2 * |id| + (2 + 12 + |Decimal(total)|);
  }

  lemma NoFieldSizes()
    ensures FieldSizes([]) == 0
  {
  }

  function PutSize(p: PutPayload): nat {
    119 + 2 * |p.sessionId| + 2 * |p.relativePath| + |Decimal(p.fileSize)| + |Decimal(p.fileMode)| + |p.fileSha256|
    + |Decimal(p.chunkIndex)| + |Decimal(p.rawSize)| + |Decimal(|p.compressed|)| + |p.compressed|
  }

  lemma PutFieldSizes(p: PutPayload)
    ensures FieldSizes(PutFields(p)) + |p.compressed| + 12 == PutSize(p)
  {
    hide HexEncode, Decimal, FieldSizes;
    var fields := PutFields(p);
    SizesFrom(fields, 0);
    SizesFrom(fields, 1);
    SizesFrom(fields, 2);
    SizesFrom(fields, 3);
    SizesFrom(fields, 4);
    SizesFrom(fields, 5);
    SizesFrom(fields, 6);
    SizesFrom(fields, 7);
    NoFieldSizes();
    assert fields[8..] == [] && fields[0..] == fields;
  }

  lemma PutSizeExact(p: PutPayload)
    ensures |MakePut(p)| == PutSize(p)
  {
    hide PutFields, FieldsText, FieldSizes, PutSize;
    FieldsTextSize(PutFields(p));
    PutFieldSizes(p);
  }

  lemma SizesFrom(fields: seq<Field>, k: nat)
    requires k < |fields|
    ensures FieldSizes(fields[k..]) == 2 + |fields[k].0| + |fields[k].1| + FieldSizes(fields[k + 1..])
  {
    assert fields[k..][1..] == fields[k + 1..];
  }

  // The status of a session.

  /** One line of the status: index, space, digest, newline. */
  function LineSize(index: nat): nat {
    |Decimal(index)| + 66
  }

  function LineSizes(indexes: seq<nat>): nat {
    if indexes == [] then 0 else LineSizes(indexes[..|indexes| - 1]) + LineSize(indexes[|indexes| - 1])
  }

  /** The size of the status when these chunks have been received. */
  ghost function StatusSize(indexes: set<nat>): nat {
    22 + LineSizes(Ascending(indexes))
  }

  ghost predicate StatusFits(indexes: set<nat>) {
    StatusSize(indexes) <= PacketCodec.MAX_PAYLOAD
  }

  lemma {:induction false} StatusLinesLast(pairs: seq<(nat, string)>, last: (nat, string))
    ensures |StatusLines(pairs + [last])| == |StatusLines(pairs)| + |Decimal(last.0)| + |last.1| + 2
  {
    hide Decimal;
    if pairs == [] {
      assert pairs + [last] == [last] && [last][1..] == [];
    } else {
      assert (pairs + [last])[1..] == pairs[1..] + [last];
      StatusLinesLast(pairs[1..], last);
    }
  }

  lemma {:induction false} StatusLinesSize(pairs: seq<(nat, string)>, indexes: seq<nat>)
    requires |pairs| == |indexes| && forall i :: 0 <= i < |pairs| ==> pairs[i].0 == indexes[i] && |pairs[i].1| == 64
    ensures |StatusLines(pairs)| == LineSizes(indexes)
    decreases |pairs|
  {
    hide StatusLines, Decimal;
    if pairs == [] {
      NoStatusLines();
    } else {
      var n := |pairs| - 1;
      StatusLinesSize(pairs[..n], indexes[..n]);
      StatusLinesLast(pairs[..n], pairs[n]);
      assert pairs[..n] + [pairs[n]] == pairs;
    }
  }

  lemma NoStatusLines()
    ensures StatusLines([]) == ""
  {
  }

  /** The size of a status depends only on which chunks it lists. */
  lemma StatusSizeExact(received: map<nat, string>)
    requires forall k :: k in received ==> |received[k]| == 64
    ensures |MakeStatus(StatusPairs(received))| == StatusSize(received.Keys)
  {
    hide StatusLines, Ascending;
    var pairs, keys := StatusPairs(received), Ascending(received.Keys);
    forall i | 0 <= i < |pairs|
      ensures pairs[i].0 == keys[i] && |pairs[i].1| == 64
    {
      assert keys[i] in keys;
    }
    StatusLinesSize(pairs, keys);
  }

  // How many chunks fit.

  /** The lines of the chunks 0 to n - 1. */
  function FirstLines(n: nat): nat {
    if n == 0 then 0 else FirstLines(n - 1) + LineSize(n - 1)
  }

  lemma {:induction false} DigitsGrow(a: nat, b: nat)
    requires a <= b
    ensures |Decimal(a)| <= |Decimal(b)|
  {
    if b >= 10 && a >= 10 {
      DigitsGrow(a / 10, b / 10);
    }
  }

  lemma {:induction false} AtLeastFirst(indexes: seq<nat>)
    requires StrictlySorted(indexes, LessNat)
    ensures LineSizes(indexes) >= FirstLines(|indexes|)
    decreases |indexes|
  {
    hide Decimal;
    if indexes != [] {
      var n := |indexes| - 1;
      AtLeastFirst(indexes[..n]);
      SortedIsSpaced(indexes, n);
      DigitsGrow(n, indexes[n]);
    }
  }

  lemma {:induction false} AtMostFirst(indexes: seq<nat>, n: nat)
    requires StrictlySorted(indexes, LessNat) && AllBelow(indexes, n)
    ensures LineSizes(indexes) <= FirstLines(n)
    decreases n
  {
    hide Decimal;
    if n > 0 && indexes != [] {
      var last := |indexes| - 1;
      forall i | 0 <= i < last
        ensures indexes[i] < n - 1
      {
        assert LessNat(indexes[i], indexes[last]);
      }
      if indexes[last] == n - 1 {
        AtMostFirst(indexes[..last], n - 1);
      } else {
        AtMostFirst(indexes, n - 1);
      }
    }
  }

  lemma {:induction false} FirstLinesRange(lo: nat, hi: nat, digits: nat)
    requires digits > 0 && lo <= hi && (digits == 1 || Pow10(digits - 1) <= lo) && hi <= Pow10(digits)
    ensures FirstLines(hi) == FirstLines(lo) + (hi - lo) * (digits + 66)
    decreases hi
  {
    hide Decimal, Pow10;
    if lo < hi {
      FirstLinesRange(lo, hi - 1, digits);
      DecimalLength(hi - 1, digits);
      if digits > 1 {
        DecimalLength(hi - 1, digits - 1);
      } else {
        SomeDigit(hi - 1);
      }
      assert (hi - lo) * (digits + 66) == (hi - 1 - lo) * (digits + 66) + (digits + 66);
    }
  }

  lemma SomeDigit(n: nat)
    ensures |Decimal(n)| >= 1
  {
  }

  /** The greatest number of chunks, counted from 0, whose status fits into a packet. */
  const STATUS_CHUNKS: nat := 118051

  lemma StatusChunksExact()
    ensures 22 + FirstLines(STATUS_CHUNKS) <= PacketCodec.MAX_PAYLOAD < 22 + FirstLines(STATUS_CHUNKS + 1)
  {
    hide Decimal, FirstLines;
    assert Pow10(1) == 10 && Pow10(2) == 100 && Pow10(3) == 1000;
    assert Pow10(4) == 10000 && Pow10(5) == 100000 && Pow10(6) == 1000000;
    hide Pow10;
    assert FirstLines(0) == 0 by { NoLines(); }
    FirstLinesRange(0, 10, 1);
    FirstLinesRange(10, 100, 2);
    FirstLinesRange(100, 1000, 3);
    FirstLinesRange(1000, 10000, 4);
    FirstLinesRange(10000, 100000, 5);
    FirstLinesRange(100000, STATUS_CHUNKS, 6);
    FirstLinesRange(100000, STATUS_CHUNKS + 1, 6);
  }

  lemma NoLines()
    ensures FirstLines(0) == 0
  {
  }

  lemma {:induction false} FirstLinesGrow(a: nat, b: nat)
    requires a <= b
    ensures FirstLines(a) <= FirstLines(b)
    decreases b
  {
    hide LineSize;
    if a < b {
      FirstLinesGrow(a, b - 1);
    }
  }

  function FirstChunks(n: nat): (s: set<nat>)
    ensures |s| == n && forall i: nat :: i in s <==> i < n
  {
    if n == 0 then {} else FirstChunks(n - 1) + {n - 1}
  }

  /** The status of the chunks 0 to n - 1 fits exactly up to n = 118051. */
  lemma FirstChunksFitIff(n: nat)
    ensures StatusFits(FirstChunks(n)) <==> n <= STATUS_CHUNKS
  {
    hide FirstLines, LineSizes, Ascending, FirstChunks;
    var keys := Ascending(FirstChunks(n));
    StatusChunksExact();
    AtLeastFirst(keys);
    assert forall i :: 0 <= i < |keys| ==> keys[i] in keys;
    AtMostFirst(keys, n);
    if n <= STATUS_CHUNKS {
      FirstLinesGrow(n, STATUS_CHUNKS);
    } else {
      FirstLinesGrow(STATUS_CHUNKS + 1, n);
    }
  }

  /** More chunks than that never fit, whichever they are; chunks with indexes below that always do. */
  lemma StatusFitsBounds(indexes: set<nat>)
    ensures |indexes| > STATUS_CHUNKS ==> !StatusFits(indexes)
    ensures (forall i :: i in indexes ==> i < STATUS_CHUNKS) ==> StatusFits(indexes)
  {
    hide FirstLines, LineSizes, Ascending;
    var keys := Ascending(indexes);
    StatusChunksExact();
    AtLeastFirst(keys);
    if |indexes| > STATUS_CHUNKS {
      FirstLinesGrow(STATUS_CHUNKS + 1, |keys|);
    }
    if forall i :: i in indexes ==> i < STATUS_CHUNKS {
      assert forall i :: 0 <= i < |keys| ==> keys[i] in keys;
      AtMostFirst(keys, STATUS_CHUNKS);
    }
  }
}
