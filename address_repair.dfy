/**
 * The repair heuristic for IPv6 address text (`try_fix_ipv6_str`): every
 * ':'-separated segment longer than four bytes is cut into four-byte chunks,
 * the last possibly shorter, and the pieces are joined again with ':'.
 * It works on the bytes of the text, as `seg.len()` and `as_bytes()` do.
 */
module AddressRepair {
  import opened Bytes

  /** The longest segment the repair leaves alone, and the size of its chunks. */
  const ChunkSize: nat := 4

  function Min(a: int, b: int): (m: int) {
    if a < b then a else b
  }

  // ---------------------------------------------------------------------------
  // Splitting and joining (Rust's `str::split` and `[String]::join`)
  // ---------------------------------------------------------------------------

  /** The pieces of `s` between occurrences of `sep`, empty pieces included;
      the empty text is one empty piece. */
  function Split(s: Bytes, sep: uint8): (parts: seq<Bytes>)
    ensures |parts| >= 1
    ensures forall k :: 0 <= k < |parts| ==> sep !in parts[k]
    decreases |s|
  {
    if s == [] then [[]]
    else
      var rest := Split(s[1..], sep);
      if s[0] == sep then [[]] + rest
      else [[s[0]] + rest[0]] + rest[1..]
  }

  /** The pieces with one `sep` between each two neighbours. */
  function Join(parts: seq<Bytes>, sep: uint8): (s: Bytes) {
    if parts == [] then []
    else if |parts| == 1 then parts[0]
    else parts[0] + [sep] + Join(parts[1..], sep)
  }

  /** Joining the pieces of a split gives the text back. */
  lemma {:induction false} JoinSplit(s: Bytes, sep: uint8)
    ensures Join(Split(s, sep), sep) == s
    decreases |s|
  {
    if s != [] {
      JoinSplit(s[1..], sep);
      var rest := Split(s[1..], sep);
      var parts := Split(s, sep);
      assert s == [s[0]] + s[1..];
      if s[0] == sep {
        assert parts[1..] == rest;
      } else {
        assert parts == [[s[0]] + rest[0]] + rest[1..];
        if |rest| > 1 {
          assert parts[1..] == rest[1..];
        }
      }
    }
  }

  lemma {:induction false} SplitWithoutSep(a: Bytes, sep: uint8)
    requires sep !in a
    ensures Split(a, sep) == [a]
    decreases |a|
  {
    if a != [] {
      SplitWithoutSep(a[1..], sep);
      assert [a[0]] + a[1..] == a;
    }
  }

  lemma {:induction false} SplitAfterPiece(a: Bytes, sep: uint8, b: Bytes)
    requires sep !in a
    ensures Split(a + [sep] + b, sep) == [a] + Split(b, sep)
    decreases |a|
  {
    var s := a + [sep] + b;
    if a == [] {
      assert s == [sep] + b;
      assert s[1..] == b;
    } else {
      SplitAfterPiece(a[1..], sep, b);
      assert s[0] == a[0];
      assert s[1..] == a[1..] + [sep] + b;
      assert [a[0]] + a[1..] == a;
    }
  }

  /** Splitting a join of separator-free pieces gives the pieces back. */
  lemma {:induction false} SplitJoin(parts: seq<Bytes>, sep: uint8)
    requires |parts| >= 1
    requires forall k :: 0 <= k < |parts| ==> sep !in parts[k]
    ensures Split(Join(parts, sep), sep) == parts
    decreases |parts|
  {
    if |parts| == 1 {
      SplitWithoutSep(parts[0], sep);
    } else {
      SplitJoin(parts[1..], sep);
      SplitAfterPiece(parts[0], sep, Join(parts[1..], sep));
      assert [parts[0]] + parts[1..] == parts;
    }
  }

  // ---------------------------------------------------------------------------
  // Concatenation and removal of separators
  // ---------------------------------------------------------------------------

  /** The pieces concatenated, with nothing in between. */
  function Flatten(ss: seq<Bytes>): (s: Bytes) {
    if ss == [] then [] else ss[0] + Flatten(ss[1..])
  }

  lemma {:induction false} FlattenAppend(a: seq<Bytes>, b: seq<Bytes>)
    ensures Flatten(a + b) == Flatten(a) + Flatten(b)
    decreases |a|
  {
    if a == [] {
      assert a + b == b;
    } else {
      FlattenAppend(a[1..], b);
      assert (a + b)[1..] == a[1..] + b;
    }
  }

  /** Every byte of a piece is a byte of the concatenation. */
  lemma {:induction false} FlattenContains(ss: seq<Bytes>, k: nat, x: uint8)
    requires k < |ss| && x in ss[k]
    ensures x in Flatten(ss)
    decreases k
  {
    if k > 0 {
      FlattenContains(ss[1..], k - 1, x);
    }
  }

  /** `s` with every `sep` taken out. */
  function Remove(s: Bytes, sep: uint8): (r: Bytes) {
    if s == [] then [] else (if s[0] == sep then [] else [s[0]]) + Remove(s[1..], sep)
  }

  lemma {:induction false} RemoveAppend(a: Bytes, b: Bytes, sep: uint8)
    ensures Remove(a + b, sep) == Remove(a, sep) + Remove(b, sep)
    decreases |a|
  {
    if a == [] {
      assert a + b == b;
    } else {
      var ab := a + b;
      var first: Bytes := if a[0] == sep then [] else [a[0]];
      assert ab[0] == a[0];
      assert ab[1..] == a[1..] + b;
      RemoveAppend(a[1..], b, sep);
      assert Remove(ab, sep) == first + (Remove(a[1..], sep) + Remove(b, sep));
      assert Remove(a, sep) == first + Remove(a[1..], sep);
    }
  }

  lemma {:induction false} RemoveAbsent(a: Bytes, sep: uint8)
    requires sep !in a
    ensures Remove(a, sep) == a
    decreases |a|
  {
    if a != [] {
      RemoveAbsent(a[1..], sep);
    }
  }

  /** A piece followed by its separator loses exactly the separator. */
  lemma RemovePieceSep(head: Bytes, sep: uint8)
    requires sep !in head
    ensures Remove(head + [sep], sep) == head
  {
    RemoveAppend(head, [sep], sep);
    RemoveAbsent(head, sep);
    assert [sep][1..] == [];
  }

  /** Taking the separators out of a join leaves the concatenated pieces. */
  lemma {:induction false} RemoveJoin(parts: seq<Bytes>, sep: uint8)
    requires forall k :: 0 <= k < |parts| ==> sep !in parts[k]
    ensures Remove(Join(parts, sep), sep) == Flatten(parts)
    decreases |parts|
  {
    if |parts| == 1 {
      RemoveAbsent(parts[0], sep);
      assert Flatten(parts) == parts[0] + Flatten([]);
    } else if |parts| > 1 {
      var head, tail := parts[0], parts[1..];
      assert forall k :: 0 <= k < |tail| ==> sep !in tail[k] by {
        forall k | 0 <= k < |tail| ensures sep !in tail[k] {
          assert tail[k] == parts[k + 1];
        }
      }
      RemoveJoin(tail, sep);
      RemovePieceSep(head, sep);
      RemoveAppend(head + [sep], Join(tail, sep), sep);
    }
  }

  // ---------------------------------------------------------------------------
  // Chunking one long segment (the `while` loop of the repair)
  // ---------------------------------------------------------------------------

  /** The consecutive four-byte chunks of `seg`, the last one possibly shorter. */
  function Chunks(seg: Bytes): (chunks: seq<Bytes>)
    decreases |seg|
  {
    if seg == [] then []
    else if |seg| <= ChunkSize then [seg]
    else [seg[..ChunkSize]] + Chunks(seg[ChunkSize..])
  }

  /** A segment of n bytes gives ceil(n/4) chunks, each of one to four bytes,
      all but the last exactly four, and together they are the segment. */
  lemma {:induction false} ChunksShape(seg: Bytes)
    ensures |Chunks(seg)| == (|seg| + 3) / 4
    ensures Flatten(Chunks(seg)) == seg
    ensures forall k :: 0 <= k < |Chunks(seg)| ==> 1 <= |Chunks(seg)[k]| <= ChunkSize
    ensures forall k :: 0 <= k < |Chunks(seg)| - 1 ==> |Chunks(seg)[k]| == ChunkSize
    decreases |seg|
  {
    if |seg| > ChunkSize {
      ChunksShape(seg[ChunkSize..]);
      assert seg[..ChunkSize] + seg[ChunkSize..] == seg;
    }
  }

  /** One turn of the chunking loop: the chunk that starts at `i` ends at
      `min(i + 4, |seg|)`, and chunking goes on from there. */
  lemma ChunksStep(seg: Bytes, i: nat)
    requires i < |seg|
    ensures Chunks(seg[i..]) == [seg[i..Min(i + ChunkSize, |seg|)]] + Chunks(seg[Min(i + ChunkSize, |seg|)..])
  {
    var t := seg[i..];
    if |t| > ChunkSize {
      assert t[..ChunkSize] == seg[i..i + ChunkSize];
      assert t[ChunkSize..] == seg[i + ChunkSize..];
    } else {
      assert seg[i..|seg|] == t;
      assert seg[|seg|..] == [];
    }
  }

  /** The `while` loop of `try_fix_ipv6_str`: advance `i` by four and push
      the bytes `i..min(i + 4, len)`. */
  method ChunkSegment(seg: Bytes) returns (out: seq<Bytes>)
    ensures out == Chunks(seg)
  {
    out := [];
    var i: nat := 0;
    while i < |seg|
      invariant out + Chunks(seg[Min(i, |seg|)..]) == Chunks(seg)
    {
      var end := Min(i + ChunkSize, |seg|);
      ChunksStep(seg, i);
      out := out + [seg[i..end]];
      i := i + ChunkSize;
    }
    assert seg[Min(i, |seg|)..] == [];
  }

  // ---------------------------------------------------------------------------
  // The repair of a whole address
  // ---------------------------------------------------------------------------

  /** What the `flat_map` makes of one segment. */
  function FixSegment(seg: Bytes): (pieces: seq<Bytes>) {
    if |seg| <= ChunkSize then [seg] else Chunks(seg)
  }

  /** The `flat_map` over all segments, in order. */
  function FixSegments(parts: seq<Bytes>): (pieces: seq<Bytes>) {
    if parts == [] then [] else FixSegment(parts[0]) + FixSegments(parts[1..])
  }

  /** The text `try_fix_ipv6_str` returns for `s`. */
  function Repaired(s: Bytes): (fixed: Bytes) {
    Join(FixSegments(Split(s, Colon)), Colon)
  }

  lemma {:induction false} FixSegmentsAppend(a: seq<Bytes>, b: seq<Bytes>)
    ensures FixSegments(a + b) == FixSegments(a) + FixSegments(b)
    decreases |a|
  {
    if a == [] {
      assert a + b == b;
    } else {
      var ab := a + b;
      assert ab[0] == a[0];
      assert ab[1..] == a[1..] + b;
      FixSegmentsAppend(a[1..], b);
      var head := FixSegment(a[0]);
      assert FixSegments(ab) == head + (FixSegments(a[1..]) + FixSegments(b));
    }
  }

  /** `try_fix_ipv6_str`: split on ':', keep short segments, chunk long ones
      with the `while` loop, and join the pieces with ':'. */
  method TryFixIpv6Str(s: Bytes) returns (fixed: Bytes)
    ensures fixed == Repaired(s)
  {
    var segs := Split(s, Colon);
    var parts: seq<Bytes> := [];
    for k := 0 to |segs|
      invariant parts == FixSegments(segs[..k])
    {
      var seg := segs[k];
      var pieces: seq<Bytes>;
      if |seg| <= ChunkSize {
        pieces := [seg];
      } else {
        pieces := ChunkSegment(seg);
      }
      assert segs[..k + 1] == segs[..k] + [seg];
      FixSegmentsAppend(segs[..k], [seg]);
      assert [seg][1..] == [];
      assert FixSegments([seg]) == pieces;
      parts := parts + pieces;
    }
    assert segs[..|segs|] == segs;
    fixed := Join(parts, Colon);
  }

  /** What the repair makes of one segment: a short one is kept as it is; a
      long one of n bytes becomes ceil(n/4) pieces, all of four bytes but the
      last, which has one to four; either way the pieces concatenate back to
      the segment and hold no byte the segment does not. */
  lemma FixSegmentShape(seg: Bytes)
    ensures |seg| <= ChunkSize ==> FixSegment(seg) == [seg]
    ensures |seg| > ChunkSize ==> |FixSegment(seg)| == (|seg| + 3) / 4 >= 2
    ensures |seg| > ChunkSize ==> forall k :: 0 <= k < |FixSegment(seg)| - 1 ==> |FixSegment(seg)[k]| == ChunkSize
    ensures |seg| > ChunkSize ==> 1 <= |FixSegment(seg)[|FixSegment(seg)| - 1]| <= ChunkSize
    ensures forall k :: 0 <= k < |FixSegment(seg)| ==> |FixSegment(seg)[k]| <= ChunkSize
    ensures Flatten(FixSegment(seg)) == seg
    ensures Colon !in seg ==> forall k :: 0 <= k < |FixSegment(seg)| ==> Colon !in FixSegment(seg)[k]
  {
    ChunksShape(seg);
    if Colon !in seg {
      forall k | 0 <= k < |FixSegment(seg)|
        ensures Colon !in FixSegment(seg)[k]
      {
        if Colon in FixSegment(seg)[k] {
          FlattenContains(FixSegment(seg), k, Colon);
        }
      }
    }
  }

  /** The repaired pieces of colon-free segments are colon-free and at most
      four bytes long. */
  lemma {:induction false} FixSegmentsPieces(parts: seq<Bytes>)
    requires forall k :: 0 <= k < |parts| ==> Colon !in parts[k]
    ensures forall k :: 0 <= k < |FixSegments(parts)| ==> Colon !in FixSegments(parts)[k]
    ensures forall k :: 0 <= k < |FixSegments(parts)| ==> |FixSegments(parts)[k]| <= ChunkSize
    decreases |parts|
  {
    if parts != [] {
      var head, tail := FixSegment(parts[0]), FixSegments(parts[1..]);
      FixSegmentShape(parts[0]);
      assert forall k :: 0 <= k < |parts| - 1 ==> Colon !in parts[1..][k] by {
        forall k | 0 <= k < |parts| - 1 ensures Colon !in parts[1..][k] {
          assert parts[1..][k] == parts[k + 1];
        }
      }
      FixSegmentsPieces(parts[1..]);
      assert FixSegments(parts) == head + tail;
      forall k | 0 <= k < |head + tail|
        ensures Colon !in (head + tail)[k] && |(head + tail)[k]| <= ChunkSize
      {
        if k >= |head| {
          assert (head + tail)[k] == tail[k - |head|];
        }
      }
    }
  }

  /** The repaired pieces concatenate to the same bytes as the segments. */
  lemma {:induction false} FixSegmentsFlatten(parts: seq<Bytes>)
    ensures Flatten(FixSegments(parts)) == Flatten(parts)
    decreases |parts|
  {
    if parts != [] {
      FixSegmentShape(parts[0]);
      FixSegmentsFlatten(parts[1..]);
      FlattenAppend(FixSegment(parts[0]), FixSegments(parts[1..]));
    }
  }

  /** There are at least as many repaired pieces as segments; exactly as many
      precisely when every segment was short, and then the pieces are the
      segments themselves. */
  lemma {:induction false} FixSegmentsCount(parts: seq<Bytes>)
    ensures |FixSegments(parts)| >= |parts|
    ensures |FixSegments(parts)| == |parts| <==> forall k :: 0 <= k < |parts| ==> |parts[k]| <= ChunkSize
    ensures (forall k :: 0 <= k < |parts| ==> |parts[k]| <= ChunkSize) ==> FixSegments(parts) == parts
    decreases |parts|
  {
    if parts != [] {
      FixSegmentShape(parts[0]);
      FixSegmentsCount(parts[1..]);
      if forall k :: 0 <= k < |parts| ==> |parts[k]| <= ChunkSize {
        assert forall k :: 0 <= k < |parts| - 1 ==> |parts[1..][k]| <= ChunkSize by {
          forall k | 0 <= k < |parts| - 1 ensures |parts[1..][k]| <= ChunkSize {
            assert parts[1..][k] == parts[k + 1];
          }
        }
        assert [parts[0]] + parts[1..] == parts;
      } else {
        var j :| 0 <= j < |parts| && |parts[j]| > ChunkSize;
        if j > 0 {
          assert parts[1..][j - 1] == parts[j];
        }
      }
    }
  }

  /** The ':'-separated segments of the repaired text are exactly the repaired
      pieces, and every one of them is at most four bytes long. */
  lemma RepairedSegments(s: Bytes)
    ensures Split(Repaired(s), Colon) == FixSegments(Split(s, Colon))
    ensures forall k :: 0 <= k < |Split(Repaired(s), Colon)| ==> |Split(Repaired(s), Colon)[k]| <= ChunkSize
  {
    FixSegmentsPieces(Split(s, Colon));
    FixSegmentsCount(Split(s, Colon));
    SplitJoin(FixSegments(Split(s, Colon)), Colon);
  }

  /** The repair changes nothing exactly when no segment is longer than four
      bytes. */
  lemma RepairedIdentity(s: Bytes)
    ensures Repaired(s) == s <==> forall k :: 0 <= k < |Split(s, Colon)| ==> |Split(s, Colon)[k]| <= ChunkSize
  {
    var segs := Split(s, Colon);
    FixSegmentsCount(segs);
    JoinSplit(s, Colon);
    RepairedSegments(s);
    if Repaired(s) == s {
      assert |FixSegments(segs)| == |segs|;
    }
  }

  /** The repair only inserts separators: with every ':' taken out, the input
      and the output are the same bytes. */
  lemma RepairedKeepsBytes(s: Bytes)
    ensures Remove(Repaired(s), Colon) == Remove(s, Colon)
  {
    var segs := Split(s, Colon);
    FixSegmentsPieces(segs);
    FixSegmentsFlatten(segs);
    RemoveJoin(FixSegments(segs), Colon);
    RemoveJoin(segs, Colon);
    JoinSplit(s, Colon);
  }

  /** Repairing twice is repairing once. */
  lemma RepairedIdempotent(s: Bytes)
    ensures Repaired(Repaired(s)) == Repaired(s)
  {
    RepairedSegments(s);
    RepairedIdentity(Repaired(s));
  }

  /** Repairing a join of colon-free segments joins their repaired pieces. */
  lemma RepairedJoin(parts: seq<Bytes>)
    requires |parts| >= 1
    requires forall k :: 0 <= k < |parts| ==> Colon !in parts[k]
    ensures Repaired(Join(parts, Colon)) == Join(FixSegments(parts), Colon)
  {
    SplitJoin(parts, Colon);
  }

  /** An eight-byte segment in front of short segments is cut into its two
      halves and nothing else changes. */
  lemma RepairedOneLongSegment(a: Bytes, b: Bytes, rest: seq<Bytes>)
    requires |a| == ChunkSize && |b| == ChunkSize && Colon !in a && Colon !in b
    requires forall k :: 0 <= k < |rest| ==> Colon !in rest[k] && |rest[k]| <= ChunkSize
    ensures Repaired(Join([a + b] + rest, Colon)) == Join([a, b] + rest, Colon)
  {
    var parts := [a + b] + rest;
    assert Colon !in a + b;
    assert forall k :: 0 <= k < |parts| ==> Colon !in parts[k] by {
      forall k | 0 <= k < |parts| ensures Colon !in parts[k] {
        if k > 0 { assert parts[k] == rest[k - 1]; }
      }
    }
    RepairedJoin(parts);
    assert parts[1..] == rest;
    FixSegmentsCount(rest);
    assert (a + b)[ChunkSize..] == b;
    assert (a + b)[..ChunkSize] == a;
    assert Chunks(b) == [b];
    assert Chunks(a + b) == [a] + Chunks(b);
  }

  /** The groups of the example of the source's comment are four bytes long
      and hold no ':', and the long segment is the first two of them. */
  lemma ExampleGroups(a: Bytes, b: Bytes, rest: seq<Bytes>)
    requires a == Ascii("ff12") && b == Ascii("c909")
    requires rest == [Ascii("3199"), Ascii("e8ba"), Ascii("6f6f"), Ascii("7d23"), Ascii("e6ae"), Ascii("d85d")]
    ensures Ascii("ff12c909") == a + b
    ensures |a| == ChunkSize && |b| == ChunkSize && Colon !in a && Colon !in b
    ensures forall k :: 0 <= k < |rest| ==> Colon !in rest[k] && |rest[k]| <= ChunkSize
  {
  }

  /** The example of the source's comment: `ff12c909:3199:e8ba:6f6f:7d23:e6ae:d85d`
      becomes `ff12:c909:3199:e8ba:6f6f:7d23:e6ae:d85d`. */
  lemma RepairedExample()
    ensures var rest := [Ascii("3199"), Ascii("e8ba"), Ascii("6f6f"), Ascii("7d23"), Ascii("e6ae"), Ascii("d85d")];
            Repaired(Join([Ascii("ff12c909")] + rest, Colon)) == Join([Ascii("ff12"), Ascii("c909")] + rest, Colon)
  {
    var a, b := Ascii("ff12"), Ascii("c909");
    var rest := [Ascii("3199"), Ascii("e8ba"), Ascii("6f6f"), Ascii("7d23"), Ascii("e6ae"), Ascii("d85d")];
    ExampleGroups(a, b, rest);
    RepairedOneLongSegment(a, b, rest);
  }
}
