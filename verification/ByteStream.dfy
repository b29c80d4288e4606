/** What chunk-by-chunk extraction keeps of the byte stream, and printing units then parsing them back. */
module ByteStream {
  import opened Bytes
  import opened AnnexB

  // ----- Bytes lost by the extraction

  /** Only the bytes before the first start code are not part of some unit. */
  lemma {:induction false} SplitCovers(s: seq<Byte>)
    ensures Flatten(Split(s)) == match Find(s, 0) { case Some(p) => s[p..] case None => [] }
    decreases |s|
  {
    match Find(s, 0)
    case Some(p) =>
      var e := EndOf(s, p);
      var v := s[e..];
      SplitCovers(v);
      if v != [] { RestBegins(s, p); }
      assert s[p..e] + v == s[p..];
    case None =>
  }

  /** Whenever the reader looks for a start code in what it has, it finds one at the front, and
      nothing is left over at the end. */
  predicate NothingDropped(pending: seq<Byte>, chunks: seq<seq<Byte>>)
    decreases |chunks|
  {
    if Find(pending, 0).Some? then
      StartCodeAt(pending, 0) && (chunks == [] || NothingDropped(chunks[0], chunks[1..]))
    else if chunks == [] then pending == []
    else NothingDropped(pending + chunks[0], chunks[1..])
  }

  /** The units never hold more bytes than were read; they hold all of them, in order, if and only
      if nothing is dropped. */
  lemma {:induction false} LosslessIff(pending: seq<Byte>, chunks: seq<seq<Byte>>)
    ensures |Flatten(Nalus(pending, chunks))| <= |pending + Flatten(chunks)|
    ensures Flatten(Nalus(pending, chunks)) == pending + Flatten(chunks) <==> NothingDropped(pending, chunks)
    ensures |Flatten(Nalus(pending, chunks))| == |pending + Flatten(chunks)| ==> NothingDropped(pending, chunks)
    decreases |chunks|
  {
    if Find(pending, 0).Some? {
      var p := Find(pending, 0).value;
      FindFinds(pending, 0);
      DrainThenRead(pending, chunks);
      SplitCovers(pending);
      FlattenConcat(Split(pending), Nalus([], chunks));
      if StartCodeAt(pending, 0) { FindFrom(pending, 0, 0); }
      if chunks == [] {
        assert Nalus([], []) == [];
      } else {
        assert [] + chunks[0] == chunks[0];
        LosslessIff(chunks[0], chunks[1..]);
        assert Nalus([], chunks) == Nalus(chunks[0], chunks[1..]);
        var got, rest := Flatten(Nalus([], chunks)), Flatten(chunks);
        if pending[p..] + got == pending + rest {
          assert |got| <= |rest|;
          assert (pending + rest)[|pending|..] == rest;
        }
      }
    } else if chunks != [] {
      LosslessIff(pending + chunks[0], chunks[1..]);
      assert pending + Flatten(chunks) == (pending + chunks[0]) + Flatten(chunks[1..]);
    }
  }

  // ----- Chunks that each begin with a start code

  predicate Aligned(chunks: seq<seq<Byte>>) {
    forall c :: c in chunks ==> c == [] || StartCodeAt(c, 0)
  }

  /** The reference for aligned chunks: every chunk split on its own. */
  function SplitEach(chunks: seq<seq<Byte>>): seq<seq<Byte>> {
    if chunks == [] then [] else Split(chunks[0]) + SplitEach(chunks[1..])
  }

  /** When every non-empty chunk begins with a start code, extraction splits each chunk on its own
      and keeps every byte. */
  lemma {:induction false} AlignedExtraction(chunks: seq<seq<Byte>>)
    requires Aligned(chunks)
    ensures Nalus([], chunks) == SplitEach(chunks)
    ensures Flatten(Nalus([], chunks)) == Flatten(chunks)
  {
    if chunks == [] {
      assert Nalus([], []) == [];
    } else {
      var c := chunks[0];
      assert [] + c == c;
      if c != [] { FindFrom(c, 0, 0); }
      DrainThenRead(c, chunks[1..]);
      AlignedExtraction(chunks[1..]);
      SplitCovers(c);
      FlattenConcat(Split(c), Nalus([], chunks[1..]));
    }
  }

  /** The bytes of aligned chunks begin with a start code. */
  lemma {:induction false} AlignedFront(chunks: seq<seq<Byte>>)
    requires Aligned(chunks) && Flatten(chunks) != []
    ensures StartCodeAt(Flatten(chunks), 0)
  {
    if chunks[0] == [] {
      assert Flatten(chunks) == Flatten(chunks[1..]);
      AlignedFront(chunks[1..]);
    } else {
      assert StartCodeAt(chunks[0], 0);
    }
  }

  lemma {:induction false} AlignedSeamless(pending: seq<Byte>, chunks: seq<seq<Byte>>)
    requires pending == [] || (StartCodeAt(pending, 0) && pending[|pending| - 1] != 0)
    requires Aligned(chunks) && forall c :: c in chunks && c != [] ==> c[|c| - 1] != 0
    ensures Seamless(pending, chunks)
    decreases |chunks|
  {
    if chunks != [] {
      if pending != [] { FindFrom(pending, 0, 0); }
      assert [] + chunks[0] == chunks[0];
      AlignedSeamless(chunks[0], chunks[1..]);
      if Flatten(chunks) != [] { AlignedFront(chunks); }
    }
  }

  /** If also no chunk ends in a zero byte, the chunking cannot be seen in the result. */
  lemma AlignedChunkingInvisible(chunks: seq<seq<Byte>>)
    requires Aligned(chunks) && forall c :: c in chunks && c != [] ==> c[|c| - 1] != 0
    ensures Nalus([], chunks) == Split(Flatten(chunks))
  {
    AlignedSeamless([], chunks);
    ChunkingInvisibleIff([], chunks);
    assert [] + Flatten(chunks) == Flatten(chunks);
  }

  // ----- Printing units and parsing them back

  /** A NAL unit to be written with a three-byte or, if `long`, a four-byte start code. */
  datatype Unit = Unit(long: bool, payload: seq<Byte>)

  function Print(u: Unit): (r: seq<Byte>)
    ensures |r| >= 3 && StartCodeAt(r, 0)
    ensures |r| == |u.payload| + (if u.long then 4 else 3) && r[|r| - |u.payload|..] == u.payload
  {
    (if u.long then [0, 0, 0, 1] else [0, 0, 1]) + u.payload
  }

  function PrintAll(us: seq<Unit>): (r: seq<seq<Byte>>)
    ensures |r| == |us| && forall k :: 0 <= k < |us| ==> r[k] == Print(us[k])
  {
    seq(|us|, k requires 0 <= k < |us| => Print(us[k]))
  }

  ghost predicate NoCodeInside(u: Unit) {
    forall i: nat :: !ThreeByteCodeAt(u.payload, i)
  }

  predicate EndsInZero(u: Unit) {
    u.payload != [] && u.payload[|u.payload| - 1] == 0
  }

  lemma PrintWellFormedIff(u: Unit)
    ensures WellFormed(Print(u)) <==> NoCodeInside(u)
  {
    var s, h := Print(u), if u.long then 4 else 3;
    FindFinds(s, 3);
    assert forall i: nat :: ThreeByteCodeAt(s, h + i) <==> ThreeByteCodeAt(u.payload, i);
    assert forall i: nat :: FourByteCodeAt(s, i) ==> ThreeByteCodeAt(s, i + 1);
    if NoCodeInside(u) {
      forall i: nat | 3 <= i ensures !StartCodeAt(s, i) {
        if i >= h {
          assert !ThreeByteCodeAt(u.payload, i - h) && !ThreeByteCodeAt(u.payload, i + 1 - h);
        }
      }
    }
    if Find(s, 3).None? {
      forall i: nat ensures !ThreeByteCodeAt(u.payload, i) {
        assert !StartCodeAt(s, h + i);
      }
    }
  }

  /** No unit ends in a zero byte that the next unit's short start code would absorb. */
  predicate ZerosKept(us: seq<Unit>) {
    forall k :: 0 <= k < |us| - 1 ==> !(EndsInZero(us[k]) && !us[k + 1].long)
  }

  lemma {:induction false} PrintedSeamlessIff(us: seq<Unit>)
    requires us != []
    ensures Seamless(Print(us[0]), PrintAll(us[1..])) <==> ZerosKept(us)
  {
    var u, vs := us[0], us[1..];
    FindFrom(Print(u), 0, 0);
    if vs != [] {
      var rest := Flatten(PrintAll(vs));
      assert PrintAll(vs)[1..] == PrintAll(vs[1..]);
      assert rest == Print(vs[0]) + Flatten(PrintAll(vs[1..]));
      assert Seam(Print(u), rest) <==> !(EndsInZero(u) && !vs[0].long);
      PrintedSeamlessIff(vs);
      if ZerosKept(vs) && Seam(Print(u), rest) {
        forall k | 0 <= k < |us| - 1 ensures !(EndsInZero(us[k]) && !us[k + 1].long) {
          if k > 0 { assert us[k] == vs[k - 1] && us[k + 1] == vs[k]; }
        }
      }
    }
  }

  lemma {:induction false} CleanSplitEach(us: seq<Unit>)
    requires forall u :: u in us ==> NoCodeInside(u)
    ensures SplitEach(PrintAll(us)) == PrintAll(us)
  {
    if us != [] {
      PrintWellFormedIff(us[0]);
      ReparsesIff(Print(us[0]));
      CleanSplitEach(us[1..]);
      assert PrintAll(us)[1..] == PrintAll(us[1..]);
      assert PrintAll(us) == [Print(us[0])] + PrintAll(us[1..]);
    }
  }

  /** Printing units with any mix of start codes and splitting the bytes gives back the printed units
      if and only if no payload contains 00 00 01 and no payload ending in 00 is followed by a
      three-byte start code. */
  lemma RoundTripIff(us: seq<Unit>)
    ensures Split(Flatten(PrintAll(us))) == PrintAll(us)
       <==> (forall u :: u in us ==> NoCodeInside(u)) && ZerosKept(us)
  {
    if us == [] {
      assert Split([]) == [];
    } else {
      var chunks := PrintAll(us);
      var stream := Flatten(chunks);
      assert Aligned(chunks);
      AlignedExtraction(chunks);
      ChunkingInvisibleIff([], chunks);
      assert [] + stream == stream && [] + chunks[0] == chunks[0];
      assert chunks[1..] == PrintAll(us[1..]);
      PrintedSeamlessIff(us);
      if Split(stream) == chunks {
        NalusWellFormed(stream, []);
        forall u | u in us ensures NoCodeInside(u) {
          var k :| 0 <= k < |us| && us[k] == u;
          assert chunks[k] in chunks;
          PrintWellFormedIff(u);
        }
      }
      if forall u :: u in us ==> NoCodeInside(u) { CleanSplitEach(us); }
    }
  }

  /** Section 7.4.1 of ITU-T H.264 forbids both defects, so every conforming stream round-trips. */
  lemma ConformingRoundTrip(us: seq<Unit>)
    requires forall u :: u in us ==> NoCodeInside(u) && !EndsInZero(u)
    ensures Split(Flatten(PrintAll(us))) == PrintAll(us)
  {
    RoundTripIff(us);
  }
}
