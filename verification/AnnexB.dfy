/** The byte-stream format of Annex B of ITU-T H.264, as the stream reader parses it:
    start codes, the chunk-by-chunk splitter, and how chunking relates to one-shot splitting. */
module AnnexB {
  import opened Bytes

  predicate ThreeByteCodeAt(s: seq<Byte>, i: nat) {
    i + 2 < |s| && s[i] == 0 && s[i + 1] == 0 && s[i + 2] == 1
  }

  predicate FourByteCodeAt(s: seq<Byte>, i: nat) {
    i + 3 < |s| && s[i] == 0 && s[i + 1] == 0 && s[i + 2] == 0 && s[i + 3] == 1
  }

  predicate StartCodeAt(s: seq<Byte>, i: nat) {
    FourByteCodeAt(s, i) || ThreeByteCodeAt(s, i)
  }

  /** The start codes are the bytes 00 00 01 and 00 00 00 01. */
  lemma StartCodeBytes(s: seq<Byte>, i: nat)
    requires i <= |s|
    ensures StartCodeAt(s, i) <==> [0, 0, 1] <= s[i..] || [0, 0, 0, 1] <= s[i..]
  {
    var t := s[i..];
    assert forall k :: 0 <= k < |t| ==> t[k] == s[i + k];
    if StartCodeAt(s, i) {
      assert if FourByteCodeAt(s, i) then t[..4] == [0, 0, 0, 1] else t[..3] == [0, 0, 1];
    }
  }

  /** The first start code at or after `from`. */
  function Find(s: seq<Byte>, from: nat): (p: Option<nat>)
    ensures p.Some? ==> from <= p.value < |s| - 2
    decreases |s| - from
  {
    if from + 2 >= |s| then None
    else if StartCodeAt(s, from) then Some(from)
    else Find(s, from + 1)
  }

  lemma {:induction false} FindFinds(s: seq<Byte>, from: nat)
    ensures Find(s, from).None? ==> forall i: nat :: from <= i ==> !StartCodeAt(s, i)
    ensures Find(s, from).Some? ==> StartCodeAt(s, Find(s, from).value)
    ensures Find(s, from).Some? ==> forall i: nat :: from <= i < Find(s, from).value ==> !StartCodeAt(s, i)
    decreases |s| - from
  {
    if from + 2 < |s| && !StartCodeAt(s, from) { FindFinds(s, from + 1); }
  }

  /** Where the unit starting at `p` ends: at the next start code, or with the bytes at hand. */
  function EndOf(s: seq<Byte>, p: nat): (e: nat)
    requires p + 3 <= |s|
    ensures p + 3 <= e <= |s|
  {
    match Find(s, p + 3)
    case Some(e) => e
    case None => |s|
  }

  /** The units the reader extracts from unread bytes followed by chunks still to be read.
      A unit is cut as soon as one can be, before the next chunk is read. */
  function Nalus(unread: seq<Byte>, chunks: seq<seq<Byte>>): (r: seq<seq<Byte>>)
    decreases |chunks|, |unread|
  {
    match Find(unread, 0)
    case Some(p) =>
      var e := EndOf(unread, p);
      [unread[p..e]] + Nalus(unread[e..], chunks)
    case None =>
      if chunks == [] then [] else Nalus(unread + chunks[0], chunks[1..])
  }

  /** The one-shot reference splitter: the whole stream is at hand. */
  function Split(s: seq<Byte>): seq<seq<Byte>> {
    Nalus(s, [])
  }

  // ----- Find depends only on the bytes from `from` on, and is stable under appending

  lemma {:induction false} FindFrom(s: seq<Byte>, from: nat, p: nat)
    requires from <= p && StartCodeAt(s, p)
    requires forall i: nat :: from <= i < p ==> !StartCodeAt(s, i)
    ensures Find(s, from) == Some(p)
    decreases p - from
  {
    if from < p { FindFrom(s, from + 1, p); }
  }

  /** `t` is what is left of `s` from `offset` on. */
  ghost predicate SuffixAt(s: seq<Byte>, offset: nat, t: seq<Byte>) {
    offset + |t| == |s| && forall i :: 0 <= i < |t| ==> t[i] == s[offset + i]
  }

  lemma {:induction false} FindInSuffix(s: seq<Byte>, offset: nat, t: seq<Byte>, from: nat)
    requires SuffixAt(s, offset, t)
    ensures Find(s, offset + from)
         == match Find(t, from) { case Some(p) => Some(offset + p) case None => None }
    decreases |t| - from
  {
    if from + 2 < |t| {
      assert StartCodeAt(t, from) <==> StartCodeAt(s, offset + from);
      FindInSuffix(s, offset, t, from + 1);
    }
  }

  /** A start code once found stays the first one whatever is appended. */
  lemma {:induction false} FindStable(s: seq<Byte>, t: seq<Byte>, from: nat)
    requires Find(s, from).Some?
    ensures Find(s + t, from) == Find(s, from)
    decreases |s| - from
  {
    assert StartCodeAt(s + t, from) <==> StartCodeAt(s, from) by {
      assert from + 2 < |s|;
      if !StartCodeAt(s, from) { assert from + 3 < |s|; }
    }
    if !StartCodeAt(s, from) { FindStable(s, t, from + 1); }
  }

  // ----- One step of extraction, on a buffer read from an offset

  lemma EndOfInSuffix(s: seq<Byte>, offset: nat, t: seq<Byte>, p: nat)
    requires SuffixAt(s, offset, t) && p + 3 <= |t|
    ensures EndOf(s, offset + p) == offset + EndOf(t, p)
  {
    FindInSuffix(s, offset, t, p + 3);
  }

  lemma NalusStep(u: seq<Byte>, chunks: seq<seq<Byte>>, p: nat, n: seq<Byte>, rest: seq<Byte>)
    requires Find(u, 0) == Some(p) && p + |n| == EndOf(u, p) && SuffixAt(u, p + |n|, rest)
    requires forall i :: 0 <= i < |n| ==> n[i] == u[p + i]
    ensures Nalus(u, chunks) == [n] + Nalus(rest, chunks)
  {
    var e := EndOf(u, p);
    assert n == u[p..e] && rest == u[e..];
  }

  /** A unit found in the buffer at the reader's offset is the first of what is unread. */
  lemma ExtractStep(buffer: seq<Byte>, offset: nat, unread: seq<Byte>, chunks: seq<seq<Byte>>,
                    s: nat, n: seq<Byte>, rest: seq<Byte>)
    requires SuffixAt(buffer, offset, unread) && Find(buffer, offset) == Some(s)
    requires s + |n| == EndOf(buffer, s) && SuffixAt(buffer, s + |n|, rest)
    requires forall i :: 0 <= i < |n| ==> n[i] == buffer[s + i]
    ensures Nalus(unread, chunks) == [n] + Nalus(rest, chunks)
  {
    FindInSuffix(buffer, offset, unread, 0);
    EndOfInSuffix(buffer, offset, unread, s - offset);
    NalusStep(unread, chunks, s - offset, n, rest);
  }

  /** The unit cut from the buffer is well formed and the first of what is unread. */
  lemma CutStep(buffer: seq<Byte>, offset: nat, unread: seq<Byte>, chunks: seq<seq<Byte>>, start: nat, end: nat)
    requires SuffixAt(buffer, offset, unread) && Find(buffer, offset) == Some(start)
    requires end == match Find(buffer, start + 3) { case Some(p) => p case None => |buffer| }
    ensures offset <= start && start + 3 <= end <= |buffer| && WellFormed(buffer[start..end])
    ensures Nalus(unread, chunks) == [buffer[start..end]] + Nalus(buffer[end..], chunks)
  {
    FindFinds(buffer, offset);
    SliceWellFormed(buffer, start);
    ExtractStep(buffer, offset, unread, chunks, start, buffer[start..end], buffer[end..]);
  }

  /** With no start code in what is unread, the next chunk is added to it. */
  lemma RefillStep(buffer: seq<Byte>, offset: nat, unread: seq<Byte>, chunks: seq<seq<Byte>>)
    requires SuffixAt(buffer, offset, unread) && Find(buffer, offset).None?
    ensures Nalus(unread, chunks) == if chunks == [] then [] else Nalus(unread + chunks[0], chunks[1..])
  {
    FindInSuffix(buffer, offset, unread, 0);
  }

  // ----- Shape of every extracted unit

  /** A unit begins with a start code and holds no other past its prefix. */
  predicate WellFormed(nalu: seq<Byte>) {
    && |nalu| >= 3
    && StartCodeAt(nalu, 0)
    && Find(nalu, 3).None?
  }

  lemma SliceWellFormed(s: seq<Byte>, p: nat)
    requires StartCodeAt(s, p)
    ensures WellFormed(s[p..EndOf(s, p)])
  {
    var e := EndOf(s, p);
    var n := s[p..e];
    FindFinds(s, p + 3);
    FindFinds(n, 3);
    assert FourByteCodeAt(s, p) ==> !StartCodeAt(s, p + 3);
    assert StartCodeAt(n, 0);
    var q := Find(n, 3);
    if q.Some? {
      assert StartCodeAt(s, p + q.value);
    }
  }

  /** For arbitrary chunks, every extracted unit is well formed. */
  lemma {:induction false} NalusWellFormed(unread: seq<Byte>, chunks: seq<seq<Byte>>)
    ensures forall n :: n in Nalus(unread, chunks) ==> WellFormed(n)
    decreases |chunks|, |unread|
  {
    match Find(unread, 0)
    case Some(p) =>
      FindFinds(unread, 0);
      SliceWellFormed(unread, p);
      NalusWellFormed(unread[EndOf(unread, p)..], chunks);
    case None =>
      if chunks != [] { NalusWellFormed(unread + chunks[0], chunks[1..]); }
  }

  /** A byte string splits into itself alone exactly when it is a well-formed unit. */
  lemma ReparsesIff(n: seq<Byte>)
    ensures Split(n) == [n] <==> WellFormed(n)
  {
    if WellFormed(n) {
      FindFrom(n, 0, 0);
      assert EndOf(n, 0) == |n|;
      assert n[0..|n|] == n && n[|n|..] == [];
      assert Nalus([], []) == [];
    }
    if Split(n) == [n] {
      NalusWellFormed(n, []);
      assert n in Split(n);
    }
  }

  /** The units are slices of `s`, each beginning at or after the end of the one before. */
  ghost predicate InOrderSlices(ns: seq<seq<Byte>>, s: seq<Byte>, from: nat)
    decreases |ns|
  {
    ns == [] ||
    exists a: nat, b: nat :: from <= a <= b <= |s| && s[a..b] == ns[0] && InOrderSlices(ns[1..], s, b)
  }

  /** Slices of what follows `base` are slices of the whole. */
  lemma SlicesAfter(s: seq<Byte>, base: nat, unread: seq<Byte>, rest: seq<Byte>, p: nat, e: nat)
    requires base <= |s| && s[base..] == unread + rest && p <= e <= |unread|
    ensures base + e <= |s| && s[base + p..base + e] == unread[p..e] && s[base + e..] == unread[e..] + rest
  {
    var t := s[base..];
    assert |s| == base + |unread| + |rest|;
    forall j | base <= j < |s| ensures s[j] == (unread + rest)[j - base] {
      assert s[j] == t[j - base];
    }
    assert s[base + p..base + e] == unread[p..e];
    assert s[base + e..] == t[e..];
  }

  lemma {:induction false} NalusAreSlices(s: seq<Byte>, base: nat, unread: seq<Byte>, chunks: seq<seq<Byte>>)
    requires base <= |s| && s[base..] == unread + Flatten(chunks)
    ensures InOrderSlices(Nalus(unread, chunks), s, base)
    decreases |chunks|, |unread|
  {
    match Find(unread, 0)
    case Some(p) =>
      var e := EndOf(unread, p);
      SlicesAfter(s, base, unread, Flatten(chunks), p, e);
      NalusAreSlices(s, base + e, unread[e..], chunks);
      var ns := Nalus(unread, chunks);
      assert ns[1..] == Nalus(unread[e..], chunks);
    case None =>
      if chunks != [] {
        assert unread + Flatten(chunks) == (unread + chunks[0]) + Flatten(chunks[1..]);
        NalusAreSlices(s, base, unread + chunks[0], chunks[1..]);
      }
  }

  // ----- Draining what is unread before reading on

  /** What follows a unit, if anything, begins with a start code. */
  lemma RestBegins(s: seq<Byte>, p: nat)
    requires p + 3 <= |s| && EndOf(s, p) < |s|
    ensures StartCodeAt(s[EndOf(s, p)..], 0) && Find(s[EndOf(s, p)..], 0) == Some(0)
  {
    FindFinds(s, p + 3);
    var e := EndOf(s, p);
    assert StartCodeAt(s, e);
    FindFrom(s[e..], 0, 0);
  }

  lemma {:induction false} DrainThenRead(unread: seq<Byte>, chunks: seq<seq<Byte>>)
    requires Find(unread, 0).Some? || unread == []
    ensures Nalus(unread, chunks) == Split(unread) + Nalus([], chunks)
    decreases |unread|
  {
    if unread == [] {
      assert Split([]) == [];
    } else {
      var p := Find(unread, 0).value;
      var e := EndOf(unread, p);
      var rest := unread[e..];
      if rest != [] {
        RestBegins(unread, p);
      }
      DrainThenRead(rest, chunks);
      DrainThenRead(rest, []);
      assert Nalus([], []) == [];
    }
  }

  lemma {:induction false} FlattenEmpty(chunks: seq<seq<Byte>>)
    requires Flatten(chunks) == []
    ensures Nalus([], chunks) == []
  {
    if chunks != [] {
      assert chunks[0] == [] && Flatten(chunks[1..]) == [];
      assert [] + chunks[0] == [];
      FlattenEmpty(chunks[1..]);
    }
  }

  // ----- When chunking is invisible

  /** The place between `before` and `after` is a unit boundary of the joined stream: `after` begins
      with a start code and no byte of `before` is absorbed into a four-byte one. */
  predicate Seam(before: seq<Byte>, after: seq<Byte>)
    requires before != []
  {
    FourByteCodeAt(after, 0) || (ThreeByteCodeAt(after, 0) && before[|before| - 1] != 0)
  }

  /** Every place where the reader runs dry after a start code, with bytes still to come, is a seam.
      `pending` holds the bytes since the last such place. */
  predicate Seamless(pending: seq<Byte>, chunks: seq<seq<Byte>>)
    decreases |chunks|
  {
    if chunks == [] then true
    else if Find(pending, 0).None? then Seamless(pending + chunks[0], chunks[1..])
    else
      || Flatten(chunks) == []
      || (Seam(pending, Flatten(chunks)) && Seamless(chunks[0], chunks[1..]))
  }

  /** The unit at `p` is the last one of `u`; appended bytes leave it alone exactly at a seam. */
  lemma LastUnitEndsAtSeam(u: seq<Byte>, r: seq<Byte>, p: nat)
    requires r != [] && StartCodeAt(u, p) && Find(u, p + 3).None?
    ensures EndOf(u + r, p) == |u| <==> Seam(u, r)
  {
    var s := u + r;
    FindFinds(u, p + 3);
    FindFinds(s, p + 3);
    assert forall i: nat :: StartCodeAt(r, i) <==> StartCodeAt(s, |u| + i);
    if Seam(u, r) {
      forall i: nat | p + 3 <= i < |u| ensures !StartCodeAt(s, i) {
        assert !StartCodeAt(u, i);
        assert s[|u|] == 0 && s[|u| + 1] == 0;
      }
      assert StartCodeAt(r, 0);
      FindFrom(s, p + 3, |u|);
    }
    if EndOf(s, p) == |u| {
      assert StartCodeAt(s, |u|);
      assert StartCodeAt(r, 0);
      if !FourByteCodeAt(r, 0) && u[|u| - 1] == 0 {
        assert |u| - 1 >= p + 3;
        assert FourByteCodeAt(s, |u| - 1);
        assert StartCodeAt(s, |u| - 1);
      }
    }
  }

  /** The case of the lemma below where `u` holds a single unit, perhaps after other bytes. */
  lemma SplitAtSeamLast(u: seq<Byte>, r: seq<Byte>, p: nat)
    requires Find(u, 0) == Some(p) && Find(u, p + 3).None? && r != []
    ensures Split(u) <= Split(u + r) <==> Seam(u, r)
    ensures Seam(u, r) ==> Split(u + r) == Split(u) + Split(r)
  {
    var s := u + r;
    FindFinds(u, 0);
    FindStable(u, r, 0);
    LastUnitEndsAtSeam(u, r, p);
    var e := EndOf(s, p);
    assert Split(s) == [s[p..e]] + Split(s[e..]);
    assert Split(u) == [u[p..]] by {
      assert u[p..|u|] == u[p..] && u[|u|..] == [] && Split([]) == [];
    }
    if Seam(u, r) {
      assert s[p..e] == u[p..] && s[e..] == r;
    } else {
      assert |Split(s)[0]| != |Split(u)[0]|;
    }
  }

  lemma ConsPrefix<T>(x: T, a: seq<T>, b: seq<T>)
    ensures [x] + a <= [x] + b <==> a <= b
  {
    if [x] + a <= [x] + b {
      assert a == ([x] + a)[1..] && b == ([x] + b)[1..];
    }
  }

  /** Splitting a stream keeps the units of a leading part exactly when that part ends at a seam,
      and then the rest is split on its own. */
  lemma {:induction false} SplitAtSeam(u: seq<Byte>, r: seq<Byte>)
    requires Find(u, 0).Some? && r != []
    ensures Split(u) <= Split(u + r) <==> Seam(u, r)
    ensures Seam(u, r) ==> Split(u + r) == Split(u) + Split(r)
    decreases |u|
  {
    var p := Find(u, 0).value;
    if Find(u, p + 3).None? {
      SplitAtSeamLast(u, r, p);
    } else {
      var e := EndOf(u, p);
      var v := u[e..];
      FindStable(u, r, 0);
      FindStable(u, r, p + 3);
      RestBegins(u, p);
      SplitAtSeam(v, r);
      assert (u + r)[p..e] == u[p..e] && (u + r)[e..] == v + r;
      ConsPrefix(u[p..e], Split(v), Split(v + r));
    }
  }

  /** Incremental extraction agrees with splitting the whole stream at once if and only if every
      place where the reader runs dry is a seam. */
  lemma {:induction false} ChunkingInvisibleIff(pending: seq<Byte>, chunks: seq<seq<Byte>>)
    ensures Nalus(pending, chunks) == Split(pending + Flatten(chunks)) <==> Seamless(pending, chunks)
    decreases |chunks|
  {
    var rest := Flatten(chunks);
    if chunks == [] {
      assert pending + rest == pending;
    } else if Find(pending, 0).None? {
      ChunkingInvisibleIff(pending + chunks[0], chunks[1..]);
      assert pending + rest == (pending + chunks[0]) + Flatten(chunks[1..]);
    } else {
      DrainThenRead(pending, chunks);
      if rest == [] {
        FlattenEmpty(chunks);
        assert pending + rest == pending;
      } else {
        SplitAtSeam(pending, rest);
        assert [] + chunks[0] == chunks[0];
        ChunkingInvisibleIff(chunks[0], chunks[1..]);
        assert Nalus([], chunks) == Nalus(chunks[0], chunks[1..]);
        var a, b, c := Split(pending), Nalus([], chunks), Split(rest);
        if Seam(pending, rest) {
          assert a + b == a + c <==> b == c by {
            if a + b == a + c { assert (a + b)[|a|..] == b && (a + c)[|a|..] == c; }
          }
        } else {
          assert a <= a + b;
        }
      }
    }
  }

  /** Chunking can be visible: a zero byte at the end of a chunk stays with the earlier unit when the stream
      is read in two chunks, and goes to the next start code when it is split at once. */
  lemma ChunkingVisible(x: Byte, y: Byte)
    requires x > 1
    ensures var a, b := [0, 0, 1, x, 0], [0, 0, 1, y];
            Nalus([], [a, b]) != Split(a + b)
  {
    var a, b := [0, 0, 1, x, 0], [0, 0, 1, y];
    var chunks := [a, b];
    assert chunks[1..] == [b];
    FlattenOne(b);
    assert Flatten(chunks) == a + b && [] + (a + b) == a + b;
    assert Find(a, 0).Some? by { FindFrom(a, 0, 0); }
    assert !Seam(a, b);
    assert !Seamless(a, [b]);
    assert [] + chunks[0] == a;
    ChunkingInvisibleIff([], chunks);
  }
}
