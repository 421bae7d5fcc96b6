/**
 * `GetFilesToBeProcessed` (internal/fileservice/service/service.go): the
 * incremental filter that keeps the candidates modified after the newest
 * destination object, comparing `Updated.String()` renderings as Go strings.
 */
module Watermark {
  import opened Models
  import opened GoStrings
  import Selection

  /** `a >= b` in Go's string order. */
  predicate AtLeast(a: string, b: string) { !LexLess(a, b) }

  /** The greatest string of a non-empty sequence in Go's string order. */
  function Latest(ts: seq<string>): (w: string)
    requires |ts| > 0
    ensures w in ts
    ensures forall t :: t in ts ==> AtLeast(w, t)
  {
    if |ts| == 1 then
      LexLessIrreflexive(ts[0]);
      ts[0]
    else
      var rest := Latest(ts[1..]);
      assert forall t :: t in ts ==> t == ts[0] || t in ts[1..];
      if LexLess(ts[0], rest) then
        LexLessIrreflexive(rest);
        forall t | t in ts[1..] && LexLess(rest, t) ensures false { }
        forall t | t == ts[0] ensures AtLeast(rest, t) { LexLessAsymmetric(ts[0], rest); }
        rest
      else
        LexLessIrreflexive(ts[0]);
        forall t | t in ts[1..] ensures AtLeast(ts[0], t) {
          if LexLess(ts[0], t) { LexLessTotal(ts[0], rest); LexLessTransitive(rest, ts[0], t); }
        }
        ts[0]
  }

  /** Only one element of a sequence is at least every element: the watermark is well defined. */
  lemma LatestUnique(ts: seq<string>, w: string)
    requires w in ts && forall t :: t in ts ==> AtLeast(w, t)
    ensures w == Latest(ts)
  {
    var l := Latest(ts);
    if w != l {
      LexLessTotal(w, l);
    }
  }

  /** The candidates whose updated-string is strictly greater than the watermark, in candidate order. */
  function KeepNewer(cs: seq<FileMetadata>, watermark: string): seq<FileMetadata>
  {
    if cs == [] then []
    else
      var last := cs[|cs| - 1];
      KeepNewer(cs[..|cs| - 1], watermark) + (if LexLess(watermark, last.Updated.text) then [last] else [])
  }

  /** What `GetFilesToBeProcessed` returns: everything for an empty destination, else the strictly newer candidates. */
  function FilesToBeProcessed(cs: seq<FileMetadata>, stamps: seq<string>): seq<FileMetadata>
  {
    if |stamps| == 0 then cs else KeepNewer(cs, Latest(stamps))
  }

  lemma {:induction false} KeepNewerMembers(cs: seq<FileMetadata>, watermark: string, c: FileMetadata)
    ensures c in KeepNewer(cs, watermark) <==> c in cs && LexLess(watermark, c.Updated.text)
  {
    if cs != [] {
      var init := cs[..|cs| - 1];
      assert cs == init + [cs[|cs| - 1]];
      KeepNewerMembers(init, watermark, c);
    }
  }

  lemma {:induction false} KeepNewerSubsequence(cs: seq<FileMetadata>, watermark: string)
    ensures Selection.IsSubsequence(KeepNewer(cs, watermark), cs)
  {
    if cs != [] {
      var init := cs[..|cs| - 1];
      KeepNewerSubsequence(init, watermark);
      var s := KeepNewer(cs, watermark);
      if s != KeepNewer(init, watermark) {
        assert s[..|s| - 1] == KeepNewer(init, watermark);
      }
    }
  }

  /**
   * With destination stamps, a candidate is kept exactly when its updated-string
   * is strictly greater than every destination stamp; order is preserved.
   */
  lemma FilesToBeProcessedIff(cs: seq<FileMetadata>, stamps: seq<string>, c: FileMetadata)
    requires |stamps| > 0
    ensures c in FilesToBeProcessed(cs, stamps) <==>
      c in cs && forall t :: t in stamps ==> LexLess(t, c.Updated.text)
    ensures Selection.IsSubsequence(FilesToBeProcessed(cs, stamps), cs)
  {
    var w := Latest(stamps);
    KeepNewerMembers(cs, w, c);
    KeepNewerSubsequence(cs, w);
    if c in cs && LexLess(w, c.Updated.text) {
      forall t | t in stamps ensures LexLess(t, c.Updated.text) {
        if t != w {
          LexLessTotal(t, w);
          LexLessTransitive(t, w, c.Updated.text);
        }
      }
    }
  }

  /** An empty destination lets every candidate through, unchanged and in order. */
  lemma EmptyDestinationKeepsAll(cs: seq<FileMetadata>)
    ensures FilesToBeProcessed(cs, []) == cs
  {
  }

  /**
   * A rerun selects nothing: if every candidate's updated-string is at most
   * some destination stamp, the result is empty. Equal stamps are excluded.
   */
  lemma {:induction false} RerunIsNoOp(cs: seq<FileMetadata>, stamps: seq<string>)
    requires |stamps| > 0
    requires forall c :: c in cs ==> exists t :: t in stamps && AtLeast(t, c.Updated.text)
    ensures FilesToBeProcessed(cs, stamps) == []
  {
    var w := Latest(stamps);
    var r := KeepNewer(cs, w);
    if r != [] {
      var c := r[0];
      KeepNewerMembers(cs, w, c);
      var t :| t in stamps && AtLeast(t, c.Updated.text);
      if t == c.Updated.text {
        LexLessAsymmetric(w, t);
      } else {
        LexLessTotal(t, c.Updated.text);
        if t != w {
          LexLessTotal(t, w);
          LexLessTransitive(c.Updated.text, t, w);
          LexLessAsymmetric(c.Updated.text, w);
        } else {
          LexLessAsymmetric(w, c.Updated.text);
        }
      }
    }
  }

  // ------------------------------------------------------------ the in-place sort

  /** Descending in Go's string order. */
  predicate SortedDescending(s: seq<string>) {
    forall p, q :: 0 <= p < q < |s| ==> AtLeast(s[p], s[q])
  }

  /** The position of a greatest element of `a[from..]`. */
  method IndexOfLatest(a: array<string>, from: nat) returns (m: nat)
    requires from < a.Length
    ensures from <= m < a.Length
    ensures forall q :: from <= q < a.Length ==> AtLeast(a[m], a[q])
  {
    m := from;
    LexLessIrreflexive(a[m]);
    var j := from + 1;
    while j < a.Length
      invariant from <= m < j <= a.Length
      invariant forall q :: from <= q < j ==> AtLeast(a[m], a[q])
    {
      if LexLess(a[m], a[j]) {
        forall q | from <= q < j ensures AtLeast(a[j], a[q]) {
          if LexLess(a[j], a[q]) { LexLessTransitive(a[m], a[j], a[q]); }
        }
        LexLessIrreflexive(a[j]);
        m := j;
      }
      j := j + 1;
    }
  }

  /**
   * `sort.Slice(stamps, func(i, j int) bool { return stamps[i] > stamps[j] })`:
   * sorts the caller's slice in place, descending. The result is unique, so the
   * choice of algorithm (here selection sort) does not matter.
   */
  method SortDescending(a: array<string>)
    modifies a
    ensures SortedDescending(a[..])
    ensures multiset(a[..]) == multiset(old(a[..]))
  {
    var n := a.Length;
    var i := 0;
    while i < n
      invariant 0 <= i <= n
      invariant SelectedPrefix(a[..], i)
      invariant multiset(a[..]) == multiset(old(a[..]))
    {
      var m := IndexOfLatest(a, i);
      ghost var before := a[..];
      a[i], a[m] := a[m], a[i];
      SelectStep(before, a[..], i, m);
      i := i + 1;
    }
    assert a[..] == a[..][..n];
  }

  /**
   * The selection sort's invariant: the first `i` elements are in place,
   * descending, and none of the remaining ones is greater than any of them.
   */
  predicate SelectedPrefix(s: seq<string>, i: nat) {
    i <= |s| &&
    SortedDescending(s[..i]) &&
    forall p, q :: 0 <= p < i <= q < |s| ==> AtLeast(s[p], s[q])
  }

  /** Swapping a greatest remaining element into position `i` extends the selected prefix by one. */
  lemma SelectStep(before: seq<string>, after: seq<string>, i: nat, m: nat)
    requires i <= m < |before| && SelectedPrefix(before, i)
    requires forall q :: i <= q < |before| ==> AtLeast(before[m], before[q])
    requires after == before[i := before[m]][m := before[i]]
    ensures SelectedPrefix(after, i + 1)
    ensures multiset(after) == multiset(before)
  {
    var prefix := after[..i + 1];
    forall p, q | 0 <= p < q < i + 1 ensures AtLeast(prefix[p], prefix[q]) {
      if q == i {
        assert after[q] == before[m];
        assert after[p] == before[p];
      } else {
        assert after[p] == before[p] && after[q] == before[q];
        assert before[..i][p] == before[p] && before[..i][q] == before[q];
      }
    }
    forall p, q | 0 <= p < i + 1 <= q < |after| ensures AtLeast(after[p], after[q]) {
      if p == i {
        assert after[p] == before[m];
        if q == m { assert after[q] == before[i]; } else { assert after[q] == before[q]; }
      } else {
        assert after[p] == before[p];
        if q == m { assert after[q] == before[i]; } else { assert after[q] == before[q]; }
      }
    }
  }

  /** After sorting, element 0 is the maximum of the original stamps. */
  lemma SortedHeadIsLatest(sorted: seq<string>, original: seq<string>)
    requires |sorted| > 0 && SortedDescending(sorted) && multiset(sorted) == multiset(original)
    ensures |original| > 0 && sorted[0] == Latest(original)
  {
    assert sorted[0] in multiset(original);
    forall t | t in original ensures AtLeast(sorted[0], t) {
      assert t in multiset(sorted);
      var k :| 0 <= k < |sorted| && sorted[k] == t;
      if k == 0 { LexLessIrreflexive(t); }
    }
    LatestUnique(original, sorted[0]);
  }

  /**
   * `GetFilesToBeProcessed`: with no destination stamps every candidate is
   * returned; otherwise the caller's slice is sorted descending in place, its
   * element 0 is the watermark, and the candidates strictly newer than it are
   * returned in order.
   */
  method GetFilesToBeProcessed(csvFilesFromOriginBucket: seq<FileMetadata>, updatedTimeFromDestinationBucket: array<string>)
    returns (filesToBeProcessed: seq<FileMetadata>)
    modifies updatedTimeFromDestinationBucket
    ensures filesToBeProcessed == FilesToBeProcessed(csvFilesFromOriginBucket, old(updatedTimeFromDestinationBucket[..]))
    ensures SortedDescending(updatedTimeFromDestinationBucket[..])
    ensures multiset(updatedTimeFromDestinationBucket[..]) == multiset(old(updatedTimeFromDestinationBucket[..]))
  {
    var stamps := updatedTimeFromDestinationBucket;
    filesToBeProcessed := [];
    if stamps.Length > 0 {
      SortDescending(stamps);
      var latestUploadedFile := stamps[0];
      SortedHeadIsLatest(stamps[..], old(stamps[..]));
      var i := 0;
      while i < |csvFilesFromOriginBucket|
        invariant 0 <= i <= |csvFilesFromOriginBucket|
        invariant filesToBeProcessed == KeepNewer(csvFilesFromOriginBucket[..i], latestUploadedFile)
      {
        assert csvFilesFromOriginBucket[..i + 1][..i] == csvFilesFromOriginBucket[..i];
        var f := csvFilesFromOriginBucket[i];
        if LexLess(latestUploadedFile, f.Updated.text) {
          filesToBeProcessed := filesToBeProcessed + [f];
        }
        i := i + 1;
      }
      assert csvFilesFromOriginBucket[..i] == csvFilesFromOriginBucket;
    } else {
      filesToBeProcessed := filesToBeProcessed + csvFilesFromOriginBucket;
    }
  }
}
