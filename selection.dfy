/**
 * `GetCsvFiles` and `GetTimestampFromLatestUploadedFiles`
 * (internal/fileservice/service/service.go): reading the origin and destination
 * listings.
 */
module Selection {
  import opened Wrappers
  import opened Models
  import opened GoStrings

  const MarkerSuffix: string := ".done"
  const ArchiveSuffix: string := ".csv.gz"

  // ------------------------------------------------------------ specification

  /** The objects of a listing that ended without an error, in listing order. */
  function Objects(listing: seq<ListEntry>): seq<FileMetadata>
  {
    if listing == [] then []
    else
      var last := listing[|listing| - 1];
      Objects(listing[..|listing| - 1]) + (if last.Object? then [last.attrs] else [])
  }

  predicate NoListError(listing: seq<ListEntry>) {
    forall i :: 0 <= i < |listing| ==> listing[i].Object?
  }

  /** Some object of `objects` is the completion marker `base + ".done"`, whatever its size. */
  predicate HasMarker(objects: seq<FileMetadata>, base: string) {
    exists m :: m in objects && m.Name == base + MarkerSuffix
  }

  /**
   * The eligibility rule: `X.csv.gz` qualifies when it is not empty and the
   * listing holds a marker named `X.done`.
   */
  predicate Eligible(o: FileMetadata, objects: seq<FileMetadata>) {
    HasSuffix(o.Name, ArchiveSuffix) && o.Size > 0 && HasMarker(objects, CutSuffix(o.Name, ArchiveSuffix).0)
  }

  /** The elements of `xs` eligible with respect to `objects`, in their order. */
  function SelectEligible(xs: seq<FileMetadata>, objects: seq<FileMetadata>): seq<FileMetadata>
  {
    if xs == [] then []
    else
      var last := xs[|xs| - 1];
      SelectEligible(xs[..|xs| - 1], objects) + (if Eligible(last, objects) then [last] else [])
  }

  /** The candidate archives of a listing's objects. */
  function Candidates(objects: seq<FileMetadata>): seq<FileMetadata>
  {
    SelectEligible(objects, objects)
  }

  // ------------------------------------------------------------ the first loop's state

  /** The objects the first loop copies into `filesMetadata`. */
  predicate Staged(o: FileMetadata)
    ensures HasSuffix(o.Name, ArchiveSuffix) && o.Size > 0 ==> Staged(o)
  {
    assert HasSuffix(o.Name, ArchiveSuffix) ==> HasSuffix(o.Name, ".gz") by {
      if HasSuffix(o.Name, ArchiveSuffix) { ArchiveIsNotMarker(o.Name); }
    }
    HasSuffix(o.Name, MarkerSuffix) || (HasSuffix(o.Name, ".gz") && o.Size > 0)
  }

  function StagedObjects(xs: seq<FileMetadata>): seq<FileMetadata>
  {
    if xs == [] then []
    else
      var last := xs[|xs| - 1];
      StagedObjects(xs[..|xs| - 1]) + (if Staged(last) then [last] else [])
  }

  /** The names of the markers with `.done` cut off: the contents of `doneFiles`. */
  function MarkerBases(xs: seq<FileMetadata>): seq<string>
  {
    if xs == [] then []
    else
      var last := xs[|xs| - 1];
      MarkerBases(xs[..|xs| - 1]) + (if HasSuffix(last.Name, MarkerSuffix) then [CutSuffix(last.Name, MarkerSuffix).0] else [])
  }

  /** The second loop: the staged objects ending in `.csv.gz` whose stem is among the marker bases. */
  function Paired(fs: seq<FileMetadata>, doneFiles: seq<string>): seq<FileMetadata>
  {
    if fs == [] then []
    else
      var f := fs[|fs| - 1];
      var (stem, isValid) := CutSuffix(f.Name, ArchiveSuffix);
      Paired(fs[..|fs| - 1], doneFiles) + (if isValid && stem in doneFiles then [f] else [])
  }

  // ------------------------------------------------------------ lemmas

  /** A stem is among the marker bases exactly when the listing holds `stem + ".done"`. */
  lemma {:induction false} MarkerBasesIff(xs: seq<FileMetadata>, stem: string)
    ensures stem in MarkerBases(xs) <==> HasMarker(xs, stem)
  {
    if xs != [] {
      var init, last := xs[..|xs| - 1], xs[|xs| - 1];
      assert xs == init + [last];
      MarkerBasesIff(init, stem);
      SuffixStem(last.Name, stem, MarkerSuffix);
      if HasMarker(xs, stem) && !HasMarker(init, stem) {
        var m :| m in xs && m.Name == stem + MarkerSuffix;
        assert m == last;
      }
    }
  }

  /** An archive name never ends in `.done`. */
  lemma ArchiveIsNotMarker(name: string)
    requires HasSuffix(name, ArchiveSuffix)
    ensures !HasSuffix(name, MarkerSuffix) && HasSuffix(name, ".gz")
  {
    assert name[|name| - 1] == ArchiveSuffix[6] == 'z';
    assert name[|name| - 3..] == ArchiveSuffix[4..];
  }

  /** The two loops together compute the candidates of the listing. */
  lemma {:induction false} PairedStagedIsEligible(xs: seq<FileMetadata>, objects: seq<FileMetadata>)
    ensures Paired(StagedObjects(xs), MarkerBases(objects)) == SelectEligible(xs, objects)
  {
    if xs != [] {
      var init, last := xs[..|xs| - 1], xs[|xs| - 1];
      PairedStagedIsEligible(init, objects);
      var done := MarkerBases(objects);
      var stem := CutSuffix(last.Name, ArchiveSuffix).0;
      MarkerBasesIff(objects, stem);
      if HasSuffix(last.Name, ArchiveSuffix) { ArchiveIsNotMarker(last.Name); }
      if Staged(last) {
        var s := StagedObjects(init) + [last];
        assert s[..|s| - 1] == StagedObjects(init);
        assert Paired(s, done) == Paired(StagedObjects(init), done) +
          (if CutSuffix(last.Name, ArchiveSuffix).1 && stem in done then [last] else []);
      } else {
        assert StagedObjects(xs) == StagedObjects(init);
      }
    }
  }

  /** `SelectEligible` keeps exactly the eligible elements. */
  lemma {:induction false} SelectEligibleMembers(xs: seq<FileMetadata>, objects: seq<FileMetadata>, o: FileMetadata)
    ensures o in SelectEligible(xs, objects) <==> o in xs && Eligible(o, objects)
  {
    if xs != [] {
      var init := xs[..|xs| - 1];
      assert xs == init + [xs[|xs| - 1]];
      SelectEligibleMembers(init, objects, o);
    }
  }

  /**
   * The candidate rule: an object is returned exactly when it is in the listing,
   * its name ends in `.csv.gz`, its size is positive, and the listing holds a
   * marker named after the stem with `.done` appended.
   */
  lemma CandidatesIff(objects: seq<FileMetadata>, o: FileMetadata)
    ensures o in Candidates(objects) <==>
      o in objects && HasSuffix(o.Name, ArchiveSuffix) && o.Size > 0 &&
      exists m :: m in objects && m.Name == CutSuffix(o.Name, ArchiveSuffix).0 + MarkerSuffix
  {
    SelectEligibleMembers(objects, objects, o);
  }

  /** Filtering keeps order: the result is a subsequence of its input, element by element. */
  predicate IsSubsequence<T(==)>(a: seq<T>, b: seq<T>)
    decreases |b|
  {
    a == [] ||
    (b != [] &&
     ((a[|a| - 1] == b[|b| - 1] && IsSubsequence(a[..|a| - 1], b[..|b| - 1])) || IsSubsequence(a, b[..|b| - 1])))
  }

  lemma {:induction false} SelectEligibleSubsequence(xs: seq<FileMetadata>, objects: seq<FileMetadata>)
    ensures IsSubsequence(SelectEligible(xs, objects), xs)
  {
    if xs != [] {
      var init, last := xs[..|xs| - 1], xs[|xs| - 1];
      SelectEligibleSubsequence(init, objects);
      var s := SelectEligible(xs, objects);
      if Eligible(last, objects) {
        assert s[..|s| - 1] == SelectEligible(init, objects);
      } else {
        assert s == SelectEligible(init, objects);
      }
    }
  }

  /** The result of `GetCsvFiles` is a subsequence of the listing: listing order, every record copied unchanged. */
  lemma CandidatesInListingOrder(objects: seq<FileMetadata>)
    ensures IsSubsequence(Candidates(objects), objects)
  {
    SelectEligibleSubsequence(objects, objects);
  }

  /** A marker must be named `X.done`: `a.csv.gz.done` does not qualify `a.csv.gz`, `a.done` does. */
  lemma MarkerNamingExample(t: Timestamp)
    ensures Candidates([FileMetadata("a.csv.gz", 10, t), FileMetadata("a.csv.gz.done", 0, t)]) == []
    ensures Candidates([FileMetadata("a.csv.gz", 10, t), FileMetadata("a.done", 0, t)]) == [FileMetadata("a.csv.gz", 10, t)]
  {
    var a := FileMetadata("a.csv.gz", 10, t);
    var wrong := [a, FileMetadata("a.csv.gz.done", 0, t)];
    var right := [a, FileMetadata("a.done", 0, t)];
    assert "a.csv.gz" == "a" + ArchiveSuffix;
    CutSuffixOfAppend("a", ArchiveSuffix);
    assert Eligible(a, wrong) == HasMarker(wrong, "a");
    assert !HasMarker(wrong, "a") by {
      assert wrong[0].Name != "a.done" && wrong[1].Name != "a.done";
    }
    assert HasMarker(right, "a") by {
      assert right[1] in right && right[1].Name == "a" + MarkerSuffix;
    }
    assert !HasSuffix("a.done", ArchiveSuffix);
    assert !HasSuffix("a.csv.gz.done", ArchiveSuffix);
    assert wrong[..1] == [a] && right[..1] == [a] && [a][..0] == [];
    assert !Eligible(a, wrong);
    assert !Eligible(wrong[1], wrong);
    assert SelectEligible([a], wrong) == [];
    assert SelectEligible(wrong, wrong) == SelectEligible([a], wrong);
    assert SelectEligible(right, right) == SelectEligible([a], right);
  }

  /** A zero-byte archive is never a candidate, even with its marker present. */
  lemma EmptyArchiveExcluded(objects: seq<FileMetadata>, o: FileMetadata)
    requires o.Size <= 0
    ensures o !in Candidates(objects)
  {
    SelectEligibleMembers(objects, objects, o);
  }

  /** One more object in the listing, as the first loop sees it. */
  lemma ListingStep(listing: seq<ListEntry>, i: nat)
    requires i < |listing| && listing[i].Object?
    ensures Objects(listing[..i + 1]) == Objects(listing[..i]) + [listing[i].attrs]
    ensures NoListError(listing[..i]) ==> NoListError(listing[..i + 1])
  {
    assert listing[..i + 1][..i] == listing[..i];
  }

  lemma StagedStep(xs: seq<FileMetadata>, o: FileMetadata)
    ensures Staged(o) ==> StagedObjects(xs + [o]) == StagedObjects(xs) + [o]
    ensures !Staged(o) ==> StagedObjects(xs + [o]) == StagedObjects(xs)
    ensures HasSuffix(o.Name, MarkerSuffix) ==>
      MarkerBases(xs + [o]) == MarkerBases(xs) + [CutSuffix(o.Name, MarkerSuffix).0]
    ensures !HasSuffix(o.Name, MarkerSuffix) ==> MarkerBases(xs + [o]) == MarkerBases(xs)
  {
    assert (xs + [o])[..|xs|] == xs;
  }

  lemma PairedStep(fs: seq<FileMetadata>, j: nat, doneFiles: seq<string>)
    requires j < |fs|
    ensures var (stem, isValid) := CutSuffix(fs[j].Name, ArchiveSuffix);
      (isValid && stem in doneFiles ==> Paired(fs[..j + 1], doneFiles) == Paired(fs[..j], doneFiles) + [fs[j]]) &&
      (!(isValid && stem in doneFiles) ==> Paired(fs[..j + 1], doneFiles) == Paired(fs[..j], doneFiles))
  {
    assert fs[..j + 1][..j] == fs[..j];
  }

  // ------------------------------------------------------------ the operations

  /**
   * The first loop of `GetCsvFiles`: walk the listing, stopping at an error,
   * and collect the staged objects and the marker stems.
   */
  method StageListing(listing: seq<ListEntry>) returns (listed: bool, filesMetadata: seq<FileMetadata>, doneFiles: seq<string>)
    ensures listed <==> NoListError(listing)
    ensures listed ==> filesMetadata == StagedObjects(Objects(listing))
    ensures listed ==> doneFiles == MarkerBases(Objects(listing))
  {
    filesMetadata, doneFiles := [], [];
    var i := 0;
    ghost var seen: seq<FileMetadata> := [];
    assert listing[..0] == [];
    while i < |listing|
      invariant 0 <= i <= |listing|
      invariant NoListError(listing[..i]) && seen == Objects(listing[..i])
      invariant filesMetadata == StagedObjects(seen)
      invariant doneFiles == MarkerBases(seen)
    {
      if listing[i].ListError? {
        return false, filesMetadata, doneFiles;
      }
      var attrs := listing[i].attrs;
      ListingStep(listing, i);
      StagedStep(seen, attrs);
      if HasSuffix(attrs.Name, MarkerSuffix) || (HasSuffix(attrs.Name, ".gz") && attrs.Size > 0) {
        assert Staged(attrs);
        filesMetadata := filesMetadata + [FileMetadata(attrs.Name, attrs.Size, attrs.Updated)];
        var (doneF, isValid) := CutSuffix(attrs.Name, MarkerSuffix);
        if isValid {
          doneFiles := doneFiles + [doneF];
        }
      } else {
        assert !Staged(attrs) && !HasSuffix(attrs.Name, MarkerSuffix);
      }
      seen := seen + [attrs];
      i := i + 1;
    }
    assert listing[..i] == listing;
    return true, filesMetadata, doneFiles;
  }

  /**
   * `GetCsvFiles`: one pass over the listing collects the markers and the
   * non-empty `.gz` objects, a second pass keeps the `.csv.gz` archives whose
   * stem has a marker. A listing error is fatal.
   */
  method GetCsvFiles(listing: seq<ListEntry>) returns (r: Result<seq<FileMetadata>, FatalError>)
    ensures r.Fatal? <==> !NoListError(listing)
    ensures r.Fatal? ==> r.error == ListingFailed
    ensures r.Ok? ==> r.value == Candidates(Objects(listing))
  {
    var listed, filesMetadata, doneFiles := StageListing(listing);
    if !listed {
      return Fatal(ListingFailed);
    }
    var objects := Objects(listing);

    var csvFilesFromOriginBucket: seq<FileMetadata> := [];
    var j := 0;
    assert filesMetadata[..0] == [];
    while j < |filesMetadata|
      invariant 0 <= j <= |filesMetadata|
      invariant csvFilesFromOriginBucket == Paired(filesMetadata[..j], doneFiles)
    {
      PairedStep(filesMetadata, j, doneFiles);
      var f := filesMetadata[j];
      var (gzFile, isValid) := CutSuffix(f.Name, ArchiveSuffix);
      if isValid && gzFile in doneFiles {
        csvFilesFromOriginBucket := csvFilesFromOriginBucket + [f];
      }
      j := j + 1;
    }
    assert filesMetadata[..j] == filesMetadata;
    PairedStagedIsEligible(objects, objects);
    return Ok(csvFilesFromOriginBucket);
  }

  /** `GetTimestampFromLatestUploadedFiles`: the `Updated.String()` of every destination object, in listing order. */
  method GetTimestampFromLatestUploadedFiles(listing: seq<ListEntry>) returns (r: Result<seq<string>, FatalError>)
    ensures r.Fatal? <==> !NoListError(listing)
    ensures r.Fatal? ==> r.error == ListingFailed
    ensures r.Ok? ==> |r.value| == |listing|
    ensures r.Ok? ==> forall k :: 0 <= k < |listing| ==> r.value[k] == listing[k].attrs.Updated.text
  {
    var updatedTimeFromDestinationBucket: seq<string> := [];
    var i := 0;
    while i < |listing|
      invariant 0 <= i <= |listing|
      invariant NoListError(listing[..i])
      invariant |updatedTimeFromDestinationBucket| == i
      invariant forall k :: 0 <= k < i ==> updatedTimeFromDestinationBucket[k] == listing[k].attrs.Updated.text
    {
      if listing[i].ListError? {
        assert !NoListError(listing);
        return Fatal(ListingFailed);
      }
      updatedTimeFromDestinationBucket := updatedTimeFromDestinationBucket + [listing[i].attrs.Updated.text];
      i := i + 1;
    }
    assert listing[..i] == listing;
    return Ok(updatedTimeFromDestinationBucket);
  }
}
