/** Image reconciliation of the project update handler: which images the
    project keeps, its final image list and the images to delete. */
module Reconcile {
  import opened Seqs
  import opened Multipart

  /** `img && img !== ""`: drops the empty entries. */
  function NonEmpty(images: seq<string>): (r: seq<string>)
    ensures forall x :: x in r <==> x in images && x != ""
    ensures IsSubsequence(r, images)
    ensures NoEmptyEntries(r)
  {
    var r := Filter(images, (img: string) => img != "");
    assert forall i :: 0 <= i < |r| ==> r[i] in r;
    r
  }

  /** The filter keeps every copy of a non-empty entry: a repeated URL stays repeated. */
  lemma NonEmptyCounts(images: seq<string>)
    ensures forall x :: multiset(NonEmpty(images))[x] == if x != "" then multiset(images)[x] else 0
  {
    FilterCounts(images, (img: string) => img != "");
  }

  predicate NoEmptyEntries(images: seq<string>)
  {
    forall i :: 0 <= i < |images| ==> images[i] != ""
  }

  /** The keep list decoded from `req.body.existingImages`, rebinding it step by
      step as the handler does: a missing field stands for all previous images,
      `""` for none, a single string for itself; then empty entries are dropped. */
  function KeptImages(keep: BodyValue, previous: seq<string>): (r: seq<string>)
    ensures NoEmptyEntries(r)
    ensures keep.Absent? ==> IsSubsequence(r, previous)
  {
    var existing := match keep
      case Absent => Arr(previous)
      case Str(s) => if s == "" then Arr([]) else keep
      case Arr(_) => keep;
    var asArray := if existing.Arr? then existing.items else [existing.s];
    NonEmpty(asArray)
  }

  datatype Reconciliation = Reconciliation(finalImages: seq<string>, toDelete: seq<string>)

  /** `finalImages = [...existingImages, ...newImageUrls]`, and `imagesToDelete`:
      the previous images missing from the final list. */
  function ReconcileImages(previous: seq<string>, keep: BodyValue, uploads: seq<string>): (r: Reconciliation)
    ensures forall x :: x in r.toDelete <==> x in previous && x !in r.finalImages
    ensures IsSubsequence(r.toDelete, previous)
    ensures forall x :: multiset(r.toDelete)[x] == if x in r.finalImages then 0 else multiset(previous)[x]
    ensures forall x :: x in r.finalImages <==> x in KeptImages(keep, previous) || x in uploads
  {
    var finalImages := KeptImages(keep, previous) + uploads;
    FilterCounts(previous, (img: string) => img !in finalImages);
    Reconciliation(finalImages, Filter(previous, (img: string) => img !in finalImages))
  }

  /** The keep field decodes as the handler's four wire shapes promise:
      absent keeps the previous images, `""` keeps none, a single non-empty string
      keeps itself, an array keeps its non-empty entries in order. */
  lemma KeptImagesCases(keep: BodyValue, previous: seq<string>)
    ensures keep.Absent? ==> KeptImages(keep, previous) == NonEmpty(previous)
    ensures keep == Str("") ==> KeptImages(keep, previous) == []
    ensures keep.Str? && keep.s != "" ==> KeptImages(keep, previous) == [keep.s]
    ensures keep.Arr? ==> KeptImages(keep, previous) == NonEmpty(keep.items)
  {
    if keep.Str? && keep.s != "" {
      assert NonEmpty([keep.s]) == [keep.s] + NonEmpty([]);
    }
  }

  /** The final list is the kept images followed by the uploads, each in its own order. */
  lemma FinalImagesOrder(previous: seq<string>, keep: BodyValue, uploads: seq<string>)
    ensures var r := ReconcileImages(previous, keep, uploads);
            var kept := KeptImages(keep, previous);
            |r.finalImages| == |kept| + |uploads|
            && r.finalImages[..|kept|] == kept && r.finalImages[|kept|..] == uploads
  {
  }

  /** With the keep field absent and nothing uploaded, an image list without empty
      entries is left as it was and nothing is deleted. */
  lemma {:induction false} AbsentKeepsEverything(previous: seq<string>)
    requires NoEmptyEntries(previous)
    ensures ReconcileImages(previous, Absent, []) == Reconciliation(previous, [])
  {
    FilterKeepsAll(previous, (img: string) => img != "");
    var r := ReconcileImages(previous, Absent, []);
    assert r.finalImages == previous;
    NoMemberIsEmpty(r.toDelete);
  }

  /** With the keep field absent, the uploads are appended and nothing is deleted. */
  lemma AbsentAppendsUploads(previous: seq<string>, uploads: seq<string>)
    requires NoEmptyEntries(previous)
    ensures ReconcileImages(previous, Absent, uploads) == Reconciliation(previous + uploads, [])
  {
    FilterKeepsAll(previous, (img: string) => img != "");
    var r := ReconcileImages(previous, Absent, uploads);
    NoMemberIsEmpty(r.toDelete);
  }

  /** An explicit `""` discards every previous image: the final list is the uploads
      alone, and every previous image not re-uploaded is deleted, in order. */
  lemma {:induction false} ExplicitEmptyDiscardsAll(previous: seq<string>, uploads: seq<string>)
    ensures ReconcileImages(previous, Str(""), uploads).finalImages == uploads
    ensures ReconcileImages(previous, Str(""), uploads).toDelete == Filter(previous, (img: string) => img !in uploads)
    ensures (forall x :: x in previous ==> x !in uploads) ==> ReconcileImages(previous, Str(""), uploads).toDelete == previous
  {
    assert KeptImages(Str(""), previous) == [];
    assert [] + uploads == uploads;
    var f := (img: string) => img !in uploads;
    if forall x :: x in previous ==> x !in uploads {
      FilterKeepsAll(previous, f);
    }
  }

  /** Re-submitting the final list as the keep list with no new uploads changes
      nothing and deletes nothing. */
  lemma {:induction false} ReconcileIdempotent(previous: seq<string>, keep: BodyValue, uploads: seq<string>)
    requires NoEmptyEntries(uploads)
    ensures var first := ReconcileImages(previous, keep, uploads);
            ReconcileImages(first.finalImages, Arr(first.finalImages), []) == Reconciliation(first.finalImages, [])
  {
    var first := ReconcileImages(previous, keep, uploads);
    var fin := first.finalImages;
    assert NoEmptyEntries(fin);
    FilterKeepsAll(fin, (img: string) => img != "");
    var second := ReconcileImages(fin, Arr(fin), []);
    assert second.finalImages == fin;
    NoMemberIsEmpty(second.toDelete);
  }

  /** The example of a keep list and one upload: images [a, b, c], keep [a, c],
      upload d gives [a, c, d] and deletes b. */
  lemma KeepTwoUploadOne()
    ensures ReconcileImages(["a", "b", "c"], Arr(["a", "c"]), ["d"]) == Reconciliation(["a", "c", "d"], ["b"])
  {
    var fin := ["a", "c", "d"];
    assert KeptImages(Arr(["a", "c"]), ["a", "b", "c"]) == ["a", "c"] by {
      FilterKeepsAll(["a", "c"], (img: string) => img != "");
    }
    assert ["a", "c"] + ["d"] == fin;
    var f := (img: string) => img !in fin;
    assert Filter(["a", "b", "c"], f) == ["b"] by {
      assert ["a", "b", "c"][1..] == ["b", "c"];
      assert ["b", "c"][1..] == ["c"];
      assert ["c"][1..] == [];
    }
  }

  /** The final list is not de-duplicated: a keep list that repeats an image, or an
      upload that repeats a kept one, yields a repeated entry. */
  lemma FinalImagesKeepDuplicates()
    ensures ReconcileImages(["a"], Arr(["a", "a"]), []).finalImages == ["a", "a"]
    ensures ReconcileImages(["a"], Str("a"), ["a"]).finalImages == ["a", "a"]
  {
    FilterKeepsAll(["a", "a"], (img: string) => img != "");
    FilterKeepsAll(["a"], (img: string) => img != "");
  }

  /** The keep list is not checked against the previous images: a URL the project
      never had is kept all the same. */
  lemma KeepListNotChecked()
    ensures ReconcileImages([], Str("x"), []).finalImages == ["x"]
  {
    FilterKeepsAll(["x"], (img: string) => img != "");
  }
}
