/** The public site's project cards and their lightbox: which image a card
    shows, which tech badges it shows, and the lightbox's image index. */
module Gallery {
  import opened JsValues
  import opened Repository

  /** The lightbox's image list: the record's images when it has any, else its
      legacy image alone (which may be missing). */
  function GalleryImages(p: Project): (r: seq<Option<string>>)
    ensures |r| >= 1
    ensures |p.images| > 0 ==> |r| == |p.images| && forall i :: 0 <= i < |r| ==> r[i] == Some(p.images[i])
    ensures |p.images| == 0 ==> r == [p.image]
  {
    if |p.images| > 0 then seq(|p.images|, i requires 0 <= i < |p.images| => Some(p.images[i]))
    else [p.image]
  }

  /** The arrows and the thumbnail strip appear only for several images. */
  predicate ShowsNavigation(p: Project)
  {
    |p.images| > 1
  }

  /** `nextImage`'s step on a list of `n` images. */
  function NextIndex(i: nat, n: nat): (r: nat)
    requires n >= 1 && i < n
    ensures r < n
    ensures i < n - 1 ==> r == i + 1
    ensures i == n - 1 ==> r == 0
  {
    ModSmall(i + 1, n);
    (i + 1) % n
  }

  /** `prevImage`'s step on a list of `n` images. */
  function PrevIndex(i: nat, n: nat): (r: nat)
    requires n >= 1 && i < n
    ensures r < n
    ensures 0 < i ==> r == i - 1
    ensures i == 0 ==> r == n - 1
  {
    ModSmall(i - 1 + n, n);
    (i - 1 + n) % n
  }

  /** JavaScript's `%` agrees with Dafny's on these non-negative operands. */
  lemma ModSmall(m: int, n: int)
    requires 1 <= n && 0 <= m < 2 * n
    ensures m % n == if m < n then m else m - n
  {
    if m < n {
      assert m == 0 * n + m;
    } else {
      assert m == 1 * n + (m - n);
    }
  }

  /** Back then forward, or forward then back, returns to the same image. */
  lemma PrevUndoesNext(i: nat, n: nat)
    requires i < n
    ensures PrevIndex(NextIndex(i, n), n) == i
    ensures NextIndex(PrevIndex(i, n), n) == i
  {
  }

  /** `k` presses of the next arrow. */
  function NextTimes(i: nat, n: nat, k: nat): (r: nat)
    requires 1 <= n && i < n
    ensures r < n
  {
    if k == 0 then i else NextIndex(NextTimes(i, n, k - 1), n)
  }

  /** Presses of next add up. */
  lemma {:induction false} NextTimesCompose(i: nat, n: nat, a: nat, b: nat)
    requires 1 <= n && i < n
    ensures NextTimes(i, n, a + b) == NextTimes(NextTimes(i, n, a), n, b)
  {
    if b > 0 {
      NextTimesCompose(i, n, a, b - 1);
    }
  }

  /** Before the end of the list, `k` presses of next advance the index by `k`. */
  lemma {:induction false} NextTimesBelow(i: nat, n: nat, k: nat)
    requires 1 <= n && i + k < n
    ensures NextTimes(i, n, k) == i + k
  {
    if k > 0 {
      NextTimesBelow(i, n, k - 1);
    }
  }

  /** Pressing next as many times as there are images returns to the start:
      the index runs to the last image, wraps to 0, and runs back up. */
  lemma NextCycles(i: nat, n: nat)
    requires 1 <= n && i < n
    ensures NextTimes(i, n, n) == i
  {
    NextTimesCompose(i, n, n - 1 - i, 1 + i);
    NextTimesBelow(i, n, n - 1 - i);
    NextTimesCompose(n - 1, n, 1, i);
    NextTimesBelow(0, n, i);
  }

  /** What a card shows at its top: a photo, or the icon for its position. */
  datatype Cover = Photo(url: string) | Icon(index: nat)

  /** The card cover of the `idx`-th project: its first image, else its legacy
      image, else one of the three icons in turn. */
  function CardCover(p: Project, idx: nat): (r: Cover)
    ensures r.Photo? <==> |p.images| > 0 || Truthy(p.image)
    ensures r.Photo? ==> GalleryImages(p)[0] == Some(r.url)
    ensures r.Icon? ==> r.index == idx % 3 && r.index < 3
  {
    if |p.images| > 0 then Photo(p.images[0])
    else if Truthy(p.image) then Photo(p.image.value)
    else Icon(idx % 3)
  }

  /** A card's tech badges: the first entries, and a count of the rest. */
  datatype Badges = Badges(shown: seq<string>, more: Option<nat>)

  function TechBadges(tech: seq<string>): (r: Badges)
    ensures |r.shown| <= 3 && r.shown <= tech
    ensures |r.shown| == if |tech| > 3 then 3 else |tech|
    ensures r.more.Some? <==> |tech| > 3
    ensures |r.shown| + (if r.more.Some? then r.more.value else 0) == |tech|
  {
    if |tech| > 3 then Badges(tech[..3], Some(|tech| - 3)) else Badges(tech, None)
  }

  /** The lightbox of the projects section. */
  class Lightbox {
    var selected: Option<Project>
    var index: nat

    ghost predicate Valid()
      reads this
    {
      selected.Some? ==> index < |GalleryImages(selected.value)|
    }

    constructor ()
      ensures Valid() && selected == None && index == 0
    {
      selected := None;
      index := 0;
    }

    /** The image shown in the lightbox: the one at the index, or the legacy
        image when the record has no list. */
    function Shown(): (r: Option<string>)
      reads this
      requires Valid() && selected.Some?
      ensures r == GalleryImages(selected.value)[index]
    {
      var p := selected.value;
      if |p.images| > 0 then Some(p.images[index]) else p.image
    }

    /** `openProject`: shows the record from its first image. */
    method Open(p: Project)
      modifies this
      ensures Valid() && selected == Some(p) && index == 0
    {
      selected := Some(p);
      index := 0;
    }

    /** `closeProject`: hides the lightbox; the index is left as it was. */
    method Close()
      requires Valid()
      modifies this`selected
      ensures Valid() && selected == None
    {
      selected := None;
    }

    /** `nextImage`: does nothing without a record. */
    method Next()
      requires Valid()
      modifies this`index
      ensures Valid()
      ensures selected.None? ==> index == old(index)
      ensures selected.Some? ==> index == NextIndex(old(index), |GalleryImages(selected.value)|)
    {
      if selected.None? {
        return;
      }
      index := NextIndex(index, |GalleryImages(selected.value)|);
    }

    /** `prevImage`: does nothing without a record. */
    method Prev()
      requires Valid()
      modifies this`index
      ensures Valid()
      ensures selected.None? ==> index == old(index)
      ensures selected.Some? ==> index == PrevIndex(old(index), |GalleryImages(selected.value)|)
    {
      if selected.None? {
        return;
      }
      index := PrevIndex(index, |GalleryImages(selected.value)|);
    }

    /** A thumbnail click, possible only while the strip is shown. */
    method SelectThumbnail(i: nat)
      requires Valid() && selected.Some? && ShowsNavigation(selected.value)
      requires i < |selected.value.images|
      modifies this`index
      ensures Valid() && index == i
      ensures Shown() == Some(selected.value.images[i])
    {
      index := i;
    }
  }
}
