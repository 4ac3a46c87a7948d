/** The gallery page (`app/gallery/page.tsx`): the category filter over the
    image list and the enlarged-image overlay.  Only an image's id and
    category matter here; its pictures and captions are not modelled. */
module Gallery {
  import opened Wrappers
  import opened Seqs

  /** The `id` of a category button. */
  datatype CategoryId = All | Events | Classes | Workshops | Achievements

  datatype GalleryImage = GalleryImage(id: nat, category: CategoryId)

  const GalleryImages: seq<GalleryImage> := [
    GalleryImage(1, Classes), GalleryImage(2, Workshops), GalleryImage(3, Classes),
    GalleryImage(4, Workshops), GalleryImage(5, Classes), GalleryImage(6, Events),
    GalleryImage(7, Events), GalleryImage(8, Events), GalleryImage(9, Events),
    GalleryImage(10, Events), GalleryImage(11, Events), GalleryImage(12, Events),
    GalleryImage(13, Events), GalleryImage(14, Classes), GalleryImage(15, Classes),
    GalleryImage(16, Classes), GalleryImage(17, Workshops), GalleryImage(18, Events),
    GalleryImage(19, Workshops), GalleryImage(20, Classes), GalleryImage(21, Events),
    GalleryImage(22, Events), GalleryImage(23, Events), GalleryImage(24, Events),
    GalleryImage(25, Workshops), GalleryImage(26, Classes)
  ]

  function InCategory(c: CategoryId): GalleryImage -> bool {
    (img: GalleryImage) => img.category == c
  }

  /** `filteredImages`. */
  function FilteredImages(images: seq<GalleryImage>, selected: CategoryId): (r: seq<GalleryImage>)
    ensures selected == All ==> r == images
    ensures selected != All ==> forall i :: 0 <= i < |r| ==> r[i].category == selected
    ensures selected != All ==> forall i :: 0 <= i < |images| && images[i].category == selected ==> images[i] in r
  {
    if selected == All then images else Filter(images, InCategory(selected))
  }

  /** The filtered list keeps the original order, and for a category it is
      the longest such list: any in-order selection of that category's
      images is no longer. */
  lemma FilteredIsOrderedSelection(images: seq<GalleryImage>, selected: CategoryId, other: seq<GalleryImage>)
    requires selected != All
    requires IsSubsequence(other, images)
    requires forall i :: 0 <= i < |other| ==> other[i].category == selected
    requires |other| >= |FilteredImages(images, selected)|
    ensures IsSubsequence(FilteredImages(images, selected), images)
    ensures other == FilteredImages(images, selected)
  {
    FilterIsSubsequence(images, InCategory(selected));
    SubsequenceOfKeptIsShorter(other, images, InCategory(selected));
    FilterIsTheLongestKeptSubsequence(other, images, InCategory(selected));
  }

  lemma AllIsSubsequence(images: seq<GalleryImage>)
    ensures IsSubsequence(FilteredImages(images, All), images)
  {
    FilterKeepsAll(images, (img: GalleryImage) => true);
    FilterIsSubsequence(images, (img: GalleryImage) => true);
  }

  /** No image is filed under "achievements", so that tab is empty. */
  lemma AchievementsIsEmpty()
    ensures FilteredImages(GalleryImages, Achievements) == []
  {
    var images := GalleryImages;
    assert forall i :: 0 <= i < |images| ==> images[i].category != Achievements;
    NothingKept(images, InCategory(Achievements));
  }

  lemma {:induction false} NothingKept<T>(s: seq<T>, keep: T -> bool)
    requires forall i :: 0 <= i < |s| ==> !keep(s[i])
    ensures Filter(s, keep) == []
  {
    if s != [] {
      NothingKept(s[1..], keep);
    }
  }

  /** The ids are 1 to 26 in order, so no two images share a list key. */
  lemma ImageIdsDistinct()
    ensures forall i, j :: 0 <= i < j < |GalleryImages| ==> GalleryImages[i].id != GalleryImages[j].id
  {
    var images := GalleryImages;
    assert forall i :: 0 <= i < |images| ==> images[i].id == i + 1;
  }

  /** The three image categories split the list: every image is in exactly
      one tab besides "all". */
  lemma {:induction false} TabsPartition(images: seq<GalleryImage>)
    requires forall i :: 0 <= i < |images| ==> images[i].category != All && images[i].category != Achievements
    ensures |FilteredImages(images, Events)| + |FilteredImages(images, Classes)| + |FilteredImages(images, Workshops)|
      == |images|
  {
    if images != [] {
      TabsPartition(images[1..]);
    }
  }

  // ---------------------------------------------------------------------
  // Page state.

  datatype GalleryState = GalleryState(selectedCategory: CategoryId, selectedImage: Option<GalleryImage>)

  const Initial := GalleryState(All, None)

  datatype Event =
    | ChooseCategory(c: CategoryId)
    | ClickImage(index: nat)
    | ClickBackdrop
    | ClickCloseButton
    | ClickEnlargedImage

  /** Clicking an image opens it; the backdrop and the close button reset
      the selection; a click on the enlarged image itself is stopped from
      reaching the backdrop.  A category button switches the tab and leaves
      an open image open. */
  function Step(st: GalleryState, e: Event): (r: GalleryState)
    ensures e.ClickBackdrop? || e.ClickCloseButton? ==> r.selectedImage.None?
    ensures e.ClickImage? && e.index < |FilteredImages(GalleryImages, st.selectedCategory)| ==>
      r.selectedImage == Some(FilteredImages(GalleryImages, st.selectedCategory)[e.index])
    ensures e.ClickEnlargedImage? ==> r == st
    ensures !e.ChooseCategory? ==> r.selectedCategory == st.selectedCategory
    ensures e.ChooseCategory? ==> r == st.(selectedCategory := e.c)
  {
    match e
    case ChooseCategory(c) => st.(selectedCategory := c)
    case ClickImage(index) =>
      var shown := FilteredImages(GalleryImages, st.selectedCategory);
      if index < |shown| then st.(selectedImage := Some(shown[index])) else st
    case ClickBackdrop => st.(selectedImage := None)
    case ClickCloseButton => st.(selectedImage := None)
    case ClickEnlargedImage => st
  }

  function Run(st: GalleryState, events: seq<Event>): GalleryState
    decreases |events|
  {
    if events == [] then st else Run(Step(st, events[0]), events[1..])
  }

  predicate SelectionIsAnImage(st: GalleryState) {
    st.selectedImage.Some? ==> st.selectedImage.value in GalleryImages
  }

  /** Whatever is enlarged is one of the gallery's images. */
  lemma {:induction false} RunSelectsOnlyImages(st: GalleryState, events: seq<Event>)
    requires SelectionIsAnImage(st)
    ensures SelectionIsAnImage(Run(st, events))
    decreases |events|
  {
    if events != [] {
      var next := Step(st, events[0]);
      if events[0].ClickImage? {
        var shown := FilteredImages(GalleryImages, st.selectedCategory);
        if events[0].index < |shown| {
          assert shown[events[0].index] in GalleryImages;
        }
      }
      RunSelectsOnlyImages(next, events[1..]);
    }
  }
}
