/**
 * The tag filter of the list page: the badges it shows (an "All" badge and
 * one per distinct tag, in sorted order, the chosen one highlighted) and
 * what a click on a badge does to the store.
 */
module TagFilter {
  import opened Wrappers
  import JsArray
  import JsString
  import opened BlogTypes
  import BlogStore

  /** `blog.tags || []`. */
  function TagsOf(b: BlogWithAuthor): seq<string>
  {
    if b.tags.Some? then b.tags.value else []
  }

  /**
   * `Array.from(new Set(blogs.flatMap(blog => blog.tags || []))).sort()`:
   * every tag some post carries, each once, in the default sort order.
   */
  function AllTags(blogs: seq<BlogWithAuthor>): (tags: seq<string>)
    ensures forall t :: t in tags <==> exists k :: 0 <= k < |blogs| && t in TagsOf(blogs[k])
    ensures JsArray.Distinct(tags) && JsArray.Sorted(tags)
  {
    var unique := JsArray.Dedup(JsArray.FlatMap(blogs, TagsOf));
    var sorted := JsArray.Sort(unique);
    JsArray.PermutationDistinct(unique, sorted);
    assert forall t :: t in sorted <==> t in unique by {
      forall t ensures t in sorted <==> t in unique {
        assert t in sorted <==> t in multiset(sorted);
        assert t in unique <==> t in multiset(unique);
      }
    }
    sorted
  }

  /** The tags come in strictly increasing order, so none is repeated. */
  lemma {:induction false} AllTagsStrictlySorted(blogs: seq<BlogWithAuthor>)
    ensures forall i, j :: 0 <= i < j < |AllTags(blogs)| ==> JsString.Less(AllTags(blogs)[i], AllTags(blogs)[j])
  {
    JsArray.SortedDistinctStrict(AllTags(blogs));
  }

  /** There is no tag to show exactly when no post carries a tag. */
  lemma {:induction false} AllTagsEmpty(blogs: seq<BlogWithAuthor>)
    ensures AllTags(blogs) == [] <==> forall k :: 0 <= k < |blogs| ==> TagsOf(blogs[k]) == []
  {
    if AllTags(blogs) != [] {
      assert AllTags(blogs)[0] in AllTags(blogs);
    }
    if exists k :: 0 <= k < |blogs| && TagsOf(blogs[k]) != [] {
      var k :| 0 <= k < |blogs| && TagsOf(blogs[k]) != [];
      var t := TagsOf(blogs[k])[0];
      assert 0 <= k < |blogs| && t in TagsOf(blogs[k]);
      assert t in AllTags(blogs);
    }
  }

  /** How a badge is drawn: filled when it stands for the current choice, outlined otherwise. */
  datatype Variant = Default | Outline

  /** A badge: its text, how it is drawn, and the tag its click chooses (`None` for "All"). */
  datatype Badge = Badge(text: string, variant: Variant, selects: Option<string>)

  /** The badge that chooses `selects`, filled when `selects` is the current choice. */
  function BadgeFor(text: string, selects: Option<string>, selectedTag: Option<string>): (b: Badge)
    ensures b.text == text && b.selects == selects
    ensures b.variant == Default <==> selects == selectedTag
  {
    Badge(text, if selects == selectedTag then Default else Outline, selects)
  }

  /** The badges of `allTags.map(...)`, one per tag in order. */
  function TagBadges(tags: seq<string>, selectedTag: Option<string>): (badges: seq<Badge>)
    ensures |badges| == |tags|
    ensures forall i :: 0 <= i < |tags| ==> badges[i] == BadgeFor(tags[i], Some(tags[i]), selectedTag)
  {
    seq(|tags|, i requires 0 <= i < |tags| => BadgeFor(tags[i], Some(tags[i]), selectedTag))
  }

  /**
   * What `TagFilter` renders: nothing when there is no tag, otherwise the
   * "All" badge followed by one badge per tag.
   */
  function Render(blogs: seq<BlogWithAuthor>, selectedTag: Option<string>): (r: Option<seq<Badge>>)
    ensures r.None? <==> AllTags(blogs) == []
  {
    var tags := AllTags(blogs);
    if tags == [] then None else Some([BadgeFor("All", None, selectedTag)] + TagBadges(tags, selectedTag))
  }

  /** The shape of the rendered badges, one position at a time. */
  lemma {:induction false} RenderedBadges(blogs: seq<BlogWithAuthor>, selectedTag: Option<string>)
    requires Render(blogs, selectedTag).Some?
    ensures var badges, tags := Render(blogs, selectedTag).value, AllTags(blogs);
      && |badges| == |tags| + 1
      && badges[0].text == "All" && badges[0].selects == None
      && (forall i :: 1 <= i < |badges| ==> badges[i].text == tags[i - 1] && badges[i].selects == Some(tags[i - 1]))
      && (forall i :: 0 <= i < |badges| ==> (badges[i].variant == Default <==> badges[i].selects == selectedTag))
  {
    var badges, tags := Render(blogs, selectedTag).value, AllTags(blogs);
    var rest := TagBadges(tags, selectedTag);
    assert forall i :: 1 <= i < |badges| ==> badges[i] == rest[i - 1];
  }

  /** No two badges choose the same thing. */
  lemma {:induction false} BadgesChooseDistinct(blogs: seq<BlogWithAuthor>, selectedTag: Option<string>)
    requires Render(blogs, selectedTag).Some?
    ensures var badges := Render(blogs, selectedTag).value;
      forall i, j :: 0 <= i < j < |badges| ==> badges[i].selects != badges[j].selects
  {
    RenderedBadges(blogs, selectedTag);
  }

  /**
   * When nothing or a shown tag is chosen, exactly one badge is filled: the
   * one whose click chooses it.
   */
  lemma {:induction false} OneBadgeFilled(blogs: seq<BlogWithAuthor>, selectedTag: Option<string>)
    requires Render(blogs, selectedTag).Some?
    requires selectedTag.None? || selectedTag.value in AllTags(blogs)
    ensures var badges := Render(blogs, selectedTag).value;
      exists i :: 0 <= i < |badges| && badges[i].variant == Default && badges[i].selects == selectedTag
    ensures var badges := Render(blogs, selectedTag).value;
      forall i, j :: 0 <= i < j < |badges| ==> !(badges[i].variant == Default && badges[j].variant == Default)
  {
    var badges := Render(blogs, selectedTag).value;
    var tags := AllTags(blogs);
    RenderedBadges(blogs, selectedTag);
    BadgesChooseDistinct(blogs, selectedTag);
    if selectedTag.Some? {
      var k :| 0 <= k < |tags| && tags[k] == selectedTag.value;
      assert badges[k + 1].selects == selectedTag;
    } else {
      assert badges[0].selects == selectedTag;
    }
  }

  /** A chosen tag that no post carries fills no badge, not even "All". */
  lemma {:induction false} UnknownTagFillsNothing(blogs: seq<BlogWithAuthor>, selectedTag: Option<string>)
    requires Render(blogs, selectedTag).Some?
    requires selectedTag.Some? && selectedTag.value !in AllTags(blogs)
    ensures forall b :: b in Render(blogs, selectedTag).value ==> b.variant == Outline
  {
    RenderedBadges(blogs, selectedTag);
  }

  /** After a click on a badge, that badge is the one drawn filled. */
  lemma {:induction false} ClickFillsBadge(blogs: seq<BlogWithAuthor>, selectedTag: Option<string>, i: int)
    requires Render(blogs, selectedTag).Some? && 0 <= i < |Render(blogs, selectedTag).value|
    ensures var chosen := Render(blogs, selectedTag).value[i].selects;
      Render(blogs, chosen).Some? && Render(blogs, chosen).value[i].variant == Default
  {
    var chosen := Render(blogs, selectedTag).value[i].selects;
    RenderedBadges(blogs, selectedTag);
    RenderedBadges(blogs, chosen);
  }

  /** Choosing a shown tag, with no query, leaves at least one post in the list. */
  lemma {:induction false} ShownTagKeepsAPost(blogs: seq<BlogWithAuthor>, tag: string)
    requires tag in AllTags(blogs)
    ensures BlogStore.FilterBlogs(blogs, "", Some(tag)) != []
  {
    var k :| 0 <= k < |blogs| && tag in TagsOf(blogs[k]);
    assert BlogStore.MatchesTag(blogs[k], Some(tag));
    assert blogs[k] in BlogStore.FilterBlogs(blogs, "", Some(tag));
  }

  /** The badge's `onClick`: `setSelectedTag(null)` for "All", `setSelectedTag(tag)` for a tag. */
  method Click(store: BlogStore.Store, badge: Badge)
    modifies store
    ensures store.selectedTag == badge.selects
    ensures store.blogs == old(store.blogs) && store.users == old(store.users)
    ensures store.isLoading == old(store.isLoading) && store.error == old(store.error)
    ensures store.searchQuery == old(store.searchQuery)
  {
    store.SetSelectedTag(badge.selects);
  }
}
