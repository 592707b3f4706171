/**
 * The blog store: the posts with what the store adds to them (tags, a
 * reading time, a creation date and the author), the authors, the loading
 * flag, the error message, and the two filter criteria the list view reads.
 *
 * The network is not modelled: each fetch takes the outcome of its request
 * as a `Response`, and the random shuffle behind the tags takes the order it
 * produced as an argument.
 */
module BlogStore {
  import opened Wrappers
  import JsMath
  import JsString
  import JsArray
  import opened BlogTypes

  // ----- what the store adds to a post -----

  /** The tags `generateTags` draws from. */
  const Vocabulary: seq<string> :=
    ["React", "TypeScript", "JavaScript", "Web Dev", "Tutorial", "Best Practices", "Testing", "Performance"]

  /** `shuffled` is an order of the vocabulary, as the random shuffle may produce it. */
  ghost predicate IsShuffle(shuffled: seq<string>)
  {
    multiset(shuffled) == multiset(Vocabulary)
  }

  /**
   * `generateTags(id)`: the first `id % 3 + 1` tags of a shuffled vocabulary,
   * with JavaScript's `%` (negative for a negative id) and `slice`
   * (a negative end counts back from the length).
   */
  function GenerateTags(id: int, shuffled: seq<string>): (tags: seq<string>)
    ensures id >= 0 ==> |tags| == if id % 3 + 1 <= |shuffled| then id % 3 + 1 else |shuffled|
    ensures |tags| <= |shuffled| && tags == shuffled[..|tags|]
  {
    JsArray.SliceTo(shuffled, JsMath.Rem(id, 3) + 1)
  }

  lemma VocabularyDistinct()
    ensures JsArray.Distinct(Vocabulary)
  {
  }

  /**
   * For a post id of zero or more, a post gets between one and three tags
   * (`id % 3 + 1` of them), no tag twice, all from the vocabulary.
   */
  lemma {:induction false} TagsOfPost(id: int, shuffled: seq<string>)
    requires id >= 0 && IsShuffle(shuffled)
    ensures |GenerateTags(id, shuffled)| == id % 3 + 1
    ensures 1 <= |GenerateTags(id, shuffled)| <= 3
    ensures JsArray.Distinct(GenerateTags(id, shuffled))
    ensures forall t :: t in GenerateTags(id, shuffled) ==> t in Vocabulary
  {
    var tags := GenerateTags(id, shuffled);
    assert |shuffled| == |multiset(shuffled)| == |Vocabulary|;
    VocabularyDistinct();
    JsArray.PermutationDistinct(Vocabulary, shuffled);
    JsArray.PrefixDistinct(shuffled, |tags|);
    forall t | t in tags ensures t in Vocabulary {
      assert t in shuffled;
      assert t in multiset(shuffled);
    }
  }

  /**
   * For a negative id, JavaScript's `%` makes `numTags` 1, 0 or -1, and
   * `slice(0, -1)` keeps every tag but the last: one tag, none, or seven.
   */
  lemma {:induction false} TagsOfNegativeId(id: int, shuffled: seq<string>)
    requires id < 0 && IsShuffle(shuffled)
    ensures |GenerateTags(id, shuffled)| == if (-id) % 3 == 0 then 1 else if (-id) % 3 == 1 then 0 else 7
  {
    assert |shuffled| == |multiset(shuffled)| == |Vocabulary|;
  }

  /**
   * `generateTags(-1)`, the `(-id) % 3 == 1` instance of `TagsOfNegativeId`
   * evaluated for any order: `-1 % 3 + 1` is 0, so the post gets no tag.
   */
  lemma {:induction false} NoTagsForMinusOne(shuffled: seq<string>)
    ensures GenerateTags(-1, shuffled) == []
  {
  }

  /** The reading speed of the store's `calculateReadTime`. */
  const WordsPerMinute: nat := 200

  /**
   * The store's `calculateReadTime(body)`: the pieces of `body.split(' ')`
   * (one more than the spaces in it) over 200, rounded up.
   */
  function PostReadTime(body: string): (minutes: nat)
    ensures minutes >= 1
    ensures (minutes - 1) * WordsPerMinute < multiset(body)[' '] + 1 <= minutes * WordsPerMinute
  {
    JsMath.CeilDiv(JsString.SplitLength(body, ' '), WordsPerMinute)
  }

  /** `generateDate(id)`'s distance from now, in days: `id % 30` with JavaScript's `%`. */
  function DaysAgo(id: int): (days: int)
    ensures id >= 0 ==> 0 <= days < 30 && days == id % 30
    ensures id < 0 ==> -30 < days <= 0
  {
    JsMath.Rem(id, 30)
  }

  /** One element of `blogs.map` in `fetchBlogs`: the post, its tags, its reading time and its date. */
  function Enrich(post: Blog, shuffled: seq<string>): (b: BlogWithAuthor)
    ensures Extends(b, post) && b.author.None?
    ensures b.tags == Some(GenerateTags(post.id, shuffled))
    ensures b.readTime == Some(PostReadTime(post.body))
    ensures b.createdAt == Some(DaysBeforeNow(DaysAgo(post.id)))
  {
    BlogWithAuthor(post.userId, post.id, post.title, post.body, None,
      Some(GenerateTags(post.id, shuffled)), Some(PostReadTime(post.body)),
      Some(DaysBeforeNow(DaysAgo(post.id))))
  }

  /** `blogs.map(...)` in `fetchBlogs`; `shuffles[i]` is the shuffle drawn for the `i`-th post. */
  function EnrichAll(posts: seq<Blog>, shuffles: seq<seq<string>>): (blogs: seq<BlogWithAuthor>)
    requires |shuffles| == |posts|
    ensures |blogs| == |posts|
    ensures forall i :: 0 <= i < |posts| ==> blogs[i] == Enrich(posts[i], shuffles[i])
  {
    seq(|posts|, i requires 0 <= i < |posts| => Enrich(posts[i], shuffles[i]))
  }

  /** What a fetched post looks like once the store has prepared it. */
  ghost predicate Prepared(b: BlogWithAuthor)
  {
    && b.tags.Some? && 1 <= |b.tags.value| <= 3 && b.id >= 0 && |b.tags.value| == b.id % 3 + 1
    && JsArray.Distinct(b.tags.value) && (forall t :: t in b.tags.value ==> t in Vocabulary)
    && b.readTime.Some? && b.readTime.value >= 1
    && b.createdAt.Some? && 0 <= b.createdAt.value.days < 30
  }

  /**
   * Fetched posts with ids of zero or more come out in the same order, each
   * with its own fields, no author yet, and prepared tags, reading time and date.
   */
  lemma {:induction false} FetchedBlogsPrepared(posts: seq<Blog>, shuffles: seq<seq<string>>)
    requires |shuffles| == |posts|
    requires forall i :: 0 <= i < |posts| ==> posts[i].id >= 0 && IsShuffle(shuffles[i])
    ensures forall i :: 0 <= i < |posts| ==>
      Extends(EnrichAll(posts, shuffles)[i], posts[i]) && EnrichAll(posts, shuffles)[i].author.None?
    ensures forall b :: b in EnrichAll(posts, shuffles) ==> Prepared(b)
  {
    var blogs := EnrichAll(posts, shuffles);
    forall b | b in blogs ensures Prepared(b) {
      var i :| 0 <= i < |blogs| && blogs[i] == b;
      TagsOfPost(posts[i].id, shuffles[i]);
    }
  }

  // ----- authors -----

  /** `users.find(user => user.id === userId)`. */
  function AuthorOf(users: seq<User>, userId: int): (author: Option<User>)
    ensures author.None? <==> forall k :: 0 <= k < |users| ==> users[k].id != userId
    ensures author.Some? ==> author.value in users && author.value.id == userId
    ensures author.Some? ==> exists k :: FirstWithUserId(users, userId, k) && users[k] == author.value
  {
    var r := JsArray.Find(users, (u: User) => u.id == userId);
    assert r.Some? ==> exists k :: FirstWithUserId(users, userId, k) && users[k] == r.value by {
      if r.Some? {
        var k: nat :| JsArray.FirstFrom(users, (u: User) => u.id == userId, 0, k) && users[k] == r.value;
        assert FirstWithUserId(users, userId, k);
      }
    }
    r
  }

  /** `users[k]` is the first user whose id is `userId`. */
  ghost predicate FirstWithUserId(users: seq<User>, userId: int, k: int)
  {
    0 <= k < |users| && users[k].id == userId && forall m :: 0 <= m < k ==> users[m].id != userId
  }

  /** The `blogs.map` of `fetchUsers`: each post with its author looked up again. */
  function AttachAuthors(blogs: seq<BlogWithAuthor>, users: seq<User>): (r: seq<BlogWithAuthor>)
    ensures |r| == |blogs|
    ensures forall i :: 0 <= i < |blogs| ==> r[i] == blogs[i].(author := AuthorOf(users, blogs[i].userId))
  {
    seq(|blogs|, i requires 0 <= i < |blogs| => blogs[i].(author := AuthorOf(users, blogs[i].userId)))
  }

  /**
   * Attaching authors changes no field but `author`, and keeps every prepared
   * post prepared; a post's author is the first user with its `userId`, or
   * absent when there is none.
   */
  lemma {:induction false} AttachAuthorsSpec(blogs: seq<BlogWithAuthor>, users: seq<User>)
    ensures forall i :: 0 <= i < |blogs| ==>
      var b, r := blogs[i], AttachAuthors(blogs, users)[i];
      && r.userId == b.userId && r.id == b.id && r.title == b.title && r.body == b.body
      && r.tags == b.tags && r.readTime == b.readTime && r.createdAt == b.createdAt
      && (r.author.None? <==> forall k :: 0 <= k < |users| ==> users[k].id != b.userId)
      && (r.author.Some? ==> exists k :: FirstWithUserId(users, b.userId, k) && users[k] == r.author.value)
    ensures (forall b :: b in blogs ==> Prepared(b)) ==> forall b :: b in AttachAuthors(blogs, users) ==> Prepared(b)
  {
    var r := AttachAuthors(blogs, users);
    forall b | b in r ensures (forall b :: b in blogs ==> Prepared(b)) ==> Prepared(b) {
      var i :| 0 <= i < |r| && r[i] == b;
      assert blogs[i] in blogs;
    }
  }

  // ----- getFilteredBlogs and getBlogById -----

  /** `!selectedTag` is false: a tag is chosen and it is not the empty string. */
  predicate TagChosen(selectedTag: Option<string>)
  {
    selectedTag.Some? && selectedTag.value != ""
  }

  /** The search test of `getFilteredBlogs`: no query, or the lowered query occurs in the lowered title or body. */
  predicate MatchesSearch(b: BlogWithAuthor, searchQuery: string)
  {
    || searchQuery == ""
    || JsString.Includes(JsString.ToLowerCase(b.title), JsString.ToLowerCase(searchQuery))
    || JsString.Includes(JsString.ToLowerCase(b.body), JsString.ToLowerCase(searchQuery))
  }

  /** The tag test of `getFilteredBlogs`: no tag chosen, or the post's tags hold it (a post without tags fails). */
  predicate MatchesTag(b: BlogWithAuthor, selectedTag: Option<string>)
  {
    !TagChosen(selectedTag) || (b.tags.Some? && selectedTag.value in b.tags.value)
  }

  /**
   * `getFilteredBlogs`: the posts that pass both tests, in their order; with
   * no query and no tag chosen, every post.
   */
  function FilterBlogs(blogs: seq<BlogWithAuthor>, searchQuery: string, selectedTag: Option<string>)
    : (r: seq<BlogWithAuthor>)
    ensures forall b :: b in r <==> b in blogs && MatchesSearch(b, searchQuery) && MatchesTag(b, selectedTag)
    ensures forall b :: multiset(r)[b] == if MatchesSearch(b, searchQuery) && MatchesTag(b, selectedTag) then multiset(blogs)[b] else 0
    ensures JsArray.IsSubsequence(r, blogs)
    ensures searchQuery == "" && !TagChosen(selectedTag) ==> r == blogs
  {
    JsArray.Filter(blogs, (b: BlogWithAuthor) => MatchesSearch(b, searchQuery) && MatchesTag(b, selectedTag))
  }

  /** Lowering a string twice is lowering it once. */
  lemma {:induction false} LowerCaseIdempotent(s: string)
    ensures JsString.ToLowerCase(JsString.ToLowerCase(s)) == JsString.ToLowerCase(s)
  {
    JsString.ToLowerCaseWithoutCapitals(JsString.ToLowerCase(s));
  }

  /** The search ignores the case of the query's ASCII letters. */
  lemma {:induction false} SearchIgnoresCase(b: BlogWithAuthor, searchQuery: string)
    ensures MatchesSearch(b, searchQuery) <==> MatchesSearch(b, JsString.ToLowerCase(searchQuery))
  {
    LowerCaseIdempotent(searchQuery);
  }

  /** `blogs[k]` is the first post whose id is `id`. */
  ghost predicate FirstWithId(blogs: seq<BlogWithAuthor>, id: int, k: int)
  {
    0 <= k < |blogs| && blogs[k].id == id && forall m :: 0 <= m < k ==> blogs[m].id != id
  }

  /** `getBlogById(id)`: the first post with that id, or none. */
  function BlogById(blogs: seq<BlogWithAuthor>, id: int): (r: Option<BlogWithAuthor>)
    ensures r.None? <==> forall k :: 0 <= k < |blogs| ==> blogs[k].id != id
    ensures r.Some? ==> exists k :: FirstWithId(blogs, id, k) && blogs[k] == r.value
  {
    var r := JsArray.Find(blogs, (b: BlogWithAuthor) => b.id == id);
    assert r.Some? ==> exists k :: FirstWithId(blogs, id, k) && blogs[k] == r.value by {
      if r.Some? {
        var k: nat :| JsArray.FirstFrom(blogs, (b: BlogWithAuthor) => b.id == id, 0, k) && blogs[k] == r.value;
        assert FirstWithId(blogs, id, k);
      }
    }
    r
  }

  // ----- the examples of the store's tests -----

  /** The two posts the filter and lookup tests start from. */
  const ReactPost: BlogWithAuthor := BlogWithAuthor(1, 1, "React Tutorial", "Learn React", None, Some(["React"]), None, None)
  const TypeScriptPost: BlogWithAuthor :=
    BlogWithAuthor(1, 2, "TypeScript Guide", "Learn TypeScript", None, Some(["TypeScript"]), None, None)

  lemma LowerCaseExamples()
    ensures JsString.ToLowerCase("React") == "react"
    ensures JsString.ToLowerCase("React Tutorial") == "react tutorial"
  {
  }

  lemma LowerCaseTypeScriptExamples()
    ensures JsString.ToLowerCase("TypeScript Guide") == "typescript guide"
    ensures JsString.ToLowerCase("Learn TypeScript") == "learn typescript"
  {
  }

  /** "react" occurs at no position of "typescript guide", checked from the last position back. */
  lemma NotInTitleExample()
    ensures !JsString.Includes("typescript guide", "react")
  {
    assert !JsString.IncludesFrom("typescript guide", "react", 12);
    assert !JsString.IncludesFrom("typescript guide", "react", 11);
    assert !JsString.IncludesFrom("typescript guide", "react", 10);
    assert !JsString.IncludesFrom("typescript guide", "react", 9);
    assert !JsString.IncludesFrom("typescript guide", "react", 8);
    assert !JsString.IncludesFrom("typescript guide", "react", 7);
    assert !JsString.IncludesFrom("typescript guide", "react", 6);
    assert !JsString.IncludesFrom("typescript guide", "react", 5);
    assert !JsString.IncludesFrom("typescript guide", "react", 4);
    assert !JsString.IncludesFrom("typescript guide", "react", 3);
    assert !JsString.IncludesFrom("typescript guide", "react", 2);
    assert !JsString.IncludesFrom("typescript guide", "react", 1);
    assert !JsString.IncludesFrom("typescript guide", "react", 0);
  }

  /** "react" occurs at no position of "learn typescript", checked from the last position back. */
  lemma NotInBodyExample()
    ensures !JsString.Includes("learn typescript", "react")
  {
    assert !JsString.IncludesFrom("learn typescript", "react", 12);
    assert !JsString.IncludesFrom("learn typescript", "react", 11);
    assert !JsString.IncludesFrom("learn typescript", "react", 10);
    assert !JsString.IncludesFrom("learn typescript", "react", 9);
    assert !JsString.IncludesFrom("learn typescript", "react", 8);
    assert !JsString.IncludesFrom("learn typescript", "react", 7);
    assert !JsString.IncludesFrom("learn typescript", "react", 6);
    assert !JsString.IncludesFrom("learn typescript", "react", 5);
    assert !JsString.IncludesFrom("learn typescript", "react", 4);
    assert !JsString.IncludesFrom("learn typescript", "react", 3);
    assert !JsString.IncludesFrom("learn typescript", "react", 2);
    assert !JsString.IncludesFrom("learn typescript", "react", 1);
    assert !JsString.IncludesFrom("learn typescript", "react", 0);
  }

  lemma SearchReactExample()
    ensures MatchesSearch(ReactPost, "React") && !MatchesSearch(TypeScriptPost, "React")
  {
    LowerCaseExamples();
    LowerCaseTypeScriptExamples();
    assert JsString.OccursAt("react tutorial", "react", 0);
    NotInTitleExample();
    NotInBodyExample();
  }

  /** Searching for "React" keeps only the React post. */
  lemma FilterBySearchExample()
    ensures FilterBlogs([ReactPost, TypeScriptPost], "React", None) == [ReactPost]
  {
    var blogs := [ReactPost, TypeScriptPost];
    var p := (b: BlogWithAuthor) => MatchesSearch(b, "React") && MatchesTag(b, None);
    SearchReactExample();
    assert JsArray.FilterFrom(blogs, p, 2) == [];
    assert JsArray.FilterFrom(blogs, p, 1) == [];
    assert JsArray.FilterFrom(blogs, p, 0) == [ReactPost];
  }

  /** Choosing the tag "TypeScript" keeps only the TypeScript post. */
  lemma FilterByTagExample()
    ensures FilterBlogs([ReactPost, TypeScriptPost], "", Some("TypeScript")) == [TypeScriptPost]
  {
  }

  /** Looking up id 1 finds the React post. */
  lemma BlogByIdExample()
    ensures BlogById([ReactPost, TypeScriptPost], 1) == Some(ReactPost)
  {
  }

  // ----- the store -----

  /** What a failed request threw: an `Error` with its message, or something else. */
  datatype Thrown = JsError(message: string) | NonError

  /** The outcome of a request: a response with `ok` and its decoded body, a response without `ok`, or a throw. */
  datatype Response<T> = Ok(value: T) | NotOk | Threw(thrown: Thrown)

  /** The message `fetchBlogs` throws when the response is not `ok`. */
  const FetchBlogsFailed: string := "Failed to fetch blogs"

  /** The message `fetchBlogs` stores when what it caught is not an `Error`. */
  const UnknownError: string := "An error occurred"

  /** The error `fetchBlogs` stores for a failed request: the caught error's message, or the fallback. */
  function FailureMessage<T>(response: Response<T>): (message: string)
    requires !response.Ok?
    ensures response.NotOk? ==> message == FetchBlogsFailed
    ensures response.Threw? && response.thrown.JsError? ==> message == response.thrown.message
    ensures response == Threw(NonError) ==> message == UnknownError
  {
    match response
    case NotOk => FetchBlogsFailed
    case Threw(JsError(m)) => m
    case Threw(NonError) => UnknownError
  }

  /** The zustand store `useBlogStore`, with its state and its actions. */
  class Store {
    var blogs: seq<BlogWithAuthor>
    var users: seq<User>
    var isLoading: bool
    var error: Option<string>
    var searchQuery: string
    var selectedTag: Option<string>

    /** The initial state: nothing loaded, not loading, no error, no criteria. */
    constructor()
      ensures blogs == [] && users == [] && !isLoading && error == None
      ensures searchQuery == "" && selectedTag == None
    {
      blogs := [];
      users := [];
      isLoading := false;
      error := None;
      searchQuery := "";
      selectedTag := None;
    }

    /** The first `set` of `fetchBlogs`, before the request is awaited. */
    method StartFetchBlogs()
      modifies this
      ensures isLoading && error == None
      ensures blogs == old(blogs) && users == old(users)
      ensures searchQuery == old(searchQuery) && selectedTag == old(selectedTag)
    {
      isLoading := true;
      error := None;
    }

    /**
     * The rest of `fetchBlogs`, once the request has settled: on success the
     * posts replace the blogs, prepared; on failure the blogs stay and the
     * error is stored. Either way loading is over.
     */
    method FinishFetchBlogs(response: Response<seq<Blog>>, shuffles: seq<seq<string>>)
      requires response.Ok? ==> |shuffles| == |response.value|
      modifies this
      ensures !isLoading
      ensures response.Ok? ==> blogs == EnrichAll(response.value, shuffles) && error == old(error)
      ensures !response.Ok? ==> blogs == old(blogs) && error == Some(FailureMessage(response))
      ensures users == old(users) && searchQuery == old(searchQuery) && selectedTag == old(selectedTag)
    {
      match response
      case Ok(posts) =>
        blogs := EnrichAll(posts, shuffles);
        isLoading := false;
      case _ =>
        error := Some(FailureMessage(response));
        isLoading := false;
    }

    /** `fetchBlogs`, with the request's outcome and the shuffles it draws given. */
    method FetchBlogs(response: Response<seq<Blog>>, shuffles: seq<seq<string>>)
      requires response.Ok? ==> |shuffles| == |response.value|
      modifies this
      ensures !isLoading
      ensures response.Ok? ==> blogs == EnrichAll(response.value, shuffles) && error == None
      ensures !response.Ok? ==> blogs == old(blogs) && error == Some(FailureMessage(response))
      ensures users == old(users) && searchQuery == old(searchQuery) && selectedTag == old(selectedTag)
    {
      StartFetchBlogs();
      FinishFetchBlogs(response, shuffles);
    }

    /**
     * `fetchUsers`: on success the users are stored and every post gets its
     * author; on failure (logged, not stored) nothing changes.
     */
    method FetchUsers(response: Response<seq<User>>)
      modifies this
      ensures response.Ok? ==> users == response.value && blogs == AttachAuthors(old(blogs), response.value)
      ensures !response.Ok? ==> users == old(users) && blogs == old(blogs)
      ensures isLoading == old(isLoading) && error == old(error)
      ensures searchQuery == old(searchQuery) && selectedTag == old(selectedTag)
    {
      if response.Ok? {
        blogs := AttachAuthors(blogs, response.value);
        users := response.value;
      }
    }

    /**
     * Fetch the posts, then the authors: what the list page does on load,
     * and the detail page while no post is loaded. Posts with ids of zero or
     * more come out prepared, and once both requests succeed each has the
     * first user with its `userId` as author. A failed post request keeps the
     * old posts; a failed user request keeps the old users and authors.
     */
    method LoadData(posts: Response<seq<Blog>>, shuffles: seq<seq<string>>, people: Response<seq<User>>)
      requires posts.Ok? ==> |shuffles| == |posts.value|
      requires posts.Ok? ==> forall i :: 0 <= i < |posts.value| ==> posts.value[i].id >= 0 && IsShuffle(shuffles[i])
      modifies this
      ensures !isLoading
      ensures posts.Ok? ==> |blogs| == |posts.value| && error == None && forall b :: b in blogs ==> Prepared(b)
      ensures posts.Ok? ==> forall i :: 0 <= i < |blogs| ==>
        Extends(blogs[i], posts.value[i])
      ensures posts.Ok? && people.Ok? ==> users == people.value
      ensures posts.Ok? && people.Ok? ==>
        forall i :: 0 <= i < |blogs| ==> blogs[i].author == AuthorOf(people.value, blogs[i].userId)
      ensures !posts.Ok? ==> error == Some(FailureMessage(posts))
      ensures var fetched := if posts.Ok? then EnrichAll(posts.value, shuffles) else old(blogs);
        blogs == if people.Ok? then AttachAuthors(fetched, people.value) else fetched
      ensures users == if people.Ok? then people.value else old(users)
      ensures searchQuery == old(searchQuery) && selectedTag == old(selectedTag)
    {
      FetchBlogs(posts, shuffles);
      var fetched := blogs;
      if posts.Ok? {
        FetchedBlogsPrepared(posts.value, shuffles);
      }
      FetchUsers(people);
      if people.Ok? {
        AttachAuthorsSpec(fetched, people.value);
      }
    }

    /** `setSearchQuery`: only the query changes. */
    method SetSearchQuery(query: string)
      modifies this
      ensures searchQuery == query
      ensures blogs == old(blogs) && users == old(users) && isLoading == old(isLoading)
      ensures error == old(error) && selectedTag == old(selectedTag)
    {
      searchQuery := query;
    }

    /** `setSelectedTag`: only the chosen tag changes. */
    method SetSelectedTag(tag: Option<string>)
      modifies this
      ensures selectedTag == tag
      ensures blogs == old(blogs) && users == old(users) && isLoading == old(isLoading)
      ensures error == old(error) && searchQuery == old(searchQuery)
    {
      selectedTag := tag;
    }

    /** `getFilteredBlogs` on the current state. */
    function FilteredBlogs(): (r: seq<BlogWithAuthor>)
      reads this
      ensures forall b :: b in r <==> b in blogs && MatchesSearch(b, searchQuery) && MatchesTag(b, selectedTag)
      ensures forall b :: multiset(r)[b] == if MatchesSearch(b, searchQuery) && MatchesTag(b, selectedTag) then multiset(blogs)[b] else 0
      ensures JsArray.IsSubsequence(r, blogs)
    {
      FilterBlogs(blogs, searchQuery, selectedTag)
    }

    /** `getBlogById` on the current state. */
    function GetBlogById(id: int): (r: Option<BlogWithAuthor>)
      reads this
      ensures r.None? <==> forall k :: 0 <= k < |blogs| ==> blogs[k].id != id
      ensures r.Some? ==> exists k :: FirstWithId(blogs, id, k) && blogs[k] == r.value
    {
      BlogById(blogs, id)
    }
  }

  // ----- the store's tests, as scenarios -----

  /** A new store holds no posts, no query and no tag. */
  method InitialStateExample() returns (count: nat, query: string, tag: Option<string>)
    ensures count == 0 && query == "" && tag == None
  {
    var store := new Store();
    count := |store.blogs|;
    query := store.searchQuery;
    tag := store.selectedTag;
  }

  /** Setting the query and the tag stores them. */
  method SettersExample() returns (query: string, tag: Option<string>)
    ensures query == "React" && tag == Some("TypeScript")
  {
    var store := new Store();
    store.SetSearchQuery("React");
    store.SetSelectedTag(Some("TypeScript"));
    query := store.searchQuery;
    tag := store.selectedTag;
  }

  /** A successful fetch of one post stores it and clears loading and error. */
  method FetchBlogsSucceedsExample() returns (count: nat, firstTitle: string, loading: bool, err: Option<string>)
    ensures count == 1 && firstTitle == "Test Blog" && !loading && err == None
  {
    var store := new Store();
    store.FetchBlogs(Ok([Blog(1, 1, "Test Blog", "Test content")]), [Vocabulary]);
    count := |store.blogs|;
    firstTitle := store.blogs[0].title;
    loading := store.isLoading;
    err := store.error;
  }

  /** A response without `ok` stores the fetch error and clears loading. */
  method FetchBlogsFailsExample() returns (loading: bool, err: Option<string>)
    ensures !loading && err == Some("Failed to fetch blogs")
  {
    var store := new Store();
    store.FetchBlogs(NotOk, []);
    loading := store.isLoading;
    err := store.error;
  }
}
