/** The older web server's `edit_post` and `add_post`. They write the same
    columns as the blog blueprint's handlers, except that on publishing
    they put the publication year and month in local variables rather than
    on the post, so those two columns keep their previous values. */
module WebServer {
  import opened Text
  import opened Models
  import opened BlogStore
  import opened BlogPosts

  // ---------------------------------------------------------------------
  // Editing a post

  /** The buttons of the older `edit_post`: as in the blueprint, but a first
      publication sets only the publication date. */
  function ReleasedLegacy(v: PostValue, f: PostForm, published: Date): PostValue {
    var drafted := if f.saveAsDraft then v.(status := Some("draft")) else v;
    if !f.publish then drafted
    else if drafted.datePublished.Some? then drafted.(status := Some("publish"))
    else drafted.(status := Some("publish"), datePublished := Some(published))
  }

  /** The columns the older `edit_post` assigns. */
  function RestampedLegacy(v: PostValue, f: PostForm, published: Date, updated: Date): PostValue {
    ReleasedLegacy(v, f, published).(dateUpdated := Some(updated), displayTitle := f.displayTitle,
                                     content := f.content, nicename := Slug(f.displayTitle))
  }

  /** A post after a submitted edit on the older server. */
  function EditedLegacy(v: PostValue, f: PostForm, published: Date, updated: Date,
                        tagRows: seq<TagRow>, categoryRows: seq<CategoryRow>): PostValue
  {
    RestampedLegacy(v, f, published, updated).(categories := SyncedCategories(v.categories, f.categories, categoryRows),
                                               tags := SyncedTags(v.tags, f.tags, tagRows))
  }

  /** The older edit agrees with the blueprint's edit on every column except
      the publication year and month, which it leaves as they were. */
  lemma EditedLegacyDiffers(v: PostValue, f: PostForm, published: Date, updated: Date,
                            tagRows: seq<TagRow>, categoryRows: seq<CategoryRow>)
    ensures EditedLegacy(v, f, published, updated, tagRows, categoryRows)
            == Edited(v, f, published, updated, tagRows, categoryRows).(datePublishedYear := v.datePublishedYear,
                                                                       datePublishedMonth := v.datePublishedMonth)
  {
    RestampedMeaning(v, f, published, updated);
  }

  /** The older edit's year and month are never written: a post published
      for the first time gets a publication date whose year and month its
      columns do not hold, although its columns agreed before. */
  lemma EditedLegacyLosesYear(v: PostValue, f: PostForm, published: Date, updated: Date,
                              tagRows: seq<TagRow>, categoryRows: seq<CategoryRow>)
    requires DatesAgree(v) && v.datePublished.None? && f.publish
    ensures var r := EditedLegacy(v, f, published, updated, tagRows, categoryRows);
            && r.datePublished == Some(published) && r.datePublishedYear.None? && r.datePublishedMonth.None?
            && !DatesAgree(r)
            && DatesAgree(Edited(v, f, published, updated, tagRows, categoryRows))
  {
    EditedLegacyDiffers(v, f, published, updated, tagRows, categoryRows);
    RestampedMeaning(v, f, published, updated);
  }

  /** The button handling of the older `edit_post`. */
  method ReleaseLegacy(p: Post, f: PostForm, published: Date)
    modifies p`status, p`datePublished
    ensures p.View() == ReleasedLegacy(old(p.View()), f, published)
  {
    if f.saveAsDraft {
      p.status := Some("draft");
    }
    if f.publish {
      p.status := Some("publish");
      if p.datePublished.None? {
        p.datePublished := Some(published);
        var datePublishedYear := published.year;
        var datePublishedMonth := published.month;
      }
    }
  }

  /** The button handling and column assignments of the older `edit_post`. */
  method RestampLegacy(p: Post, f: PostForm, published: Date, updated: Date)
    modifies p`status, p`datePublished, p`dateUpdated, p`displayTitle, p`content, p`nicename
    ensures p.View() == RestampedLegacy(old(p.View()), f, published, updated)
  {
    ReleaseLegacy(p, f, published);
    ghost var released := p.View();
    p.dateUpdated := Some(updated);
    p.displayTitle := f.displayTitle;
    p.content := f.content;
    p.MakeNicename();
    assert p.View() == released.(dateUpdated := Some(updated), displayTitle := f.displayTitle, content := f.content,
                                 nicename := Slug(f.displayTitle));
  }

  /** The edit of one post object on the older server. */
  method EditOneLegacy(db: Store, p: Post, f: PostForm, published: Date, updated: Date)
    modifies p
    ensures p.View() == EditedLegacy(old(p.View()), f, published, updated, db.tags, db.categories)
  {
    RestampLegacy(p, f, published, updated);
    ghost var r := p.View();
    SyncLinks(db, p, f);
    assert p.View() == r.(categories := p.categories, tags := p.tags);
  }

  /** The stored posts after the older `edit_post`: the first post at the
      page's address is edited; with none, nothing changes. */
  function EditedPostsLegacy(vs: seq<PostValue>, subsite: string, nicename: string, f: PostForm, published: Date,
                             updated: Date, tagRows: seq<TagRow>, categoryRows: seq<CategoryRow>): seq<PostValue>
  {
    match PostIndex(vs, subsite, nicename, 0)
    case None => vs
    case Some(k) => vs[k := EditedLegacy(vs[k], f, published, updated, tagRows, categoryRows)]
  }

  /** Both servers edit the same post, and leave the same posts unchanged. */
  lemma EditedPostsLegacySame(vs: seq<PostValue>, subsite: string, nicename: string, f: PostForm, published: Date,
                              updated: Date, tagRows: seq<TagRow>, categoryRows: seq<CategoryRow>)
    ensures var r := EditedPostsLegacy(vs, subsite, nicename, f, published, updated, tagRows, categoryRows);
            var q := EditedPosts(vs, subsite, nicename, f, published, updated, tagRows, categoryRows);
            |r| == |q| == |vs|
            && forall j :: 0 <= j < |vs| ==>
                 r[j] == q[j].(datePublishedYear := vs[j].datePublishedYear,
                               datePublishedMonth := vs[j].datePublishedMonth)
  {
    match PostIndex(vs, subsite, nicename, 0)
    case None =>
    case Some(k) =>
      EditedLegacyDiffers(vs[k], f, published, updated, tagRows, categoryRows);
  }

  /** The store writes of the older `edit_post` for a valid submission. */
  method EditPostLegacy(db: Store, subsite: string, nicename: string, f: PostForm, published: Date, updated: Date)
    returns (found: bool)
    requires db.DistinctPosts()
    modifies db.posts
    ensures found <==> PostIndex(old(Views(db.posts)), subsite, nicename, 0).Some?
    ensures Views(db.posts)
              == EditedPostsLegacy(old(Views(db.posts)), subsite, nicename, f, published, updated, db.tags, db.categories)
  {
    var ps := db.posts;
    assert forall a, b :: 0 <= a < b < |ps| ==> ps[a] != ps[b];
    ghost var views := Views(ps);
    var k := LocatePost(ps, subsite, nicename, 0);
    found := k.Some?;
    if found {
      var p := ps[k.value];
      EditOneLegacy(db, p, f, published, updated);
      assert Views(ps) == views[k.value := EditedLegacy(views[k.value], f, published, updated, db.tags, db.categories)];
    }
  }

  // ---------------------------------------------------------------------
  // Adding a post

  /** The columns the older `add_post` sets before the post joins the
      session: as in the blueprint, but without a publication year or month. */
  function DraftedLegacy(f: PostForm, subsite: string, published: Date, updated: Date): PostValue {
    PostValue(0, f.displayTitle, Slug(f.displayTitle), f.content, "",
              if f.publish then Some(published) else None, None, None,
              Some(updated),
              if f.publish then Some("publish") else if f.saveAsDraft then Some("draft") else None,
              Some(subsite), [], [], [])
  }

  /** The post the older `add_post` stores with id `id`. */
  function AddedLegacy(id: int, f: PostForm, subsite: string, login: string, published: Date, updated: Date,
                       tagRows: seq<TagRow>, categoryRows: seq<CategoryRow>, authorRows: seq<AuthorRow>): PostValue
  {
    DraftedLegacy(f, subsite, published, updated).(
      id := id,
      categories := SelectedCategories([], f.categories, categoryRows),
      tags := SelectedTags([], f.tags, tagRows),
      authors := if AuthorExists(authorRows, login) then [FindAuthor(authorRows, login).value.id] else [])
  }

  /** The older add agrees with the blueprint's on every column except the
      publication year and month, which stay empty; so a post published on
      creation has a date its year and month columns do not hold. */
  lemma AddedLegacyDiffers(id: int, f: PostForm, subsite: string, login: string, published: Date, updated: Date,
                           tagRows: seq<TagRow>, categoryRows: seq<CategoryRow>, authorRows: seq<AuthorRow>)
    ensures var r := AddedLegacy(id, f, subsite, login, published, updated, tagRows, categoryRows, authorRows);
            && r == Added(id, f, subsite, login, published, updated, tagRows, categoryRows, authorRows)
                      .(datePublishedYear := None, datePublishedMonth := None)
            && (DatesAgree(r) <==> !f.publish)
  {
  }

  /** The writes of the older `add_post`, described by the new post's value. */
  method CreateBlogPostLegacy(db: Store, f: PostForm, subsite: string, login: string, published: Date, updated: Date)
    returns (p: Post)
    requires db.Valid()
    modifies db`posts, db`nextId
    ensures db.Valid() && fresh(p)
    ensures db.posts == old(db.posts) + [p] && db.nextId == old(db.nextId) + 1
    ensures p.View()
            == AddedLegacy(old(db.nextId), f, subsite, login, published, updated, db.tags, db.categories, db.authors)
  {
    p := db.InsertPost(DraftedLegacy(f, subsite, published, updated));
    ghost var v := p.View();
    SelectCategories(p, db, f.categories);
    SelectTags(p, db, f.tags);
    var added := p.AddAuthorByLogin(db, login);
    assert p.View() == v.(categories := p.categories, tags := p.tags, authors := p.authors);
  }

  /** The store writes of the older `add_post` for a valid submission. */
  method AddPostLegacy(db: Store, f: PostForm, subsite: string, login: string, published: Date, updated: Date)
    returns (p: Post)
    requires db.Valid()
    modifies db`posts, db`nextId
    ensures db.Valid() && fresh(p)
    ensures db.posts == old(db.posts) + [p] && db.nextId == old(db.nextId) + 1
    ensures Views(db.posts)
              == old(Views(db.posts)) + [AddedLegacy(old(db.nextId), f, subsite, login, published, updated,
                                                     db.tags, db.categories, db.authors)]
    ensures old(db.DistinctPosts()) ==> db.DistinctPosts()
  {
    ghost var posts0 := db.posts;
    p := CreateBlogPostLegacy(db, f, subsite, login, published, updated);
    ViewsAppend(posts0, p);
    assert forall i :: 0 <= i < |posts0| ==> posts0[i] != p;
  }
}
