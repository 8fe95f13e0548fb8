/** The store logic of the blog's post pages: editing a stored post from the
    submitted form, and adding a new post. The two clock readings of a
    request are parameters. */
module BlogPosts {
  import opened Text
  import opened Models
  import opened BlogStore

  /** The fields of the submitted post form that the pages read. */
  datatype PostForm = PostForm(displayTitle: string, content: string, categories: seq<string>, tags: seq<string>,
                               saveAsDraft: bool, publish: bool)

  // ---------------------------------------------------------------------
  // Status and dates

  /** The year and month columns hold the publication date's year and
      month, and are empty exactly when the post has no publication date. */
  predicate DatesAgree(v: PostValue) {
    match v.datePublished
    case None => v.datePublishedYear.None? && v.datePublishedMonth.None?
    case Some(d) => v.datePublishedYear == Some(d.year) && v.datePublishedMonth == Some(d.month)
  }

  /** The buttons of `edit_post`: "save as draft" sets the draft status;
      "publish" then sets the publish status and, on a post with no
      publication date, the date `published` with its year and month. */
  function Released(v: PostValue, f: PostForm, published: Date): PostValue {
    var drafted := if f.saveAsDraft then v.(status := Some("draft")) else v;
    if !f.publish then drafted
    else if drafted.datePublished.Some? then drafted.(status := Some("publish"))
    else drafted.(status := Some("publish"), datePublished := Some(published),
                  datePublishedYear := Some(published.year), datePublishedMonth := Some(published.month))
  }

  /** The columns `edit_post` assigns: the buttons' status and dates, then
      the update date, the title, the content and the nicename. */
  function Restamped(v: PostValue, f: PostForm, published: Date, updated: Date): PostValue {
    Released(v, f, published).(dateUpdated := Some(updated), displayTitle := f.displayTitle, content := f.content,
                               nicename := Slug(f.displayTitle))
  }

  /** "publish" wins over "save as draft"; a publication date, once set, is
      never replaced; a first publication sets the date `published`; the
      date columns stay in agreement; the title, content and update date
      come from the request and the nicename is a slug of the title; the
      id, excerpt, subsite and associations are untouched. */
  lemma RestampedMeaning(v: PostValue, f: PostForm, published: Date, updated: Date)
    ensures var r := Restamped(v, f, published, updated);
            && r.status == (if f.publish then Some("publish") else if f.saveAsDraft then Some("draft") else v.status)
            && (v.datePublished.Some? ==>
                  r.datePublished == v.datePublished && r.datePublishedYear == v.datePublishedYear
                  && r.datePublishedMonth == v.datePublishedMonth)
            && (v.datePublished.None? ==> r.datePublished == if f.publish then Some(published) else None)
            && (DatesAgree(v) ==> DatesAgree(r))
            && r.dateUpdated == Some(updated) && r.displayTitle == f.displayTitle && r.content == f.content
            && r.nicename == Slug(f.displayTitle) && WordsAndDashes(r.nicename) && NoDoubleDash(r.nicename)
            && r.id == v.id && r.excerpt == v.excerpt && r.subsite == v.subsite
            && r.tags == v.tags && r.categories == v.categories && r.authors == v.authors
  {
    SlugShape(f.displayTitle);
  }

  /** Once published, a post keeps its first publication date through any
      later submission. */
  lemma PublishedOnce(v: PostValue, f: PostForm, g: PostForm, p1: Date, u1: Date, p2: Date, u2: Date)
    requires f.publish
    ensures Restamped(v, f, p1, u1).datePublished.Some?
    ensures Restamped(Restamped(v, f, p1, u1), g, p2, u2).datePublished == Restamped(v, f, p1, u1).datePublished
  {
    RestampedMeaning(v, f, p1, u1);
    RestampedMeaning(Restamped(v, f, p1, u1), g, p2, u2);
  }

  /** Submitting the same form with the same clock readings again changes
      nothing more. */
  lemma RestampedIdempotent(v: PostValue, f: PostForm, published: Date, updated: Date)
    ensures Restamped(Restamped(v, f, published, updated), f, published, updated) == Restamped(v, f, published, updated)
  {
  }

  /** The button handling of `edit_post`. */
  method Release(p: Post, f: PostForm, published: Date)
    modifies p`status, p`datePublished, p`datePublishedYear, p`datePublishedMonth
    ensures p.View() == Released(old(p.View()), f, published)
  {
    if f.saveAsDraft {
      p.status := Some("draft");
    }
    if f.publish {
      p.status := Some("publish");
      if p.datePublished.None? {
        p.datePublished := Some(published);
        p.datePublishedYear := Some(published.year);
        p.datePublishedMonth := Some(published.month);
      }
    }
  }

  /** The button handling and column assignments of `edit_post`. */
  method Restamp(p: Post, f: PostForm, published: Date, updated: Date)
    modifies p`status, p`datePublished, p`datePublishedYear, p`datePublishedMonth, p`dateUpdated, p`displayTitle,
             p`content, p`nicename
    ensures p.View() == Restamped(old(p.View()), f, published, updated)
  {
    Release(p, f, published);
    ghost var released := p.View();
    p.dateUpdated := Some(updated);
    p.displayTitle := f.displayTitle;
    p.content := f.content;
    p.MakeNicename();
    assert p.View() == released.(dateUpdated := Some(updated), displayTitle := f.displayTitle, content := f.content,
                                 nicename := Slug(f.displayTitle));
  }

  // ---------------------------------------------------------------------
  // Synchronising a post's tags with the selection

  /** The ids the loop `for tag in post.tags: if tag.nicename not in
      form.tags.data: post.untag(tag)` removes: those of stored tags whose
      nicename is not selected. An id with no stored tag is not visited. */
  function DroppedTags(ids: seq<int>, sel: seq<string>, rows: seq<TagRow>): set<int> {
    set y | y in ids && TagById(rows, y).Some? && TagById(rows, y).value.nicename !in sel
  }

  /** The ids after `for tag in form.tags.data: post.tag_by_nicename(tag)`:
      the first tag of each selected nicename is appended unless held. */
  function SelectedTags(ids: seq<int>, sel: seq<string>, rows: seq<TagRow>): seq<int>
    decreases |sel|
  {
    if sel == [] then ids
    else
      var acc := SelectedTags(ids, sel[..|sel| - 1], rows);
      var n := sel[|sel| - 1];
      if TagExists(rows, n) then AddId(acc, FindTag(rows, n).value.id) else acc
  }

  /** A post's tag ids after both loops of `edit_post`. */
  function SyncedTags(ids: seq<int>, sel: seq<string>, rows: seq<TagRow>): seq<int> {
    SelectedTags(RemoveIds(ids, DroppedTags(ids, sel, rows)), sel, rows)
  }

  /** The ids the unselect loop leaves in `cur` once it has visited
      `visited`, one id at a time. */
  function UnselectedTags(cur: seq<int>, visited: seq<int>, sel: seq<string>, rows: seq<TagRow>): seq<int>
    decreases |visited|
  {
    if visited == [] then cur
    else
      var prev, y := UnselectedTags(cur, visited[..|visited| - 1], sel, rows), visited[|visited| - 1];
      if TagById(rows, y).Some? && TagById(rows, y).value.nicename !in sel then RemoveId(prev, y) else prev
  }

  /** Visiting ids one at a time removes exactly the dropped ones. */
  lemma {:induction false} UnselectedTagsDropped(cur: seq<int>, visited: seq<int>, sel: seq<string>, rows: seq<TagRow>)
    ensures UnselectedTags(cur, visited, sel, rows) == RemoveIds(cur, DroppedTags(visited, sel, rows))
    decreases |visited|
  {
    if visited == [] {
      assert DroppedTags(visited, sel, rows) == {};
    } else {
      var init, y := visited[..|visited| - 1], visited[|visited| - 1];
      UnselectedTagsDropped(cur, init, sel, rows);
      DroppedTagsLast(visited, sel, rows);
      if TagById(rows, y).Some? && TagById(rows, y).value.nicename !in sel {
        RemoveIdsTwice(cur, DroppedTags(init, sel, rows), {y});
      }
    }
  }

  /** The dropped ids of a visited list, from those of all but its last id. */
  lemma DroppedTagsLast(visited: seq<int>, sel: seq<string>, rows: seq<TagRow>)
    requires visited != []
    ensures var init, y := visited[..|visited| - 1], visited[|visited| - 1];
            && (TagById(rows, y).Some? && TagById(rows, y).value.nicename !in sel ==>
                  DroppedTags(visited, sel, rows) == DroppedTags(init, sel, rows) + {y})
            && (!(TagById(rows, y).Some? && TagById(rows, y).value.nicename !in sel) ==>
                  DroppedTags(visited, sel, rows) == DroppedTags(init, sel, rows))
  {
    var init, y := visited[..|visited| - 1], visited[|visited| - 1];
    assert visited == init + [y];
    forall z
      ensures z in visited <==> z in init || z == y
    {
    }
  }

  lemma SelectedTagsNext(ids: seq<int>, sel: seq<string>, i: nat, rows: seq<TagRow>)
    requires i < |sel|
    ensures SelectedTags(ids, sel[..i + 1], rows)
              == if TagExists(rows, sel[i]) then AddId(SelectedTags(ids, sel[..i], rows), FindTag(rows, sel[i]).value.id)
                 else SelectedTags(ids, sel[..i], rows)
  {
    assert sel[..i + 1][..i] == sel[..i];
  }

  /** Some selection names a stored row with id `y`. */
  predicate NamesTag(y: int, sel: seq<string>, rows: seq<TagRow>) {
    exists i :: 0 <= i < |sel| && TagExists(rows, sel[i]) && FindTag(rows, sel[i]).value.id == y
  }

  /** Selecting keeps the held ids in front, adds exactly the ids of the
      stored rows that selections name, and adds no duplicate. */
  lemma {:induction false} SelectedTagsMembers(ids: seq<int>, sel: seq<string>, rows: seq<TagRow>)
    ensures var r := SelectedTags(ids, sel, rows);
            && |ids| <= |r| && r[..|ids|] == ids
            && (NoDup(ids) ==> NoDup(r))
            && forall y :: y in r <==> y in ids || NamesTag(y, sel, rows)
    decreases |sel|
  {
    if sel != [] {
      var init, n := sel[..|sel| - 1], sel[|sel| - 1];
      SelectedTagsMembers(ids, init, rows);
      var acc := SelectedTags(ids, init, rows);
      forall y
        ensures NamesTag(y, sel, rows) <==> NamesTag(y, init, rows) || (TagExists(rows, n) && FindTag(rows, n).value.id == y)
      {
        assert forall i :: 0 <= i < |init| ==> sel[i] == init[i];
        assert sel[|sel| - 1] == n;
      }
      if TagExists(rows, n) {
        var r := AddId(acc, FindTag(rows, n).value.id);
        assert r[..|ids|] == acc[..|ids|];
      }
    }
  }

  /** With unique tag keys, after an edit a stored tag is held exactly when
      its nicename is selected; an id with no stored tag stays as it was;
      and no id is held twice. */
  lemma SyncedTagsExactly(ids: seq<int>, sel: seq<string>, rows: seq<TagRow>)
    requires UniqueTags(rows)
    ensures forall t :: t in rows ==> (t.id in SyncedTags(ids, sel, rows) <==> t.nicename in sel)
    ensures forall y :: TagById(rows, y).None? ==> (y in SyncedTags(ids, sel, rows) <==> y in ids)
    ensures NoDup(ids) ==> NoDup(SyncedTags(ids, sel, rows))
  {
    UniqueTagMembers(rows);
    var kept := RemoveIds(ids, DroppedTags(ids, sel, rows));
    SelectedTagsMembers(kept, sel, rows);
    var r := SyncedTags(ids, sel, rows);
    forall t | t in rows
      ensures t.id in r <==> t.nicename in sel
    {
      if t.nicename in sel {
        var i :| 0 <= i < |sel| && sel[i] == t.nicename;
        assert TagExists(rows, sel[i]);
      } else {
        assert TagById(rows, t.id) == Some(t);
        forall i | 0 <= i < |sel| && TagExists(rows, sel[i])
          ensures FindTag(rows, sel[i]).value.id != t.id
        {
          assert FindTag(rows, sel[i]).value in rows;
        }
      }
    }
    forall y | TagById(rows, y).None?
      ensures y in r <==> y in ids
    {
      forall i | 0 <= i < |sel| && TagExists(rows, sel[i])
        ensures FindTag(rows, sel[i]).value.id != y
      {
        assert FindTag(rows, sel[i]).value in rows;
      }
    }
  }

  /** `for tag in post.tags: if tag.nicename not in form.tags.data:
      post.untag(tag)`, over the tags the post holds when the loop starts. */
  method UnselectTags(p: Post, db: Store, sel: seq<string>)
    modifies p`tags
    ensures p.tags == RemoveIds(old(p.tags), DroppedTags(old(p.tags), sel, db.tags))
  {
    var ids := p.tags;
    var i := 0;
    while i < |ids|
      invariant 0 <= i <= |ids|
      invariant p.tags == UnselectedTags(ids, ids[..i], sel, db.tags)
    {
      assert ids[..i + 1][..i] == ids[..i];
      var row := TagById(db.tags, ids[i]);
      if row.Some? && row.value.nicename !in sel {
        var removed := p.Untag(row.value);
      }
      i := i + 1;
    }
    assert ids[..i] == ids;
    UnselectedTagsDropped(ids, ids, sel, db.tags);
  }


  /** `for tag in form.tags.data: post.tag_by_nicename(tag)`. */
  method SelectTags(p: Post, db: Store, sel: seq<string>)
    modifies p`tags
    ensures p.tags == SelectedTags(old(p.tags), sel, db.tags)
  {
    ghost var ids := p.tags;
    var i := 0;
    while i < |sel|
      invariant 0 <= i <= |sel|
      invariant p.tags == SelectedTags(ids, sel[..i], db.tags)
    {
      SelectedTagsNext(ids, sel, i, db.tags);
      var added := p.TagByNicename(db, sel[i]);
      i := i + 1;
    }
    assert sel[..i] == sel;
  }

  // ---------------------------------------------------------------------
  // Synchronising a post's categories with the selection

  /** The ids the loop `for category in post.categories: if
      category.nicename not in form.categories.data:
      post.uncategorise(category)` removes. */
  function DroppedCategories(ids: seq<int>, sel: seq<string>, rows: seq<CategoryRow>): set<int> {
    set y | y in ids && CategoryById(rows, y).Some? && CategoryById(rows, y).value.nicename !in sel
  }

  /** The ids after `for category in form.categories.data:
      post.categorise_by_nicename(category)`. */
  function SelectedCategories(ids: seq<int>, sel: seq<string>, rows: seq<CategoryRow>): seq<int>
    decreases |sel|
  {
    if sel == [] then ids
    else
      var acc := SelectedCategories(ids, sel[..|sel| - 1], rows);
      var n := sel[|sel| - 1];
      if CategoryExists(rows, n) then AddId(acc, FindCategory(rows, n).value.id) else acc
  }

  /** A post's category ids after both loops of `edit_post`. */
  function SyncedCategories(ids: seq<int>, sel: seq<string>, rows: seq<CategoryRow>): seq<int> {
    SelectedCategories(RemoveIds(ids, DroppedCategories(ids, sel, rows)), sel, rows)
  }

  /** The ids the unselect loop leaves in `cur` once it has visited
      `visited`, one id at a time. */
  function UnselectedCategories(cur: seq<int>, visited: seq<int>, sel: seq<string>, rows: seq<CategoryRow>): seq<int>
    decreases |visited|
  {
    if visited == [] then cur
    else
      var prev, y := UnselectedCategories(cur, visited[..|visited| - 1], sel, rows), visited[|visited| - 1];
      if CategoryById(rows, y).Some? && CategoryById(rows, y).value.nicename !in sel then RemoveId(prev, y) else prev
  }

  /** Visiting ids one at a time removes exactly the dropped ones. */
  lemma {:induction false} UnselectedCategoriesDropped(cur: seq<int>, visited: seq<int>, sel: seq<string>, rows: seq<CategoryRow>)
    ensures UnselectedCategories(cur, visited, sel, rows) == RemoveIds(cur, DroppedCategories(visited, sel, rows))
    decreases |visited|
  {
    if visited == [] {
      assert DroppedCategories(visited, sel, rows) == {};
    } else {
      var init, y := visited[..|visited| - 1], visited[|visited| - 1];
      UnselectedCategoriesDropped(cur, init, sel, rows);
      DroppedCategoriesLast(visited, sel, rows);
      if CategoryById(rows, y).Some? && CategoryById(rows, y).value.nicename !in sel {
        RemoveIdsTwice(cur, DroppedCategories(init, sel, rows), {y});
      }
    }
  }

  /** The dropped ids of a visited list, from those of all but its last id. */
  lemma DroppedCategoriesLast(visited: seq<int>, sel: seq<string>, rows: seq<CategoryRow>)
    requires visited != []
    ensures var init, y := visited[..|visited| - 1], visited[|visited| - 1];
            && (CategoryById(rows, y).Some? && CategoryById(rows, y).value.nicename !in sel ==>
                  DroppedCategories(visited, sel, rows) == DroppedCategories(init, sel, rows) + {y})
            && (!(CategoryById(rows, y).Some? && CategoryById(rows, y).value.nicename !in sel) ==>
                  DroppedCategories(visited, sel, rows) == DroppedCategories(init, sel, rows))
  {
    var init, y := visited[..|visited| - 1], visited[|visited| - 1];
    assert visited == init + [y];
    forall z
      ensures z in visited <==> z in init || z == y
    {
    }
  }

  lemma SelectedCategoriesNext(ids: seq<int>, sel: seq<string>, i: nat, rows: seq<CategoryRow>)
    requires i < |sel|
    ensures SelectedCategories(ids, sel[..i + 1], rows)
              == if CategoryExists(rows, sel[i])
                 then AddId(SelectedCategories(ids, sel[..i], rows), FindCategory(rows, sel[i]).value.id)
                 else SelectedCategories(ids, sel[..i], rows)
  {
    assert sel[..i + 1][..i] == sel[..i];
  }

  /** Some selection names a stored row with id `y`. */
  predicate NamesCategory(y: int, sel: seq<string>, rows: seq<CategoryRow>) {
    exists i :: 0 <= i < |sel| && CategoryExists(rows, sel[i]) && FindCategory(rows, sel[i]).value.id == y
  }

  lemma {:induction false} SelectedCategoriesMembers(ids: seq<int>, sel: seq<string>, rows: seq<CategoryRow>)
    ensures var r := SelectedCategories(ids, sel, rows);
            && |ids| <= |r| && r[..|ids|] == ids
            && (NoDup(ids) ==> NoDup(r))
            && forall y :: y in r <==> y in ids || NamesCategory(y, sel, rows)
    decreases |sel|
  {
    if sel != [] {
      var init, n := sel[..|sel| - 1], sel[|sel| - 1];
      SelectedCategoriesMembers(ids, init, rows);
      var acc := SelectedCategories(ids, init, rows);
      forall y
        ensures NamesCategory(y, sel, rows)
                <==> NamesCategory(y, init, rows) || (CategoryExists(rows, n) && FindCategory(rows, n).value.id == y)
      {
        assert forall i :: 0 <= i < |init| ==> sel[i] == init[i];
        assert sel[|sel| - 1] == n;
      }
      if CategoryExists(rows, n) {
        var r := AddId(acc, FindCategory(rows, n).value.id);
        assert r[..|ids|] == acc[..|ids|];
      }
    }
  }

  /** With unique category keys, after an edit a stored category is held
      exactly when its nicename is selected; an id with no stored category
      stays as it was; and no id is held twice. */
  lemma SyncedCategoriesExactly(ids: seq<int>, sel: seq<string>, rows: seq<CategoryRow>)
    requires UniqueCategories(rows)
    ensures forall c :: c in rows ==> (c.id in SyncedCategories(ids, sel, rows) <==> c.nicename in sel)
    ensures forall y :: CategoryById(rows, y).None? ==> (y in SyncedCategories(ids, sel, rows) <==> y in ids)
    ensures NoDup(ids) ==> NoDup(SyncedCategories(ids, sel, rows))
  {
    UniqueCategoryMembers(rows);
    var kept := RemoveIds(ids, DroppedCategories(ids, sel, rows));
    SelectedCategoriesMembers(kept, sel, rows);
    var r := SyncedCategories(ids, sel, rows);
    forall c | c in rows
      ensures c.id in r <==> c.nicename in sel
    {
      if c.nicename in sel {
        var i :| 0 <= i < |sel| && sel[i] == c.nicename;
        assert CategoryExists(rows, sel[i]);
      } else {
        assert CategoryById(rows, c.id) == Some(c);
        forall i | 0 <= i < |sel| && CategoryExists(rows, sel[i])
          ensures FindCategory(rows, sel[i]).value.id != c.id
        {
          assert FindCategory(rows, sel[i]).value in rows;
        }
      }
    }
    forall y | CategoryById(rows, y).None?
      ensures y in r <==> y in ids
    {
      forall i | 0 <= i < |sel| && CategoryExists(rows, sel[i])
        ensures FindCategory(rows, sel[i]).value.id != y
      {
        assert FindCategory(rows, sel[i]).value in rows;
      }
    }
  }

  /** `for category in post.categories: if category.nicename not in
      form.categories.data: post.uncategorise(category)`, over the
      categories the post holds when the loop starts. */
  method UnselectCategories(p: Post, db: Store, sel: seq<string>)
    modifies p`categories
    ensures p.categories == RemoveIds(old(p.categories), DroppedCategories(old(p.categories), sel, db.categories))
  {
    var ids := p.categories;
    var i := 0;
    while i < |ids|
      invariant 0 <= i <= |ids|
      invariant p.categories == UnselectedCategories(ids, ids[..i], sel, db.categories)
    {
      assert ids[..i + 1][..i] == ids[..i];
      var row := CategoryById(db.categories, ids[i]);
      if row.Some? && row.value.nicename !in sel {
        var removed := p.Uncategorise(row.value);
      }
      i := i + 1;
    }
    assert ids[..i] == ids;
    UnselectedCategoriesDropped(ids, ids, sel, db.categories);
  }


  /** `for category in form.categories.data: post.categorise_by_nicename(category)`. */
  method SelectCategories(p: Post, db: Store, sel: seq<string>)
    modifies p`categories
    ensures p.categories == SelectedCategories(old(p.categories), sel, db.categories)
  {
    ghost var ids := p.categories;
    var i := 0;
    while i < |sel|
      invariant 0 <= i <= |sel|
      invariant p.categories == SelectedCategories(ids, sel[..i], db.categories)
    {
      SelectedCategoriesNext(ids, sel, i, db.categories);
      var added := p.CategoriseByNicename(db, sel[i]);
      i := i + 1;
    }
    assert sel[..i] == sel;
  }

  // ---------------------------------------------------------------------
  // Editing a post

  /** A post after a submitted edit: restamped, then its categories and its
      tags synchronised with the selections. */
  function Edited(v: PostValue, f: PostForm, published: Date, updated: Date,
                  tagRows: seq<TagRow>, categoryRows: seq<CategoryRow>): PostValue
  {
    Restamped(v, f, published, updated).(categories := SyncedCategories(v.categories, f.categories, categoryRows),
                                         tags := SyncedTags(v.tags, f.tags, tagRows))
  }

  /** With unique keys, an edited post holds exactly the selected stored
      tags and categories, keeps its first publication date, and keeps its
      date columns in agreement. */
  lemma EditedMeaning(v: PostValue, f: PostForm, published: Date, updated: Date,
                      tagRows: seq<TagRow>, categoryRows: seq<CategoryRow>)
    requires UniqueTags(tagRows) && UniqueCategories(categoryRows)
    ensures var r := Edited(v, f, published, updated, tagRows, categoryRows);
            && (forall t :: t in tagRows ==> (t.id in r.tags <==> t.nicename in f.tags))
            && (forall c :: c in categoryRows ==> (c.id in r.categories <==> c.nicename in f.categories))
            && (v.datePublished.Some? ==> r.datePublished == v.datePublished)
            && (DatesAgree(v) ==> DatesAgree(r))
  {
    RestampedMeaning(v, f, published, updated);
    SyncedTagsExactly(v.tags, f.tags, tagRows);
    SyncedCategoriesExactly(v.categories, f.categories, categoryRows);
  }

  /** A post page's address: the post's subsite and nicename. */
  predicate Locates(v: PostValue, subsite: string, nicename: string) {
    v.subsite == Some(subsite) && v.nicename == nicename
  }

  /** `Post.query.filter(Post.subsite == subsite).filter(Post.nicename ==
      nicename).first()`, searched from position `from`. */
  function PostIndex(vs: seq<PostValue>, subsite: string, nicename: string, from: nat): (r: Option<nat>)
    ensures r.Some? ==> from <= r.value < |vs| && Locates(vs[r.value], subsite, nicename)
                        && forall j :: from <= j < r.value ==> !Locates(vs[j], subsite, nicename)
    ensures r.None? ==> forall j :: from <= j < |vs| ==> !Locates(vs[j], subsite, nicename)
    decreases |vs| - from
  {
    if from >= |vs| then None
    else if Locates(vs[from], subsite, nicename) then Some(from)
    else PostIndex(vs, subsite, nicename, from + 1)
  }

  /** The same query on the stored post objects. */
  function LocatePost(ps: seq<Post>, subsite: string, nicename: string, from: nat): (r: Option<nat>)
    reads ps
    ensures r == PostIndex(Views(ps), subsite, nicename, from)
    decreases |ps| - from
  {
    if from >= |ps| then None
    else if ps[from].subsite == Some(subsite) && ps[from].nicename == nicename then Some(from)
    else LocatePost(ps, subsite, nicename, from + 1)
  }

  /** The stored posts after `edit_post`: the first post at the page's
      address is edited; with none, nothing changes. */
  function EditedPosts(vs: seq<PostValue>, subsite: string, nicename: string, f: PostForm, published: Date,
                       updated: Date, tagRows: seq<TagRow>, categoryRows: seq<CategoryRow>): seq<PostValue>
  {
    match PostIndex(vs, subsite, nicename, 0)
    case None => vs
    case Some(k) => vs[k := Edited(vs[k], f, published, updated, tagRows, categoryRows)]
  }

  /** An edit changes only the post at the page's address, and nothing when
      no post has that address. */
  lemma EditedPostsOnly(vs: seq<PostValue>, subsite: string, nicename: string, f: PostForm, published: Date,
                        updated: Date, tagRows: seq<TagRow>, categoryRows: seq<CategoryRow>)
    ensures var r := EditedPosts(vs, subsite, nicename, f, published, updated, tagRows, categoryRows);
            && |r| == |vs|
            && (forall j :: 0 <= j < |vs| && !Locates(vs[j], subsite, nicename) ==> r[j] == vs[j])
            && (forall j :: 0 <= j < |vs| && Locates(vs[j], subsite, nicename) ==>
                  r[j] == vs[j] || r[j] == Edited(vs[j], f, published, updated, tagRows, categoryRows))
  {
  }

  /** The two synchronisation loops of `edit_post`: categories, then tags. */
  method SyncLinks(db: Store, p: Post, f: PostForm)
    modifies p`categories, p`tags
    ensures p.categories == SyncedCategories(old(p.categories), f.categories, db.categories)
    ensures p.tags == SyncedTags(old(p.tags), f.tags, db.tags)
  {
    UnselectCategories(p, db, f.categories);
    SelectCategories(p, db, f.categories);
    UnselectTags(p, db, f.tags);
    SelectTags(p, db, f.tags);
  }

  /** The edit of one post object: the button handling, the column
      assignments and the two synchronisation loops of `edit_post`. */
  method EditOne(db: Store, p: Post, f: PostForm, published: Date, updated: Date)
    modifies p
    ensures p.View() == Edited(old(p.View()), f, published, updated, db.tags, db.categories)
  {
    Restamp(p, f, published, updated);
    ghost var r := p.View();
    SyncLinks(db, p, f);
    assert p.View() == r.(categories := p.categories, tags := p.tags);
  }

  /** The edit of the one post object at position `i`. */
  method EditPostAt(db: Store, ps: seq<Post>, i: nat, f: PostForm, published: Date, updated: Date)
    requires i < |ps| && forall a, b :: 0 <= a < b < |ps| ==> ps[a] != ps[b]
    modifies ps[i]
    ensures ps[i].View() == Edited(old(ps[i].View()), f, published, updated, db.tags, db.categories)
    ensures forall k :: 0 <= k < |ps| && k != i ==> ps[k].View() == old(ps[k].View())
  {
    EditOne(db, ps[i], f, published, updated);
  }

  /** The store writes of `edit_post` for a valid submission: `found` says
      whether a post has the page's address. */
  method EditPost(db: Store, subsite: string, nicename: string, f: PostForm, published: Date, updated: Date)
    returns (found: bool)
    requires db.DistinctPosts()
    modifies db.posts
    ensures found <==> PostIndex(old(Views(db.posts)), subsite, nicename, 0).Some?
    ensures Views(db.posts)
              == EditedPosts(old(Views(db.posts)), subsite, nicename, f, published, updated, db.tags, db.categories)
  {
    var ps := db.posts;
    assert forall a, b :: 0 <= a < b < |ps| ==> ps[a] != ps[b];
    ghost var views := Views(ps);
    var k := LocatePost(ps, subsite, nicename, 0);
    found := k.Some?;
    if found {
      EditPostAt(db, ps, k.value, f, published, updated);
      assert Views(ps) == views[k.value := Edited(views[k.value], f, published, updated, db.tags, db.categories)];
    }
  }

  // ---------------------------------------------------------------------
  // Adding a post

  /** The columns `add_post` sets before the post joins the session: no
      publication date unless "publish" is pressed, then the date `published`
      with its year and month; an empty excerpt. */
  function Drafted(f: PostForm, subsite: string, published: Date, updated: Date): PostValue {
    PostValue(0, f.displayTitle, Slug(f.displayTitle), f.content, "",
              if f.publish then Some(published) else None,
              if f.publish then Some(published.year) else None,
              if f.publish then Some(published.month) else None,
              Some(updated),
              if f.publish then Some("publish") else if f.saveAsDraft then Some("draft") else None,
              Some(subsite), [], [], [])
  }

  /** The post `add_post` stores with id `id`: its columns, the selected
      categories and tags, and the first author with the user's login. */
  function Added(id: int, f: PostForm, subsite: string, login: string, published: Date, updated: Date,
                 tagRows: seq<TagRow>, categoryRows: seq<CategoryRow>, authorRows: seq<AuthorRow>): PostValue
  {
    Drafted(f, subsite, published, updated).(
      id := id,
      categories := SelectedCategories([], f.categories, categoryRows),
      tags := SelectedTags([], f.tags, tagRows),
      authors := if AuthorExists(authorRows, login) then [FindAuthor(authorRows, login).value.id] else [])
  }

  /** A post that has never been edited: only its id and subsite are set. */
  function Blank(id: int, subsite: string): PostValue {
    PostValue(id, "", "", "", "", None, None, None, None, None, Some(subsite), [], [], [])
  }

  /** Adding a post is editing a blank post with the same form and clock
      readings, and giving it its author. */
  lemma AddedIsEditedBlank(id: int, f: PostForm, subsite: string, login: string, published: Date, updated: Date,
                           tagRows: seq<TagRow>, categoryRows: seq<CategoryRow>, authorRows: seq<AuthorRow>)
    ensures var a := Added(id, f, subsite, login, published, updated, tagRows, categoryRows, authorRows);
            a == Edited(Blank(id, subsite), f, published, updated, tagRows, categoryRows).(authors := a.authors)
  {
    assert RemoveIds([], DroppedTags([], f.tags, tagRows)) == [];
    assert RemoveIds([], DroppedCategories([], f.categories, categoryRows)) == [];
  }

  /** With unique keys, an added post holds exactly the selected stored
      tags and categories, is published exactly when "publish" is pressed,
      and its date columns agree. */
  lemma AddedMeaning(id: int, f: PostForm, subsite: string, login: string, published: Date, updated: Date,
                     tagRows: seq<TagRow>, categoryRows: seq<CategoryRow>, authorRows: seq<AuthorRow>)
    requires UniqueTags(tagRows) && UniqueCategories(categoryRows)
    ensures var a := Added(id, f, subsite, login, published, updated, tagRows, categoryRows, authorRows);
            && (forall t :: t in tagRows ==> (t.id in a.tags <==> t.nicename in f.tags))
            && (forall c :: c in categoryRows ==> (c.id in a.categories <==> c.nicename in f.categories))
            && NoDup(a.tags) && NoDup(a.categories)
            && (a.datePublished.Some? <==> f.publish)
            && DatesAgree(a)
  {
    AddedIsEditedBlank(id, f, subsite, login, published, updated, tagRows, categoryRows, authorRows);
    EditedMeaning(Blank(id, subsite), f, published, updated, tagRows, categoryRows);
    SyncedTagsExactly([], f.tags, tagRows);
    SyncedCategoriesExactly([], f.categories, categoryRows);
  }

  /** The writes of `add_post`, described by the new post's value. */
  method CreateBlogPost(db: Store, f: PostForm, subsite: string, login: string, published: Date, updated: Date)
    returns (p: Post)
    requires db.Valid()
    modifies db`posts, db`nextId
    ensures db.Valid() && fresh(p)
    ensures db.posts == old(db.posts) + [p] && db.nextId == old(db.nextId) + 1
    ensures p.View() == Added(old(db.nextId), f, subsite, login, published, updated, db.tags, db.categories, db.authors)
  {
    p := db.InsertPost(Drafted(f, subsite, published, updated));
    ghost var v := p.View();
    SelectCategories(p, db, f.categories);
    SelectTags(p, db, f.tags);
    var added := p.AddAuthorByLogin(db, login);
    assert p.View() == v.(categories := p.categories, tags := p.tags, authors := p.authors);
  }

  /** The store writes of `add_post` for a valid submission by the user
      with login `login`. */
  method AddPost(db: Store, f: PostForm, subsite: string, login: string, published: Date, updated: Date)
    returns (p: Post)
    requires db.Valid()
    modifies db`posts, db`nextId
    ensures db.Valid() && fresh(p)
    ensures db.posts == old(db.posts) + [p] && db.nextId == old(db.nextId) + 1
    ensures Views(db.posts)
              == old(Views(db.posts)) + [Added(old(db.nextId), f, subsite, login, published, updated,
                                               db.tags, db.categories, db.authors)]
    ensures old(db.DistinctPosts()) ==> db.DistinctPosts()
  {
    ghost var posts0 := db.posts;
    p := CreateBlogPost(db, f, subsite, login, published, updated);
    ViewsAppend(posts0, p);
    assert forall i :: 0 <= i < |posts0| ==> posts0[i] != p;
  }
}
