/** The store logic of the blog's category pages: adding a category, and
    the delete and merge branches of the merge/delete page. A category's
    posts are the stored posts whose category list holds its id. */
module BlogCategories {
  import opened Text
  import opened Models
  import opened BlogStore

  /** Every category id a post holds is the id of a stored category row. */
  predicate CategoriesResolve(rows: seq<CategoryRow>, vs: seq<PostValue>) {
    forall k, y :: 0 <= k < |vs| && y in vs[k].categories ==> exists t :: t in rows && t.id == y
  }

  // ---------------------------------------------------------------------
  // Adding a category

  /** The category the add page stores for a display name, with no parent:
      its nicename is the slug of the name, and the request is refused when
      a stored category already has that nicename. */
  function NewCategory(rows: seq<CategoryRow>, next: int, name: string): (r: Outcome<CategoryRow>)
    ensures r.Refused? <==> exists i :: 0 <= i < |rows| && rows[i].nicename == Slug(name)
    ensures r.Refused? ==> r.why == NicenameTaken
    ensures r.Done? ==> (r.value.id == next && r.value.displayName == name && r.value.nicename == Slug(name)
              && r.value.parent.None?)
    ensures r.Done? && UniqueCategories(rows) && (forall i :: 0 <= i < |rows| ==> rows[i].id < next) ==>
              UniqueCategories(rows + [r.value])
  {
    var nicename := Slug(name);
    if CategoryExists(rows, nicename) then Refused(NicenameTaken) else Done(CategoryRow(next, nicename, name, None))
  }

  /** The add branch of `add_categories`: store the new category unless its nicename
      is taken. */
  method AddCategory(db: Store, name: string) returns (r: Outcome<CategoryRow>)
    requires db.Valid()
    modifies db`categories, db`nextId
    ensures db.Valid()
    ensures r == NewCategory(old(db.categories), old(db.nextId), name)
    ensures r.Refused? ==> db.categories == old(db.categories) && db.nextId == old(db.nextId)
    ensures r.Done? ==> db.categories == old(db.categories) + [r.value] && db.nextId == old(db.nextId) + 1
  {
    var nicename := Slug(name);
    if CategoryExists(db.categories, nicename) {
      r := Refused(NicenameTaken);
    } else {
      var t := db.InsertCategory(nicename, name, None);
      r := Done(t);
    }
  }

  // ---------------------------------------------------------------------
  // Deleting categories

  /** The delete branch: for each selected nicename in turn, the first category
      with it (if any) is taken off every post and then removed. */
  function DeletedCategories(rows: seq<CategoryRow>, vs: seq<PostValue>, names: seq<string>): Tables<CategoryRow>
    decreases |names|
  {
    if names == [] then Tables(rows, vs)
    else DeleteCategoryStep(DeletedCategories(rows, vs, names[..|names| - 1]), names[|names| - 1])
  }

  /** One selected nicename of the delete branch. */
  function DeleteCategoryStep(s: Tables<CategoryRow>, n: string): Tables<CategoryRow> {
    match FindCategory(s.rows, n)
    case None => s
    case Some(t) => Tables(WithoutCategory(s.rows, t.id), Detached(s.posts, CategoryLinks, {t.id}))
  }

  lemma DeletedCategoriesNext(rows: seq<CategoryRow>, vs: seq<PostValue>, names: seq<string>, i: nat)
    requires i < |names|
    ensures DeletedCategories(rows, vs, names[..i + 1]) == DeleteCategoryStep(DeletedCategories(rows, vs, names[..i]), names[i])
  {
    assert names[..i + 1][..i] == names[..i];
  }

  /** The ids of the rows whose nicename is selected. */
  function NamedCategoryIds(rows: seq<CategoryRow>, names: seq<string>): set<int> {
    set t | t in rows && t.nicename in names :: t.id
  }

  /** `s` is what deleting `names` leaves of `rows` and `vs`: exactly the
      rows whose nicename is not selected, keys still unique, and exactly
      the selected rows' ids taken off every post. */
  ghost predicate CategoriesDeletedExactly(rows: seq<CategoryRow>, vs: seq<PostValue>, names: seq<string>, s: Tables<CategoryRow>) {
    && (forall t :: t in s.rows <==> t in rows && t.nicename !in names)
    && UniqueCategories(s.rows)
    && s.posts == Detached(vs, CategoryLinks, NamedCategoryIds(rows, names))
  }

  /** A selected nicename with no row left changes nothing. */
  lemma DeleteCategoryMissing(rows: seq<CategoryRow>, vs: seq<PostValue>, init: seq<string>, n: string, s: Tables<CategoryRow>)
    requires UniqueCategories(rows) && CategoriesDeletedExactly(rows, vs, init, s)
    requires FindCategory(s.rows, n).None?
    ensures CategoriesDeletedExactly(rows, vs, init + [n], DeleteCategoryStep(s, n))
  {
    assert forall t :: t in s.rows ==> t.nicename != n;
    assert NamedCategoryIds(rows, init + [n]) == NamedCategoryIds(rows, init);
  }

  /** A selected nicename whose row is still there removes that row and its id. */
  lemma DeleteCategoryFound(rows: seq<CategoryRow>, vs: seq<PostValue>, init: seq<string>, n: string, s: Tables<CategoryRow>)
    requires UniqueCategories(rows) && CategoriesDeletedExactly(rows, vs, init, s)
    requires FindCategory(s.rows, n).Some?
    ensures CategoriesDeletedExactly(rows, vs, init + [n], DeleteCategoryStep(s, n))
  {
    UniqueCategoryMembers(rows);
    var t := FindCategory(s.rows, n).value;
    assert t in s.rows;
    assert NamedCategoryIds(rows, init + [n]) == NamedCategoryIds(rows, init) + {t.id};
    DetachedTwice(vs, CategoryLinks, NamedCategoryIds(rows, init), {t.id});
    var left := WithoutCategory(s.rows, t.id);
    forall i, j | 0 <= i < j < |left|
      ensures left[i].nicename != left[j].nicename
    {
      assert left[i] in rows && left[j] in rows;
    }
  }

  /** In a table with unique keys, deleting a selection removes exactly the
      rows whose nicename is selected, keeps the keys unique, and takes
      exactly their ids off every post. */
  lemma {:induction false} DeletedCategoriesExactly(rows: seq<CategoryRow>, vs: seq<PostValue>, names: seq<string>)
    requires UniqueCategories(rows)
    ensures CategoriesDeletedExactly(rows, vs, names, DeletedCategories(rows, vs, names))
    decreases |names|
  {
    if names == [] {
      DetachedNothing(vs, CategoryLinks, 0);
      assert NamedCategoryIds(rows, names) == {};
    } else {
      var init, n := names[..|names| - 1], names[|names| - 1];
      assert names == init + [n];
      DeletedCategoriesExactly(rows, vs, init);
      var s := DeletedCategories(rows, vs, init);
      if FindCategory(s.rows, n).None? {
        DeleteCategoryMissing(rows, vs, init, n, s);
      } else {
        DeleteCategoryFound(rows, vs, init, n, s);
      }
    }
  }

  /** Deleting never leaves a post holding the id of a row that is gone. */
  lemma DeleteKeepsCategoryLinks(rows: seq<CategoryRow>, vs: seq<PostValue>, names: seq<string>)
    requires UniqueCategories(rows) && CategoriesResolve(rows, vs)
    ensures var s := DeletedCategories(rows, vs, names); CategoriesResolve(s.rows, s.posts)
  {
    DeletedCategoriesExactly(rows, vs, names);
    var s := DeletedCategories(rows, vs, names);
    DetachedLinks(vs, CategoryLinks, NamedCategoryIds(rows, names));
    assert forall t :: t in s.rows <==> t in rows && t.nicename !in names;
    forall k, y | 0 <= k < |s.posts| && y in s.posts[k].categories
      ensures exists t :: t in s.rows && t.id == y
    {
      assert y in Links(s.posts[k], CategoryLinks);
      var t :| t in rows && t.id == y;
      assert t in s.rows;
    }
  }

  /** One post of the category's posts: uncategorise it. The other posts of `ps` are
      distinct objects and stay as they were. */
  method UncategoriseIfHolder(ps: seq<Post>, i: nat, t: CategoryRow)
    requires i < |ps| && forall a, b :: 0 <= a < b < |ps| ==> ps[a] != ps[b]
    modifies ps[i]
    ensures ps[i].View() == Detach(old(ps[i].View()), CategoryLinks, {t.id})
    ensures forall k :: 0 <= k < |ps| && k != i ==> ps[k].View() == old(ps[k].View())
  {
    var p := ps[i];
    if p.Categorised(t) {
      var removed := p.Uncategorise(t);
    } else {
      assert forall j :: 0 <= j < |p.categories| ==> p.categories[j] !in {t.id};
    }
  }

  /** `for post in category.posts: post.uncategorise(category)`. */
  method UncategoriseHolders(ps: seq<Post>, t: CategoryRow)
    requires forall a, b :: 0 <= a < b < |ps| ==> ps[a] != ps[b]
    modifies ps
    ensures Views(ps) == Detached(old(Views(ps)), CategoryLinks, {t.id})
  {
    ghost var views := Views(ps);
    var i := 0;
    while i < |ps|
      invariant 0 <= i <= |ps|
      invariant forall k :: 0 <= k < i ==> ps[k].View() == Detach(views[k], CategoryLinks, {t.id})
      invariant forall k :: i <= k < |ps| ==> ps[k].View() == views[k]
    {
      UncategoriseIfHolder(ps, i, t);
      i := i + 1;
    }
    assert Views(ps) == Detached(views, CategoryLinks, {t.id});
  }

  /** One selected nicename of the delete branch, on the stored posts `ps`. */
  method DeleteOneCategory(db: Store, ps: seq<Post>, name: string)
    requires db.Valid() && db.posts == ps
    requires forall a, b :: 0 <= a < b < |ps| ==> ps[a] != ps[b]
    modifies db`categories, ps
    ensures db.Valid() && db.posts == ps
    ensures Tables(db.categories, Views(ps)) == DeleteCategoryStep(old(Tables(db.categories, Views(ps))), name)
  {
    ghost var before := Tables(db.categories, Views(ps));
    var found := FindCategory(db.categories, name);
    if found.Some? {
      var t := found.value;
      assert DeleteCategoryStep(before, name) == Tables(WithoutCategory(before.rows, t.id), Detached(before.posts, CategoryLinks, {t.id}));
      label Found:
      UncategoriseHolders(ps, t);
      assert unchanged@Found(db);
      ghost var after := Views(ps);
      db.DeleteCategory(t.id);
      assert Views(ps) == after;
    }
  }

  /** The delete branch of `merge_delete_categories`, over the posts stored when
      it starts. */
  method DeleteCategories(db: Store, names: seq<string>)
    requires db.Valid() && db.DistinctPosts()
    modifies db`categories, db.posts
    ensures db.Valid()
    ensures Tables(db.categories, Views(db.posts)) == DeletedCategories(old(db.categories), old(Views(db.posts)), names)
  {
    var ps := db.posts;
    assert forall a, b :: 0 <= a < b < |ps| ==> ps[a] != ps[b];
    ghost var rows, views := db.categories, Views(ps);
    var i := 0;
    while i < |names|
      invariant 0 <= i <= |names|
      invariant db.Valid() && db.posts == ps
      invariant Tables(db.categories, Views(ps)) == DeletedCategories(rows, views, names[..i])
    {
      DeletedCategoriesNext(rows, views, names, i);
      DeleteOneCategory(db, ps, names[i]);
      i := i + 1;
    }
    assert names[..i] == names;
  }

  // ---------------------------------------------------------------------
  // Merging categories

  /** The first category of each selected nicename, in selection order, or
      None when some selection has no category. */
  function ResolvedCategories(rows: seq<CategoryRow>, names: seq<string>): (r: Option<seq<CategoryRow>>)
    ensures r.Some? <==> forall k :: 0 <= k < |names| ==> CategoryExists(rows, names[k])
    ensures r.Some? ==> |r.value| == |names| && forall k :: 0 <= k < |names| ==> r.value[k] == FindCategory(rows, names[k]).value
  {
    if names == [] then Some([])
    else
      var rest := ResolvedCategories(rows, names[1..]);
      if !CategoryExists(rows, names[0]) then None
      else if rest.None? then
        assert !forall k :: 0 <= k < |names| - 1 ==> CategoryExists(rows, names[1..][k]);
        None
      else Some([FindCategory(rows, names[0]).value] + rest.value)
  }

  function CategoryDisplayNames(ts: seq<CategoryRow>): seq<string> {
    seq(|ts|, k requires 0 <= k < |ts| => ts[k].displayName)
  }

  function CategoryIds(ts: seq<CategoryRow>): set<int> {
    set k | 0 <= k < |ts| :: ts[k].id
  }

  lemma CategoryIdsNext(ts: seq<CategoryRow>, i: nat)
    requires i < |ts|
    ensures CategoryIds(ts[..i + 1]) == CategoryIds(ts[..i]) + {ts[i].id}
  {
    var a, b := ts[..i + 1], ts[..i];
    forall y | y in CategoryIds(a)
      ensures y in CategoryIds(b) + {ts[i].id}
    {
      var k :| 0 <= k < |a| && a[k].id == y;
      if k < i {
        assert b[k] == a[k];
      }
    }
    forall y | y in CategoryIds(b)
      ensures y in CategoryIds(a)
    {
      var k :| 0 <= k < |b| && b[k].id == y;
      assert a[k] == b[k];
    }
    assert a[i] == ts[i];
  }

  /** The category the merge branch stores, with no parent: refused for
      fewer than two selections, for a selection with no category, and when the slug of the
      joined display names is a stored nicename. */
  function MergedCategory(rows: seq<CategoryRow>, names: seq<string>, next: int): (r: Outcome<CategoryRow>)
    ensures |names| <= 1 ==> r == Refused(TooFewSelected)
    ensures |names| > 1 && ResolvedCategories(rows, names).None? ==> r == Refused(NotFound)
    ensures r.Done? <==>
              (|names| > 1 && ResolvedCategories(rows, names).Some?
               && !CategoryExists(rows, Slug(JoinSpace(CategoryDisplayNames(ResolvedCategories(rows, names).value)))))
    ensures r == Refused(NicenameTaken) <==>
              (|names| > 1 && ResolvedCategories(rows, names).Some?
               && CategoryExists(rows, Slug(JoinSpace(CategoryDisplayNames(ResolvedCategories(rows, names).value)))))
    ensures r.Done? ==> (ResolvedCategories(rows, names).Some? && r.value.id == next && r.value.parent.None?
              && r.value.displayName == JoinSpace(CategoryDisplayNames(ResolvedCategories(rows, names).value))
              && r.value.nicename == Slug(r.value.displayName)
              && forall i :: 0 <= i < |rows| ==> rows[i].nicename != r.value.nicename)
    ensures r.Done? && UniqueCategories(rows) && (forall i :: 0 <= i < |rows| ==> rows[i].id < next) ==>
              UniqueCategories(rows + [r.value])
  {
    if |names| <= 1 then Refused(TooFewSelected)
    else
      match ResolvedCategories(rows, names)
      case None => Refused(NotFound)
      case Some(ts) =>
        var name := JoinSpace(CategoryDisplayNames(ts));
        if CategoryExists(rows, Slug(name)) then Refused(NicenameTaken) else Done(CategoryRow(next, Slug(name), name, None))
  }

  /** A merge keeps every post's categories resolving to stored rows. */
  lemma MergeKeepsCategoryLinks(rows: seq<CategoryRow>, vs: seq<PostValue>, names: seq<string>, next: int)
    requires CategoriesResolve(rows, vs) && MergedCategory(rows, names, next).Done?
    ensures var t := MergedCategory(rows, names, next).value;
            CategoriesResolve(rows + [t], Joined(vs, CategoryLinks, CategoryIds(ResolvedCategories(rows, names).value), t.id))
  {
    var t := MergedCategory(rows, names, next).value;
    var r := Joined(vs, CategoryLinks, CategoryIds(ResolvedCategories(rows, names).value), t.id);
    JoinedLinks(vs, CategoryLinks, CategoryIds(ResolvedCategories(rows, names).value), t.id);
    forall k, y | 0 <= k < |r| && y in r[k].categories
      ensures exists u :: u in rows + [t] && u.id == y
    {
      assert y in Links(r[k], CategoryLinks);
      if y == t.id {
        assert t in rows + [t];
      } else {
        var u :| u in rows && u.id == y;
        assert u in rows + [t];
      }
    }
  }

  /** One post of a merged category's posts: categorise it with the merged category. */
  method CategoriseIfHolder(ps: seq<Post>, i: nat, t: CategoryRow, target: CategoryRow)
    requires i < |ps| && forall a, b :: 0 <= a < b < |ps| ==> ps[a] != ps[b]
    modifies ps[i]
    ensures ps[i].View() == Join(old(ps[i].View()), CategoryLinks, {t.id}, target.id)
    ensures forall k :: 0 <= k < |ps| && k != i ==> ps[k].View() == old(ps[k].View())
  {
    var p := ps[i];
    assert Holds(p.View(), CategoryLinks, {t.id}) <==> t.id in p.categories;
    if p.Categorised(t) {
      var added := p.Categorise(target);
    }
  }

  /** `for post in category.posts: post.categorise(new_category)`. */
  method CategoriseHolders(ps: seq<Post>, t: CategoryRow, target: CategoryRow)
    requires forall a, b :: 0 <= a < b < |ps| ==> ps[a] != ps[b]
    modifies ps
    ensures Views(ps) == Joined(old(Views(ps)), CategoryLinks, {t.id}, target.id)
  {
    ghost var views := Views(ps);
    var i := 0;
    while i < |ps|
      invariant 0 <= i <= |ps|
      invariant forall k :: 0 <= k < i ==> ps[k].View() == Join(views[k], CategoryLinks, {t.id}, target.id)
      invariant forall k :: i <= k < |ps| ==> ps[k].View() == views[k]
    {
      CategoriseIfHolder(ps, i, t, target);
      i := i + 1;
    }
    assert Views(ps) == Joined(views, CategoryLinks, {t.id}, target.id);
  }

  /** `for category in cats_to_merge: for post in category.posts:
      post.categorise(new_category)`. */
  method CategoriseAllHolders(ps: seq<Post>, ts: seq<CategoryRow>, target: CategoryRow)
    requires forall a, b :: 0 <= a < b < |ps| ==> ps[a] != ps[b]
    requires forall k :: 0 <= k < |ts| ==> ts[k].id != target.id
    modifies ps
    ensures Views(ps) == Joined(old(Views(ps)), CategoryLinks, CategoryIds(ts), target.id)
  {
    ghost var views := Views(ps);
    DetachedNothing(views, CategoryLinks, target.id);
    assert CategoryIds(ts[..0]) == {};
    var i := 0;
    while i < |ts|
      invariant 0 <= i <= |ts|
      invariant Views(ps) == Joined(views, CategoryLinks, CategoryIds(ts[..i]), target.id)
    {
      CategoriseHolders(ps, ts[i], target);
      JoinedTwice(views, CategoryLinks, CategoryIds(ts[..i]), {ts[i].id}, target.id);
      CategoryIdsNext(ts, i);
      i := i + 1;
    }
    assert ts[..i] == ts;
  }

  /** The write of the merge branch: store the merged category, then
      categorise with it every post of every merged category. */
  method StoreMergedCategory(db: Store, ts: seq<CategoryRow>, nicename: string, name: string) returns (merged: CategoryRow)
    requires db.Valid() && db.DistinctPosts()
    requires forall k :: 0 <= k < |ts| ==> ts[k] in db.categories
    modifies db`categories, db`nextId, db.posts
    ensures db.Valid()
    ensures merged == CategoryRow(old(db.nextId), nicename, name, None)
    ensures db.categories == old(db.categories) + [merged] && db.nextId == old(db.nextId) + 1
    ensures Views(db.posts) == Joined(old(Views(db.posts)), CategoryLinks, CategoryIds(ts), merged.id)
  {
    var ps := db.posts;
    assert forall a, b :: 0 <= a < b < |ps| ==> ps[a] != ps[b];
    ghost var views := Views(ps);
    merged := db.InsertCategory(nicename, name, None);
    assert Views(ps) == views;
    label Stored:
    CategoriseAllHolders(ps, ts, merged);
    assert unchanged@Stored(db);
  }

  /** The merge branch of `merge_delete_categories`: refused without a write, or
      the merged category stored and given to every post of the merged categories. */
  method MergeCategories(db: Store, names: seq<string>) returns (r: Outcome<CategoryRow>)
    requires db.Valid() && db.DistinctPosts()
    modifies db`categories, db`nextId, db.posts
    ensures db.Valid()
    ensures r == MergedCategory(old(db.categories), names, old(db.nextId))
    ensures r.Refused? ==> db.categories == old(db.categories) && db.nextId == old(db.nextId) && Views(db.posts) == old(Views(db.posts))
    ensures r.Done? ==> db.categories == old(db.categories) + [r.value] && db.nextId == old(db.nextId) + 1
    ensures r.Done? ==>
              Views(db.posts) == Joined(old(Views(db.posts)), CategoryLinks, CategoryIds(ResolvedCategories(old(db.categories), names).value), r.value.id)
  {
    if |names| <= 1 {
      r := Refused(TooFewSelected);
    } else {
      var merging := ResolvedCategories(db.categories, names);
      if merging.None? {
        r := Refused(NotFound);
      } else {
        var ts := merging.value;
        var name := JoinSpace(CategoryDisplayNames(ts));
        var nicename := Slug(name);
        if CategoryExists(db.categories, nicename) {
          r := Refused(NicenameTaken);
        } else {
          var merged := StoreMergedCategory(db, ts, nicename, name);
          r := Done(merged);
        }
      }
    }
  }
}
