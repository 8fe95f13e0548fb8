/** The store logic of the blog's tag pages: adding a tag, and the delete
    and merge branches of the merge/delete page. A tag's posts are the
    stored posts whose tag list holds its id. */
module BlogTags {
  import opened Text
  import opened Models
  import opened BlogStore

  /** Every tag id a post holds is the id of a stored tag row. */
  predicate LinksResolve(rows: seq<TagRow>, vs: seq<PostValue>) {
    forall k, y :: 0 <= k < |vs| && y in vs[k].tags ==> exists t :: t in rows && t.id == y
  }

  // ---------------------------------------------------------------------
  // Adding a tag

  /** The tag the add page stores for a display name: its nicename is the
      slug of the name, and the request is refused when a stored tag
      already has that nicename. */
  function NewTag(rows: seq<TagRow>, next: int, name: string): (r: Outcome<TagRow>)
    ensures r.Refused? <==> exists i :: 0 <= i < |rows| && rows[i].nicename == Slug(name)
    ensures r.Refused? ==> r.why == NicenameTaken
    ensures r.Done? ==> r.value.id == next && r.value.displayName == name && r.value.nicename == Slug(name)
    ensures r.Done? && UniqueTags(rows) && (forall i :: 0 <= i < |rows| ==> rows[i].id < next) ==>
              UniqueTags(rows + [r.value])
  {
    var nicename := Slug(name);
    if TagExists(rows, nicename) then Refused(NicenameTaken) else Done(TagRow(next, nicename, name))
  }

  /** The add branch of `add_tags`: store the new tag unless its nicename
      is taken. */
  method AddTag(db: Store, name: string) returns (r: Outcome<TagRow>)
    requires db.Valid()
    modifies db`tags, db`nextId
    ensures db.Valid()
    ensures r == NewTag(old(db.tags), old(db.nextId), name)
    ensures r.Refused? ==> db.tags == old(db.tags) && db.nextId == old(db.nextId)
    ensures r.Done? ==> db.tags == old(db.tags) + [r.value] && db.nextId == old(db.nextId) + 1
  {
    var nicename := Slug(name);
    if TagExists(db.tags, nicename) {
      r := Refused(NicenameTaken);
    } else {
      var t := db.InsertTag(nicename, name);
      r := Done(t);
    }
  }

  // ---------------------------------------------------------------------
  // Deleting tags

  /** The delete branch: for each selected nicename in turn, the first tag
      with it (if any) is taken off every post and then removed. */
  function DeletedTags(rows: seq<TagRow>, vs: seq<PostValue>, names: seq<string>): Tables<TagRow>
    decreases |names|
  {
    if names == [] then Tables(rows, vs)
    else DeleteStep(DeletedTags(rows, vs, names[..|names| - 1]), names[|names| - 1])
  }

  /** One selected nicename of the delete branch. */
  function DeleteStep(s: Tables<TagRow>, n: string): Tables<TagRow> {
    match FindTag(s.rows, n)
    case None => s
    case Some(t) => Tables(WithoutTag(s.rows, t.id), Detached(s.posts, TagLinks, {t.id}))
  }

  lemma DeletedTagsNext(rows: seq<TagRow>, vs: seq<PostValue>, names: seq<string>, i: nat)
    requires i < |names|
    ensures DeletedTags(rows, vs, names[..i + 1]) == DeleteStep(DeletedTags(rows, vs, names[..i]), names[i])
  {
    assert names[..i + 1][..i] == names[..i];
  }

  /** The ids of the rows whose nicename is selected. */
  function NamedIds(rows: seq<TagRow>, names: seq<string>): set<int> {
    set t | t in rows && t.nicename in names :: t.id
  }

  /** `s` is what deleting `names` leaves of `rows` and `vs`: exactly the
      rows whose nicename is not selected, keys still unique, and exactly
      the selected rows' ids taken off every post. */
  ghost predicate DeletedExactly(rows: seq<TagRow>, vs: seq<PostValue>, names: seq<string>, s: Tables<TagRow>) {
    && (forall t :: t in s.rows <==> t in rows && t.nicename !in names)
    && UniqueTags(s.rows)
    && s.posts == Detached(vs, TagLinks, NamedIds(rows, names))
  }

  /** A selected nicename with no row left changes nothing. */
  lemma DeleteStepMissing(rows: seq<TagRow>, vs: seq<PostValue>, init: seq<string>, n: string, s: Tables<TagRow>)
    requires UniqueTags(rows) && DeletedExactly(rows, vs, init, s)
    requires FindTag(s.rows, n).None?
    ensures DeletedExactly(rows, vs, init + [n], DeleteStep(s, n))
  {
    assert forall t :: t in s.rows ==> t.nicename != n;
    assert NamedIds(rows, init + [n]) == NamedIds(rows, init);
  }

  /** A selected nicename whose row is still there removes that row and its id. */
  lemma DeleteStepFound(rows: seq<TagRow>, vs: seq<PostValue>, init: seq<string>, n: string, s: Tables<TagRow>)
    requires UniqueTags(rows) && DeletedExactly(rows, vs, init, s)
    requires FindTag(s.rows, n).Some?
    ensures DeletedExactly(rows, vs, init + [n], DeleteStep(s, n))
  {
    UniqueTagMembers(rows);
    var t := FindTag(s.rows, n).value;
    assert t in s.rows;
    assert NamedIds(rows, init + [n]) == NamedIds(rows, init) + {t.id};
    DetachedTwice(vs, TagLinks, NamedIds(rows, init), {t.id});
    var left := WithoutTag(s.rows, t.id);
    forall i, j | 0 <= i < j < |left|
      ensures left[i].nicename != left[j].nicename
    {
      assert left[i] in rows && left[j] in rows;
    }
  }

  /** In a table with unique keys, deleting a selection removes exactly the
      rows whose nicename is selected, keeps the keys unique, and takes
      exactly their ids off every post. */
  lemma {:induction false} DeletedTagsExactly(rows: seq<TagRow>, vs: seq<PostValue>, names: seq<string>)
    requires UniqueTags(rows)
    ensures DeletedExactly(rows, vs, names, DeletedTags(rows, vs, names))
    decreases |names|
  {
    if names == [] {
      DetachedNothing(vs, TagLinks, 0);
      assert NamedIds(rows, names) == {};
    } else {
      var init, n := names[..|names| - 1], names[|names| - 1];
      assert names == init + [n];
      DeletedTagsExactly(rows, vs, init);
      var s := DeletedTags(rows, vs, init);
      if FindTag(s.rows, n).None? {
        DeleteStepMissing(rows, vs, init, n, s);
      } else {
        DeleteStepFound(rows, vs, init, n, s);
      }
    }
  }

  /** Deleting never leaves a post holding the id of a row that is gone. */
  lemma DeleteKeepsLinks(rows: seq<TagRow>, vs: seq<PostValue>, names: seq<string>)
    requires UniqueTags(rows) && LinksResolve(rows, vs)
    ensures var s := DeletedTags(rows, vs, names); LinksResolve(s.rows, s.posts)
  {
    DeletedTagsExactly(rows, vs, names);
    var s := DeletedTags(rows, vs, names);
    DetachedLinks(vs, TagLinks, NamedIds(rows, names));
    assert forall t :: t in s.rows <==> t in rows && t.nicename !in names;
    forall k, y | 0 <= k < |s.posts| && y in s.posts[k].tags
      ensures exists t :: t in s.rows && t.id == y
    {
      assert y in Links(s.posts[k], TagLinks);
      var t :| t in rows && t.id == y;
      assert t in s.rows;
    }
  }

  /** One post of the tag's posts: untag it. The other posts of `ps` are
      distinct objects and stay as they were. */
  method UntagIfHolder(ps: seq<Post>, i: nat, t: TagRow)
    requires i < |ps| && forall a, b :: 0 <= a < b < |ps| ==> ps[a] != ps[b]
    modifies ps[i]
    ensures ps[i].View() == Detach(old(ps[i].View()), TagLinks, {t.id})
    ensures forall k :: 0 <= k < |ps| && k != i ==> ps[k].View() == old(ps[k].View())
  {
    var p := ps[i];
    if p.Tagged(t) {
      var removed := p.Untag(t);
    } else {
      assert forall j :: 0 <= j < |p.tags| ==> p.tags[j] !in {t.id};
    }
  }

  /** `for post in tag.posts: post.untag(tag)`. */
  method UntagHolders(ps: seq<Post>, t: TagRow)
    requires forall a, b :: 0 <= a < b < |ps| ==> ps[a] != ps[b]
    modifies ps
    ensures Views(ps) == Detached(old(Views(ps)), TagLinks, {t.id})
  {
    ghost var views := Views(ps);
    var i := 0;
    while i < |ps|
      invariant 0 <= i <= |ps|
      invariant forall k :: 0 <= k < i ==> ps[k].View() == Detach(views[k], TagLinks, {t.id})
      invariant forall k :: i <= k < |ps| ==> ps[k].View() == views[k]
    {
      UntagIfHolder(ps, i, t);
      i := i + 1;
    }
    assert Views(ps) == Detached(views, TagLinks, {t.id});
  }

  /** One selected nicename of the delete branch, on the stored posts `ps`. */
  method DeleteOne(db: Store, ps: seq<Post>, name: string)
    requires db.Valid() && db.posts == ps
    requires forall a, b :: 0 <= a < b < |ps| ==> ps[a] != ps[b]
    modifies db`tags, ps
    ensures db.Valid() && db.posts == ps
    ensures Tables(db.tags, Views(ps)) == DeleteStep(old(Tables(db.tags, Views(ps))), name)
  {
    ghost var before := Tables(db.tags, Views(ps));
    var found := FindTag(db.tags, name);
    if found.Some? {
      var t := found.value;
      assert DeleteStep(before, name) == Tables(WithoutTag(before.rows, t.id), Detached(before.posts, TagLinks, {t.id}));
      label Found:
      UntagHolders(ps, t);
      assert unchanged@Found(db);
      ghost var after := Views(ps);
      db.DeleteTag(t.id);
      assert Views(ps) == after;
    }
  }

  /** The delete branch of `merge_delete_tags`, over the posts stored when
      it starts. */
  method DeleteTags(db: Store, names: seq<string>)
    requires db.Valid() && db.DistinctPosts()
    modifies db`tags, db.posts
    ensures db.Valid()
    ensures Tables(db.tags, Views(db.posts)) == DeletedTags(old(db.tags), old(Views(db.posts)), names)
  {
    var ps := db.posts;
    assert forall a, b :: 0 <= a < b < |ps| ==> ps[a] != ps[b];
    ghost var rows, views := db.tags, Views(ps);
    var i := 0;
    while i < |names|
      invariant 0 <= i <= |names|
      invariant db.Valid() && db.posts == ps
      invariant Tables(db.tags, Views(ps)) == DeletedTags(rows, views, names[..i])
    {
      DeletedTagsNext(rows, views, names, i);
      DeleteOne(db, ps, names[i]);
      i := i + 1;
    }
    assert names[..i] == names;
  }

  // ---------------------------------------------------------------------
  // Merging tags

  /** The first tag of each selected nicename, in selection order, or None
      when some selection has no tag. */
  function Resolved(rows: seq<TagRow>, names: seq<string>): (r: Option<seq<TagRow>>)
    ensures r.Some? <==> forall k :: 0 <= k < |names| ==> TagExists(rows, names[k])
    ensures r.Some? ==> |r.value| == |names| && forall k :: 0 <= k < |names| ==> r.value[k] == FindTag(rows, names[k]).value
  {
    if names == [] then Some([])
    else
      var rest := Resolved(rows, names[1..]);
      if !TagExists(rows, names[0]) then None
      else if rest.None? then
        assert !forall k :: 0 <= k < |names| - 1 ==> TagExists(rows, names[1..][k]);
        None
      else Some([FindTag(rows, names[0]).value] + rest.value)
  }

  function DisplayNames(ts: seq<TagRow>): seq<string> {
    seq(|ts|, k requires 0 <= k < |ts| => ts[k].displayName)
  }

  function IdsOf(ts: seq<TagRow>): set<int> {
    set k | 0 <= k < |ts| :: ts[k].id
  }

  lemma IdsOfNext(ts: seq<TagRow>, i: nat)
    requires i < |ts|
    ensures IdsOf(ts[..i + 1]) == IdsOf(ts[..i]) + {ts[i].id}
  {
    var a, b := ts[..i + 1], ts[..i];
    forall y | y in IdsOf(a)
      ensures y in IdsOf(b) + {ts[i].id}
    {
      var k :| 0 <= k < |a| && a[k].id == y;
      if k < i {
        assert b[k] == a[k];
      }
    }
    forall y | y in IdsOf(b)
      ensures y in IdsOf(a)
    {
      var k :| 0 <= k < |b| && b[k].id == y;
      assert a[k] == b[k];
    }
    assert a[i] == ts[i];
  }

  /** The tag the merge branch stores: refused for fewer than two
      selections, for a selection with no tag, and when the slug of the
      joined display names is a stored nicename. */
  function MergedTag(rows: seq<TagRow>, names: seq<string>, next: int): (r: Outcome<TagRow>)
    ensures |names| <= 1 ==> r == Refused(TooFewSelected)
    ensures |names| > 1 && Resolved(rows, names).None? ==> r == Refused(NotFound)
    ensures r.Done? <==>
              (|names| > 1 && Resolved(rows, names).Some?
               && !TagExists(rows, Slug(JoinSpace(DisplayNames(Resolved(rows, names).value)))))
    ensures r == Refused(NicenameTaken) <==>
              (|names| > 1 && Resolved(rows, names).Some?
               && TagExists(rows, Slug(JoinSpace(DisplayNames(Resolved(rows, names).value)))))
    ensures r.Done? ==> (Resolved(rows, names).Some? && r.value.id == next
              && r.value.displayName == JoinSpace(DisplayNames(Resolved(rows, names).value))
              && r.value.nicename == Slug(r.value.displayName)
              && forall i :: 0 <= i < |rows| ==> rows[i].nicename != r.value.nicename)
    ensures r.Done? && UniqueTags(rows) && (forall i :: 0 <= i < |rows| ==> rows[i].id < next) ==>
              UniqueTags(rows + [r.value])
  {
    if |names| <= 1 then Refused(TooFewSelected)
    else
      match Resolved(rows, names)
      case None => Refused(NotFound)
      case Some(ts) =>
        var name := JoinSpace(DisplayNames(ts));
        if TagExists(rows, Slug(name)) then Refused(NicenameTaken) else Done(TagRow(next, Slug(name), name))
  }

  /** A merge keeps every post's tags resolving to stored rows. */
  lemma MergeKeepsLinks(rows: seq<TagRow>, vs: seq<PostValue>, names: seq<string>, next: int)
    requires LinksResolve(rows, vs) && MergedTag(rows, names, next).Done?
    ensures var t := MergedTag(rows, names, next).value;
            LinksResolve(rows + [t], Joined(vs, TagLinks, IdsOf(Resolved(rows, names).value), t.id))
  {
    var t := MergedTag(rows, names, next).value;
    var r := Joined(vs, TagLinks, IdsOf(Resolved(rows, names).value), t.id);
    JoinedLinks(vs, TagLinks, IdsOf(Resolved(rows, names).value), t.id);
    forall k, y | 0 <= k < |r| && y in r[k].tags
      ensures exists u :: u in rows + [t] && u.id == y
    {
      assert y in Links(r[k], TagLinks);
      if y == t.id {
        assert t in rows + [t];
      } else {
        var u :| u in rows && u.id == y;
        assert u in rows + [t];
      }
    }
  }

  /** One post of a merged tag's posts: tag it with the merged tag. */
  method TagIfHolder(ps: seq<Post>, i: nat, t: TagRow, target: TagRow)
    requires i < |ps| && forall a, b :: 0 <= a < b < |ps| ==> ps[a] != ps[b]
    modifies ps[i]
    ensures ps[i].View() == Join(old(ps[i].View()), TagLinks, {t.id}, target.id)
    ensures forall k :: 0 <= k < |ps| && k != i ==> ps[k].View() == old(ps[k].View())
  {
    var p := ps[i];
    assert Holds(p.View(), TagLinks, {t.id}) <==> t.id in p.tags;
    if p.Tagged(t) {
      var added := p.Tag(target);
    }
  }

  /** `for post in tag.posts: post.tag(new_tag)`. */
  method TagHolders(ps: seq<Post>, t: TagRow, target: TagRow)
    requires forall a, b :: 0 <= a < b < |ps| ==> ps[a] != ps[b]
    modifies ps
    ensures Views(ps) == Joined(old(Views(ps)), TagLinks, {t.id}, target.id)
  {
    ghost var views := Views(ps);
    var i := 0;
    while i < |ps|
      invariant 0 <= i <= |ps|
      invariant forall k :: 0 <= k < i ==> ps[k].View() == Join(views[k], TagLinks, {t.id}, target.id)
      invariant forall k :: i <= k < |ps| ==> ps[k].View() == views[k]
    {
      TagIfHolder(ps, i, t, target);
      i := i + 1;
    }
    assert Views(ps) == Joined(views, TagLinks, {t.id}, target.id);
  }

  /** `for tag in tags_to_merge: for post in tag.posts: post.tag(new_tag)`. */
  method TagAllHolders(ps: seq<Post>, ts: seq<TagRow>, target: TagRow)
    requires forall a, b :: 0 <= a < b < |ps| ==> ps[a] != ps[b]
    requires forall k :: 0 <= k < |ts| ==> ts[k].id != target.id
    modifies ps
    ensures Views(ps) == Joined(old(Views(ps)), TagLinks, IdsOf(ts), target.id)
  {
    ghost var views := Views(ps);
    DetachedNothing(views, TagLinks, target.id);
    assert IdsOf(ts[..0]) == {};
    var i := 0;
    while i < |ts|
      invariant 0 <= i <= |ts|
      invariant Views(ps) == Joined(views, TagLinks, IdsOf(ts[..i]), target.id)
    {
      TagHolders(ps, ts[i], target);
      JoinedTwice(views, TagLinks, IdsOf(ts[..i]), {ts[i].id}, target.id);
      IdsOfNext(ts, i);
      i := i + 1;
    }
    assert ts[..i] == ts;
  }

  /** The write of the merge branch: store the merged tag, then tag with it
      every post of every merged tag. */
  method StoreMergedTag(db: Store, ts: seq<TagRow>, nicename: string, name: string) returns (merged: TagRow)
    requires db.Valid() && db.DistinctPosts()
    requires forall k :: 0 <= k < |ts| ==> ts[k] in db.tags
    modifies db`tags, db`nextId, db.posts
    ensures db.Valid()
    ensures merged == TagRow(old(db.nextId), nicename, name)
    ensures db.tags == old(db.tags) + [merged] && db.nextId == old(db.nextId) + 1
    ensures Views(db.posts) == Joined(old(Views(db.posts)), TagLinks, IdsOf(ts), merged.id)
  {
    var ps := db.posts;
    assert forall a, b :: 0 <= a < b < |ps| ==> ps[a] != ps[b];
    ghost var views := Views(ps);
    merged := db.InsertTag(nicename, name);
    assert Views(ps) == views;
    label Stored:
    TagAllHolders(ps, ts, merged);
    assert unchanged@Stored(db);
  }

  /** The merge branch of `merge_delete_tags`: refused without a write, or
      the merged tag stored and given to every post of the merged tags. */
  method MergeTags(db: Store, names: seq<string>) returns (r: Outcome<TagRow>)
    requires db.Valid() && db.DistinctPosts()
    modifies db`tags, db`nextId, db.posts
    ensures db.Valid()
    ensures r == MergedTag(old(db.tags), names, old(db.nextId))
    ensures r.Refused? ==> db.tags == old(db.tags) && db.nextId == old(db.nextId) && Views(db.posts) == old(Views(db.posts))
    ensures r.Done? ==> db.tags == old(db.tags) + [r.value] && db.nextId == old(db.nextId) + 1
    ensures r.Done? ==>
              Views(db.posts) == Joined(old(Views(db.posts)), TagLinks, IdsOf(Resolved(old(db.tags), names).value), r.value.id)
  {
    if |names| <= 1 {
      r := Refused(TooFewSelected);
    } else {
      var merging := Resolved(db.tags, names);
      if merging.None? {
        r := Refused(NotFound);
      } else {
        var ts := merging.value;
        var name := JoinSpace(DisplayNames(ts));
        var nicename := Slug(name);
        if TagExists(db.tags, nicename) {
          r := Refused(NicenameTaken);
        } else {
          var merged := StoreMergedTag(db, ts, nicename, name);
          r := Done(merged);
        }
      }
    }
  }
}
