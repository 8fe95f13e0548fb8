/** What the blog's tag and category pages do to the posts' association
    lists, stated on post values: detaching deleted rows and attaching a
    merged row to every post that holds one of the rows it merges. */
module BlogStore {
  import opened Models

  /** Why a tag or category page refuses a request without writing. */
  datatype Refusal =
    | TooFewSelected   // a merge of fewer than two selections
    | NotFound         // a merge selection with no row: the source fails on it before writing
    | NicenameTaken    // the computed nicename is already stored

  datatype Outcome<T> = Done(value: T) | Refused(why: Refusal)

  /** No two tag rows share an id or a nicename. */
  predicate UniqueTags(rows: seq<TagRow>) {
    forall i, j :: 0 <= i < j < |rows| ==> rows[i].id != rows[j].id && rows[i].nicename != rows[j].nicename
  }

  /** No two category rows share an id or a nicename. */
  predicate UniqueCategories(rows: seq<CategoryRow>) {
    forall i, j :: 0 <= i < j < |rows| ==> rows[i].id != rows[j].id && rows[i].nicename != rows[j].nicename
  }

  /** In a table with unique keys a row is determined by its id, and by its nicename. */
  lemma UniqueTagMembers(rows: seq<TagRow>)
    requires UniqueTags(rows)
    ensures forall a, b :: a in rows && b in rows && (a.id == b.id || a.nicename == b.nicename) ==> a == b
  {
    forall a, b | a in rows && b in rows && (a.id == b.id || a.nicename == b.nicename)
      ensures a == b
    {
      var i :| 0 <= i < |rows| && rows[i] == a;
      var j :| 0 <= j < |rows| && rows[j] == b;
      assert !(i < j) && !(j < i);
    }
  }

  lemma UniqueCategoryMembers(rows: seq<CategoryRow>)
    requires UniqueCategories(rows)
    ensures forall a, b :: a in rows && b in rows && (a.id == b.id || a.nicename == b.nicename) ==> a == b
  {
    forall a, b | a in rows && b in rows && (a.id == b.id || a.nicename == b.nicename)
      ensures a == b
    {
      var i :| 0 <= i < |rows| && rows[i] == a;
      var j :| 0 <= j < |rows| && rows[j] == b;
      assert !(i < j) && !(j < i);
    }
  }

  /** A table and the values of the stored posts, as one page leaves them. */
  datatype Tables<R> = Tables(rows: seq<R>, posts: seq<PostValue>)

  /** The two association lists of a post that the pages edit. */
  datatype Relation = TagLinks | CategoryLinks

  function Links(v: PostValue, rel: Relation): seq<int> {
    match rel
    case TagLinks => v.tags
    case CategoryLinks => v.categories
  }

  /** The post with one association list replaced. */
  function Relinked(v: PostValue, rel: Relation, ids: seq<int>): PostValue {
    match rel
    case TagLinks => v.(tags := ids)
    case CategoryLinks => v.(categories := ids)
  }

  /** A post holds one of the ids of `held` in the relation. */
  predicate Holds(v: PostValue, rel: Relation, held: set<int>) {
    exists y :: y in Links(v, rel) && y in held
  }

  /** One post with the ids of `d` taken out of one association list. */
  function Detach(v: PostValue, rel: Relation, d: set<int>): PostValue {
    Relinked(v, rel, RemoveIds(Links(v, rel), d))
  }

  /** One post that, when it holds an id of `held`, also holds `x`. */
  function Join(v: PostValue, rel: Relation, held: set<int>, x: int): PostValue {
    if Holds(v, rel, held) then Relinked(v, rel, AddId(Links(v, rel), x)) else v
  }

  /** Every post with the ids of `d` taken out of one association list. */
  function Detached(vs: seq<PostValue>, rel: Relation, d: set<int>): seq<PostValue> {
    seq(|vs|, k requires 0 <= k < |vs| => Detach(vs[k], rel, d))
  }

  /** Every post that holds an id of `held` also holds `x`, appended
      unless it is already there; the other posts are untouched. */
  function Joined(vs: seq<PostValue>, rel: Relation, held: set<int>, x: int): seq<PostValue> {
    seq(|vs|, k requires 0 <= k < |vs| => Join(vs[k], rel, held, x))
  }

  /** Detaching keeps every post and its other fields, and leaves in each
      list exactly the ids outside `d`, still without duplicates. */
  lemma DetachedLinks(vs: seq<PostValue>, rel: Relation, d: set<int>)
    ensures var r := Detached(vs, rel, d);
            && |r| == |vs|
            && (forall k, y :: 0 <= k < |vs| ==> (y in Links(r[k], rel) <==> y in Links(vs[k], rel) && y !in d))
            && (forall k :: 0 <= k < |vs| ==> Relinked(r[k], rel, Links(vs[k], rel)) == vs[k])
            && (forall k :: 0 <= k < |vs| && NoDup(Links(vs[k], rel)) ==> NoDup(Links(r[k], rel)))
  {
    var r := Detached(vs, rel, d);
    forall k | 0 <= k < |vs|
      ensures forall y :: y in Links(r[k], rel) <==> y in Links(vs[k], rel) && y !in d
      ensures Relinked(r[k], rel, Links(vs[k], rel)) == vs[k]
      ensures NoDup(Links(vs[k], rel)) ==> NoDup(Links(r[k], rel))
    {
      assert Links(r[k], rel) == RemoveIds(Links(vs[k], rel), d);
    }
  }

  /** Joining adds `x` to exactly the posts holding an id of `held`, adds
      nothing else, keeps every post and its other fields, and adds no
      duplicate. */
  lemma JoinedLinks(vs: seq<PostValue>, rel: Relation, held: set<int>, x: int)
    ensures var r := Joined(vs, rel, held, x);
            && |r| == |vs|
            && (forall k :: 0 <= k < |vs| && Holds(vs[k], rel, held) ==> x in Links(r[k], rel))
            && (forall k :: 0 <= k < |vs| && !Holds(vs[k], rel, held) ==> r[k] == vs[k])
            && (forall k :: 0 <= k < |vs| ==> Links(vs[k], rel) <= Links(r[k], rel))
            && (forall k, y :: 0 <= k < |vs| && y in Links(r[k], rel) ==> y in Links(vs[k], rel) || y == x)
            && (forall k :: 0 <= k < |vs| ==> Relinked(r[k], rel, Links(vs[k], rel)) == vs[k])
            && (forall k :: 0 <= k < |vs| && NoDup(Links(vs[k], rel)) ==> NoDup(Links(r[k], rel)))
  {
    var r := Joined(vs, rel, held, x);
    forall k | 0 <= k < |vs|
      ensures Holds(vs[k], rel, held) ==> x in Links(r[k], rel)
      ensures Links(vs[k], rel) <= Links(r[k], rel)
      ensures forall y :: y in Links(r[k], rel) ==> y in Links(vs[k], rel) || y == x
      ensures Relinked(r[k], rel, Links(vs[k], rel)) == vs[k]
      ensures NoDup(Links(vs[k], rel)) ==> NoDup(Links(r[k], rel))
    {
      if Holds(vs[k], rel, held) {
        assert Links(r[k], rel) == AddId(Links(vs[k], rel), x);
      }
    }
  }

  /** Nothing is detached by an empty set, and nothing is joined to no row. */
  lemma DetachedNothing(vs: seq<PostValue>, rel: Relation, x: int)
    ensures Detached(vs, rel, {}) == vs
    ensures Joined(vs, rel, {}, x) == vs
  {
    forall k | 0 <= k < |vs|
      ensures Detached(vs, rel, {})[k] == vs[k]
    {
      var s := Links(vs[k], rel);
      assert forall i :: 0 <= i < |s| ==> s[i] !in {};
    }
  }

  /** Detaching one set and then another detaches their union. */
  lemma DetachedTwice(vs: seq<PostValue>, rel: Relation, a: set<int>, b: set<int>)
    ensures Detached(Detached(vs, rel, a), rel, b) == Detached(vs, rel, a + b)
  {
    forall k | 0 <= k < |vs|
      ensures Detached(Detached(vs, rel, a), rel, b)[k] == Detached(vs, rel, a + b)[k]
    {
      RemoveIdsTwice(Links(vs[k], rel), a, b);
    }
  }

  /** Joining the holders of one set and then of another, to an id outside
      the second set, joins the holders of their union. */
  lemma JoinedTwice(vs: seq<PostValue>, rel: Relation, a: set<int>, b: set<int>, x: int)
    requires x !in b
    ensures Joined(Joined(vs, rel, a, x), rel, b, x) == Joined(vs, rel, a + b, x)
  {
    var once := Joined(vs, rel, a, x);
    forall k | 0 <= k < |vs|
      ensures Joined(once, rel, b, x)[k] == Joined(vs, rel, a + b, x)[k]
    {
      var s := Links(vs[k], rel);
      assert Links(once[k], rel) == AddId(s, x) || Links(once[k], rel) == s;
      assert Holds(once[k], rel, b) <==> Holds(vs[k], rel, b);
      assert Holds(vs[k], rel, a + b) <==> Holds(vs[k], rel, a) || Holds(vs[k], rel, b);
    }
  }
}
