/** The blog's entity model: tag, category and author rows, posts whose tag,
    category and author associations are lists of row ids, and the store
    that holds the tables. Lookups are `query.filter(key == k).first()` and
    `.count()` over a table kept in insertion order. */
module Models {
  import opened Text

  datatype Option<T> = None | Some(value: T)

  /** The part of a timestamp the model keeps: its year and month. */
  datatype Date = Date(year: int, month: int)

  datatype TagRow = TagRow(id: int, nicename: string, displayName: string)

  datatype CategoryRow = CategoryRow(id: int, nicename: string, displayName: string, parent: Option<int>)

  datatype AuthorRow = AuthorRow(id: int, login: string, email: string, displayName: string,
                                 firstName: string, lastName: string)

  // ---------------------------------------------------------------------
  // Table queries

  /** `filter(hit).first()` as a position: the first row that matches. */
  function FirstIndex<T>(rows: seq<T>, hit: T -> bool): (r: Option<nat>)
    ensures r.Some? ==> r.value < |rows| && hit(rows[r.value])
    ensures r.Some? ==> forall j :: 0 <= j < r.value ==> !hit(rows[j])
    ensures r.None? ==> forall j :: 0 <= j < |rows| ==> !hit(rows[j])
  {
    if rows == [] then None
    else if hit(rows[0]) then Some(0)
    else
      match FirstIndex(rows[1..], hit)
      case None => None
      case Some(k) => Some(k + 1)
  }

  /** `filter(hit).count()`. */
  function Count<T>(rows: seq<T>, hit: T -> bool): nat {
    if rows == [] then 0 else (if hit(rows[0]) then 1 else 0) + Count(rows[1..], hit)
  }

  lemma {:induction false} CountPositive<T>(rows: seq<T>, hit: T -> bool)
    ensures Count(rows, hit) > 0 <==> exists i :: 0 <= i < |rows| && hit(rows[i])
  {
    if rows != [] {
      CountPositive(rows[1..], hit);
      if hit(rows[0]) {
      } else if exists i :: 0 <= i < |rows| && hit(rows[i]) {
        var i :| 0 <= i < |rows| && hit(rows[i]);
        assert hit(rows[1..][i - 1]);
      }
    }
  }

  /** `Tag.query.filter(Tag.nicename == n).first()`. */
  function FindTag(rows: seq<TagRow>, n: string): (r: Option<TagRow>)
    ensures r.None? <==> forall i :: 0 <= i < |rows| ==> rows[i].nicename != n
    ensures r.Some? ==> exists i :: 0 <= i < |rows| && rows[i] == r.value && r.value.nicename == n
                                    && forall j :: 0 <= j < i ==> rows[j].nicename != n
  {
    match FirstIndex(rows, (t: TagRow) => t.nicename == n)
    case None => None
    case Some(i) => Some(rows[i])
  }

  /** `Category.query.filter(Category.nicename == n).first()`. */
  function FindCategory(rows: seq<CategoryRow>, n: string): (r: Option<CategoryRow>)
    ensures r.None? <==> forall i :: 0 <= i < |rows| ==> rows[i].nicename != n
    ensures r.Some? ==> exists i :: 0 <= i < |rows| && rows[i] == r.value && r.value.nicename == n
                                    && forall j :: 0 <= j < i ==> rows[j].nicename != n
  {
    match FirstIndex(rows, (c: CategoryRow) => c.nicename == n)
    case None => None
    case Some(i) => Some(rows[i])
  }

  /** `Author.query.filter(Author.login == login).first()`. */
  function FindAuthor(rows: seq<AuthorRow>, login: string): (r: Option<AuthorRow>)
    ensures r.None? <==> forall i :: 0 <= i < |rows| ==> rows[i].login != login
    ensures r.Some? ==> exists i :: 0 <= i < |rows| && rows[i] == r.value && r.value.login == login
                                    && forall j :: 0 <= j < i ==> rows[j].login != login
  {
    match FirstIndex(rows, (a: AuthorRow) => a.login == login)
    case None => None
    case Some(i) => Some(rows[i])
  }

  /** The row with a given id, as the relationship join finds it. */
  function TagById(rows: seq<TagRow>, id: int): (r: Option<TagRow>)
    ensures r.None? <==> forall i :: 0 <= i < |rows| ==> rows[i].id != id
    ensures r.Some? ==> r.value in rows && r.value.id == id
  {
    match FirstIndex(rows, (t: TagRow) => t.id == id)
    case None => None
    case Some(i) => Some(rows[i])
  }

  function CategoryById(rows: seq<CategoryRow>, id: int): (r: Option<CategoryRow>)
    ensures r.None? <==> forall i :: 0 <= i < |rows| ==> rows[i].id != id
    ensures r.Some? ==> r.value in rows && r.value.id == id
  {
    match FirstIndex(rows, (c: CategoryRow) => c.id == id)
    case None => None
    case Some(i) => Some(rows[i])
  }

  /** `Tag.exists`: at least one row has the nicename. */
  function TagExists(rows: seq<TagRow>, n: string): (b: bool)
    ensures b <==> exists i :: 0 <= i < |rows| && rows[i].nicename == n
    ensures b <==> FindTag(rows, n).Some?
  {
    CountPositive(rows, (t: TagRow) => t.nicename == n);
    Count(rows, (t: TagRow) => t.nicename == n) > 0
  }

  /** `Category.exists`: at least one row has the nicename. */
  function CategoryExists(rows: seq<CategoryRow>, n: string): (b: bool)
    ensures b <==> exists i :: 0 <= i < |rows| && rows[i].nicename == n
    ensures b <==> FindCategory(rows, n).Some?
  {
    CountPositive(rows, (c: CategoryRow) => c.nicename == n);
    Count(rows, (c: CategoryRow) => c.nicename == n) > 0
  }

  /** `Author.exists`: at least one row has the login. */
  function AuthorExists(rows: seq<AuthorRow>, login: string): (b: bool)
    ensures b <==> exists i :: 0 <= i < |rows| && rows[i].login == login
    ensures b <==> FindAuthor(rows, login).Some?
  {
    CountPositive(rows, (a: AuthorRow) => a.login == login);
    Count(rows, (a: AuthorRow) => a.login == login) > 0
  }

  /** `Category.add_parent`: the parent becomes the id of the first category
      with the given nicename; with no such category it stays as it was.
      The source assigns `self.parent` and returns `self`; its one caller
      keeps the returned object, so the model returns the updated row. */
  function AddParent(c: CategoryRow, rows: seq<CategoryRow>, parentNicename: string): (r: CategoryRow)
    ensures r.id == c.id && r.nicename == c.nicename && r.displayName == c.displayName
    ensures CategoryExists(rows, parentNicename) ==>
              exists i :: 0 <= i < |rows| && r.parent == Some(rows[i].id) && rows[i].nicename == parentNicename
                          && forall j :: 0 <= j < i ==> rows[j].nicename != parentNicename
    ensures !CategoryExists(rows, parentNicename) ==> r == c
  {
    match FindCategory(rows, parentNicename)
    case None => c
    case Some(p) => c.(parent := Some(p.id))
  }

  /** The table without the row of the given id, the others in order. */
  function WithoutTag(rows: seq<TagRow>, id: int): (r: seq<TagRow>)
    ensures forall t :: t in r <==> t in rows && t.id != id
    ensures |r| <= |rows|
    ensures (forall i, j :: 0 <= i < j < |rows| ==> rows[i].id != rows[j].id) ==>
              forall i, j :: 0 <= i < j < |r| ==> r[i].id != r[j].id
  {
    if rows == [] then []
    else
      var rest := WithoutTag(rows[1..], id);
      if rows[0].id == id then rest
      else
        assert forall j :: 0 <= j < |rest| ==> rest[j] in rows[1..];
        [rows[0]] + rest
  }

  function WithoutCategory(rows: seq<CategoryRow>, id: int): (r: seq<CategoryRow>)
    ensures forall c :: c in r <==> c in rows && c.id != id
    ensures |r| <= |rows|
    ensures (forall i, j :: 0 <= i < j < |rows| ==> rows[i].id != rows[j].id) ==>
              forall i, j :: 0 <= i < j < |r| ==> r[i].id != r[j].id
  {
    if rows == [] then []
    else
      var rest := WithoutCategory(rows[1..], id);
      if rows[0].id == id then rest
      else
        assert forall j :: 0 <= j < |rest| ==> rest[j] in rows[1..];
        [rows[0]] + rest
  }

  // ---------------------------------------------------------------------
  // Association lists

  predicate NoDup(s: seq<int>) {
    forall i, j :: 0 <= i < j < |s| ==> s[i] != s[j]
  }

  /** Append `x` unless it is already held. */
  function AddId(s: seq<int>, x: int): (r: seq<int>)
    ensures forall y :: y in r <==> y in s || y == x
    ensures NoDup(s) ==> NoDup(r)
    ensures x in s ==> r == s
    ensures x !in s ==> r == s + [x]
  {
    if x in s then s else s + [x]
  }

  /** Every id of `s` that is not in `d`, in order. */
  function RemoveIds(s: seq<int>, d: set<int>): (r: seq<int>)
    ensures forall y :: y in r <==> y in s && y !in d
    ensures |r| <= |s|
    ensures NoDup(s) ==> NoDup(r)
    ensures (forall i :: 0 <= i < |s| ==> s[i] !in d) ==> r == s
  {
    if s == [] then []
    else
      var rest := RemoveIds(s[1..], d);
      if s[0] in d then rest
      else
        assert NoDup(s) ==> s[0] !in s[1..];
        [s[0]] + rest
  }

  /** Remove `x` wherever it occurs. */
  function RemoveId(s: seq<int>, x: int): seq<int> {
    RemoveIds(s, {x})
  }

  /** Removing one set of ids and then another removes their union. */
  lemma {:induction false} RemoveIdsTwice(s: seq<int>, a: set<int>, b: set<int>)
    ensures RemoveIds(RemoveIds(s, a), b) == RemoveIds(s, a + b)
  {
    if s != [] {
      RemoveIdsTwice(s[1..], a, b);
      if s[0] !in a {
        assert RemoveIds(s, a) == [s[0]] + RemoveIds(s[1..], a);
        assert RemoveIds(s, a)[1..] == RemoveIds(s[1..], a);
      }
    }
  }

  /** Tagging and then untagging leaves what untagging alone leaves; on a
      list that did not hold the id, nothing at all changes. */
  lemma AddThenRemove(s: seq<int>, x: int)
    ensures RemoveId(AddId(s, x), x) == RemoveId(s, x)
    ensures x !in s ==> RemoveId(AddId(s, x), x) == s
  {
    if x !in s {
      RemoveIdsAppend(s, [x], {x});
      assert RemoveIds([x], {x}) == [];
    }
  }

  lemma {:induction false} RemoveIdsAppend(a: seq<int>, b: seq<int>, d: set<int>)
    ensures RemoveIds(a + b, d) == RemoveIds(a, d) + RemoveIds(b, d)
  {
    if a == [] {
      assert a + b == b;
    } else {
      assert (a + b)[0] == a[0];
      assert (a + b)[1..] == a[1..] + b;
      RemoveIdsAppend(a[1..], b, d);
    }
  }

  // ---------------------------------------------------------------------
  // Posts

  /** The column values and association lists of a post at one moment. */
  datatype PostValue = PostValue(id: int, displayTitle: string, nicename: string, content: string, excerpt: string,
                                 datePublished: Option<Date>, datePublishedYear: Option<int>,
                                 datePublishedMonth: Option<int>, dateUpdated: Option<Date>,
                                 status: Option<string>, subsite: Option<string>,
                                 tags: seq<int>, categories: seq<int>, authors: seq<int>)

  /** The values of a sequence of posts, position by position. */
  ghost function Views(ps: seq<Post>): (r: seq<PostValue>)
    reads ps
    ensures |r| == |ps|
    ensures forall i :: 0 <= i < |ps| ==> r[i] == ps[i].View()
  {
    seq(|ps|, i requires 0 <= i < |ps| reads ps => ps[i].View())
  }

  lemma ViewsAppend(ps: seq<Post>, p: Post)
    ensures Views(ps + [p]) == Views(ps) + [p.View()]
  {
    assert forall i :: 0 <= i < |ps| ==> (ps + [p])[i] == ps[i];
  }

  class Post {
    var id: int
    var displayTitle: string
    var nicename: string
    var content: string
    var excerpt: string
    var datePublished: Option<Date>
    var datePublishedYear: Option<int>
    var datePublishedMonth: Option<int>
    var dateUpdated: Option<Date>
    var status: Option<string>
    var subsite: Option<string>
    var tags: seq<int>
    var categories: seq<int>
    var authors: seq<int>

    ghost function View(): PostValue
      reads this
    {
      PostValue(id, displayTitle, nicename, content, excerpt, datePublished, datePublishedYear,
                datePublishedMonth, dateUpdated, status, subsite, tags, categories, authors)
    }

    /** A new post row holding the given column values. */
    constructor (v: PostValue)
      ensures View() == v
    {
      id, displayTitle, nicename, content, excerpt := v.id, v.displayTitle, v.nicename, v.content, v.excerpt;
      datePublished, datePublishedYear, datePublishedMonth := v.datePublished, v.datePublishedYear, v.datePublishedMonth;
      dateUpdated, status, subsite := v.dateUpdated, v.status, v.subsite;
      tags, categories, authors := v.tags, v.categories, v.authors;
    }

    /** `make_nicename`: the nicename becomes the slug of the title. */
    method MakeNicename()
      modifies this`nicename
      ensures nicename == Slug(displayTitle)
      ensures WordsAndDashes(nicename) && NoDoubleDash(nicename)
    {
      nicename := Slug(displayTitle);
      SlugShape(displayTitle);
    }

    /** `tagged`: some association row links this post to the tag's id. */
    function Tagged(t: TagRow): (b: bool)
      reads this
      ensures b <==> t.id in tags
    {
      CountPositive(tags, (x: int) => x == t.id);
      Count(tags, (x: int) => x == t.id) > 0
    }

    /** `tag`: append the tag unless it is already held. `added` is true
        exactly when the source returns the post rather than None. */
    method Tag(t: TagRow) returns (added: bool)
      modifies this`tags
      ensures added <==> t.id !in old(tags)
      ensures tags == AddId(old(tags), t.id)
      ensures Tagged(t)
    {
      added := !Tagged(t);
      if added {
        tags := tags + [t.id];
      }
    }

    /** `untag`: drop the tag if it is held; otherwise nothing happens. */
    method Untag(t: TagRow) returns (removed: bool)
      modifies this`tags
      ensures removed <==> t.id in old(tags)
      ensures tags == RemoveId(old(tags), t.id)
      ensures !Tagged(t)
    {
      removed := Tagged(t);
      if removed {
        tags := RemoveId(tags, t.id);
      }
    }

    /** `categorised`: some association row links this post to the
        category's id. */
    function Categorised(c: CategoryRow): (b: bool)
      reads this
      ensures b <==> c.id in categories
    {
      CountPositive(categories, (x: int) => x == c.id);
      Count(categories, (x: int) => x == c.id) > 0
    }

    /** `categorise`: append the category unless it is already held. */
    method Categorise(c: CategoryRow) returns (added: bool)
      modifies this`categories
      ensures added <==> c.id !in old(categories)
      ensures categories == AddId(old(categories), c.id)
      ensures Categorised(c)
    {
      added := !Categorised(c);
      if added {
        categories := categories + [c.id];
      }
    }

    /** `uncategorise`: drop the category if it is held. */
    method Uncategorise(c: CategoryRow) returns (removed: bool)
      modifies this`categories
      ensures removed <==> c.id in old(categories)
      ensures categories == RemoveId(old(categories), c.id)
      ensures !Categorised(c)
    {
      removed := Categorised(c);
      if removed {
        categories := RemoveId(categories, c.id);
      }
    }

    /** `tag_by_nicename`: tag with the first tag row of that nicename; with
        no such row nothing changes and the source returns None. */
    method TagByNicename(db: Store, n: string) returns (added: bool)
      modifies this`tags
      ensures !TagExists(db.tags, n) ==> tags == old(tags) && !added
      ensures TagExists(db.tags, n) ==> tags == AddId(old(tags), FindTag(db.tags, n).value.id)
      ensures added <==> TagExists(db.tags, n) && FindTag(db.tags, n).value.id !in old(tags)
    {
      added := false;
      var t := FindTag(db.tags, n);
      if t.Some? {
        added := Tag(t.value);
      }
    }

    /** `categorise_by_nicename`: categorise with the first category row of
        that nicename; with no such row nothing changes. */
    method CategoriseByNicename(db: Store, n: string) returns (added: bool)
      modifies this`categories
      ensures !CategoryExists(db.categories, n) ==> categories == old(categories) && !added
      ensures CategoryExists(db.categories, n) ==>
                categories == AddId(old(categories), FindCategory(db.categories, n).value.id)
      ensures added <==> CategoryExists(db.categories, n)
                         && FindCategory(db.categories, n).value.id !in old(categories)
    {
      added := false;
      var c := FindCategory(db.categories, n);
      if c.Some? {
        added := Categorise(c.value);
      }
    }

    /** `add_author_by_login`: append the first author with that login,
        with no membership check (so doing it twice attaches the author
        twice); with no such author nothing changes. */
    method AddAuthorByLogin(db: Store, login: string) returns (added: bool)
      modifies this`authors
      ensures added <==> AuthorExists(db.authors, login)
      ensures !added ==> authors == old(authors)
      ensures added ==> authors == old(authors) + [FindAuthor(db.authors, login).value.id]
    {
      var a := FindAuthor(db.authors, login);
      added := a.Some?;
      if added {
        authors := authors + [a.value.id];
      }
    }

    /** `get_excerpt`: the stored excerpt when it is longer than one
        character; otherwise the first line of the content followed by
        "...", or None when the content has no lines. */
    function GetExcerpt(): (r: Option<string>)
      reads this
      ensures |excerpt| > 1 ==> r == Some(excerpt)
      ensures |excerpt| <= 1 ==> (r.None? <==> content == [])
      ensures |excerpt| <= 1 && content != [] ==>
                var k := LineEnd(content);
                r == Some(content[..k] + "...") && NoNewline(content[..k])
                && (k == |content| || content[k] == '\n')
    {
      if |excerpt| > 1 then Some(excerpt)
      else
        var lines := SplitLines(content);
        if lines == [] then None else Some(lines[0] + "...")
    }
  }

  // ---------------------------------------------------------------------
  // The store

  /** The database: one sequence per table, in insertion order, and the id
      the next inserted row receives. */
  class Store {
    var tags: seq<TagRow>
    var categories: seq<CategoryRow>
    var authors: seq<AuthorRow>
    var posts: seq<Post>
    var nextId: int

    /** Every row id is below `nextId` and ids are unique within a table. */
    ghost predicate Valid()
      reads this
    {
      && (forall i :: 0 <= i < |tags| ==> tags[i].id < nextId)
      && (forall i, j :: 0 <= i < j < |tags| ==> tags[i].id != tags[j].id)
      && (forall i :: 0 <= i < |categories| ==> categories[i].id < nextId)
      && (forall i, j :: 0 <= i < j < |categories| ==> categories[i].id != categories[j].id)
      && (forall i :: 0 <= i < |authors| ==> authors[i].id < nextId)
      && (forall i, j :: 0 <= i < j < |authors| ==> authors[i].id != authors[j].id)
    }

    /** No post object is stored twice. */
    ghost predicate DistinctPosts()
      reads this
    {
      forall i, j :: 0 <= i < j < |posts| ==> posts[i] != posts[j]
    }

    constructor ()
      ensures Valid()
      ensures tags == [] && categories == [] && authors == [] && posts == []
    {
      tags, categories, authors, posts := [], [], [], [];
      nextId := 1;
    }

    /** The nicename column of the post table, in insertion order. */
    function PostNicenames(): (r: seq<string>)
      reads this, posts
      ensures |r| == |posts| && forall i :: 0 <= i < |posts| ==> r[i] == posts[i].nicename
    {
      seq(|posts|, i requires 0 <= i < |posts| reads this, posts => posts[i].nicename)
    }

    /** `Post.exists`: the count of stored posts with the nicename is
        positive, that is, some stored post has it. */
    function PostExists(n: string): (b: bool)
      reads this, posts
      ensures b <==> exists i :: 0 <= i < |posts| && posts[i].nicename == n
    {
      CountPositive(PostNicenames(), (s: string) => s == n);
      Count(PostNicenames(), (s: string) => s == n) > 0
    }

    /** Add and commit a new tag row. */
    method InsertTag(nicename: string, displayName: string) returns (t: TagRow)
      requires Valid()
      modifies this`tags, this`nextId
      ensures Valid()
      ensures t == TagRow(old(nextId), nicename, displayName)
      ensures tags == old(tags) + [t] && nextId == old(nextId) + 1
    {
      t := TagRow(nextId, nicename, displayName);
      tags := tags + [t];
      nextId := nextId + 1;
    }

    /** Add and commit a new category row. */
    method InsertCategory(nicename: string, displayName: string, parent: Option<int>) returns (c: CategoryRow)
      requires Valid()
      modifies this`categories, this`nextId
      ensures Valid()
      ensures c == CategoryRow(old(nextId), nicename, displayName, parent)
      ensures categories == old(categories) + [c] && nextId == old(nextId) + 1
    {
      c := CategoryRow(nextId, nicename, displayName, parent);
      categories := categories + [c];
      nextId := nextId + 1;
    }

    /** Add and commit a new author row. */
    method InsertAuthor(login: string, email: string, displayName: string, firstName: string, lastName: string)
      returns (a: AuthorRow)
      requires Valid()
      modifies this`authors, this`nextId
      ensures Valid()
      ensures a == AuthorRow(old(nextId), login, email, displayName, firstName, lastName)
      ensures authors == old(authors) + [a] && nextId == old(nextId) + 1
    {
      a := AuthorRow(nextId, login, email, displayName, firstName, lastName);
      authors := authors + [a];
      nextId := nextId + 1;
    }

    /** `db.session.delete(tag)`: the row with that id leaves the table. */
    method DeleteTag(id: int)
      requires Valid()
      modifies this`tags
      ensures Valid()
      ensures tags == WithoutTag(old(tags), id)
    {
      tags := WithoutTag(tags, id);
    }

    /** `db.session.delete(category)`. */
    method DeleteCategory(id: int)
      requires Valid()
      modifies this`categories
      ensures Valid()
      ensures categories == WithoutCategory(old(categories), id)
    {
      categories := WithoutCategory(categories, id);
    }

    /** Add and commit a new post row with the given columns; the commit
        gives it the next id. */
    method InsertPost(v: PostValue) returns (p: Post)
      requires Valid()
      modifies this`posts, this`nextId
      ensures Valid() && fresh(p)
      ensures posts == old(posts) + [p] && nextId == old(nextId) + 1
      ensures p.View() == v.(id := old(nextId))
    {
      p := new Post(v.(id := nextId));
      posts := posts + [p];
      nextId := nextId + 1;
    }
  }
}
