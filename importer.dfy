/** The WordPress export importer: the already-parsed export document, the
    element selectors the importer searches it with, and `WPFlaskParser`,
    which copies authors, tags, categories and posts into the store with a
    check-then-insert pass each. Texts arrive already unescaped and dates
    already parsed into year and month. */
module Importer {
  import opened Text
  import opened Models
  import opened Passes

  datatype XmlAuthor = XmlAuthor(login: string, email: string, displayName: string,
                                 firstName: string, lastName: string)

  datatype XmlTag = XmlTag(slug: string, name: string)

  /** A category definition: its nicename, name, and the text of its
      `category_parent` child (empty for a top-level category). */
  datatype XmlCategory = XmlCategory(nicename: string, catName: string, categoryParent: string)

  /** A `<category domain=... nicename=...>` child of an item. */
  datatype CategoryRef = CategoryRef(domain: string, nicename: string)

  /** A node that follows an element: bare text, or another element. */
  datatype Sibling = TextNode(text: string) | ElementNode(text: string)

  /** An `item`: `postType` is the text of its `post_type` child, if it has
      one; `afterEncoded` is the nodes that follow its content element. */
  datatype XmlItem = XmlItem(postType: Option<string>, title: string, postName: string, encoded: string,
                             afterEncoded: seq<Sibling>, pubDate: Date, postDate: Date,
                             status: string, creator: string, refs: seq<CategoryRef>)

  /** An element of the export, in document order. A category element
      records the name of its parent element. */
  datatype Element =
    | AuthorElement(author: XmlAuthor)
    | TagElement(tag: XmlTag)
    | CategoryElement(parentName: string, category: XmlCategory)
    | ItemElement(item: XmlItem)
    | OtherElement(name: string)

  // ---------------------------------------------------------------------
  // Selectors

  predicate PostTagMatch(e: Element) {
    e.ItemElement? && e.item.postType == Some("post")
  }

  predicate PageTagMatch(e: Element) {
    e.ItemElement? && e.item.postType == Some("page")
  }

  predicate AttachmentTagMatch(e: Element) {
    e.ItemElement? && e.item.postType == Some("attachment")
  }

  /** A category element that is not the child of an item. */
  predicate CategoryDefinitionMatch(e: Element) {
    e.CategoryElement? && e.parentName != "item"
  }

  /** An element is at most one of a post, a page and an attachment, and
      none of them without a `post_type` child. */
  lemma MatchesExclusive(e: Element)
    ensures !(PostTagMatch(e) && PageTagMatch(e))
    ensures !(PostTagMatch(e) && AttachmentTagMatch(e))
    ensures !(PageTagMatch(e) && AttachmentTagMatch(e))
    ensures e.ItemElement? && e.item.postType.None? ==>
              !PostTagMatch(e) && !PageTagMatch(e) && !AttachmentTagMatch(e)
  {
    assert "post" != "page" by { assert "post"[1] != "page"[1]; }
    assert "post" != "attachment" by { assert |"post"| != |"attachment"|; }
    assert "page" != "attachment" by { assert |"page"| != |"attachment"|; }
  }

  /** `find_all(f)`: the values `get` extracts from the elements it
      accepts, in document order. */
  function Pick<T(!new)>(doc: seq<Element>, get: Element -> Option<T>): (r: seq<T>)
    ensures |r| <= |doc|
    ensures forall x :: x in r <==> exists i :: 0 <= i < |doc| && get(doc[i]) == Some(x)
  {
    if doc == [] then []
    else
      var rest := Pick(doc[1..], get);
      assert forall i :: 1 <= i < |doc| ==> doc[i] == doc[1..][i - 1];
      match get(doc[0])
      case None => rest
      case Some(x) => [x] + rest
  }

  function AuthorOf(e: Element): Option<XmlAuthor> {
    if e.AuthorElement? then Some(e.author) else None
  }

  function TagOf(e: Element): Option<XmlTag> {
    if e.TagElement? then Some(e.tag) else None
  }

  function CategoryDefinitionOf(e: Element): Option<XmlCategory> {
    if CategoryDefinitionMatch(e) then Some(e.category) else None
  }

  function PostOf(e: Element): Option<XmlItem> {
    if PostTagMatch(e) then Some(e.item) else None
  }

  /** The post items of the document are exactly its items whose
      `post_type` is "post"; pages and attachments are never imported. */
  lemma PostsSelected(doc: seq<Element>, x: XmlItem)
    ensures x in Pick(doc, PostOf) <==> ItemElement(x) in doc && x.postType == Some("post")
    ensures x in Pick(doc, PostOf) ==> !PageTagMatch(ItemElement(x)) && !AttachmentTagMatch(ItemElement(x))
  {
    if x in Pick(doc, PostOf) {
      var i :| 0 <= i < |doc| && PostOf(doc[i]) == Some(x);
      MatchesExclusive(doc[i]);
    }
    if ItemElement(x) in doc && x.postType == Some("post") {
      var i :| 0 <= i < |doc| && doc[i] == ItemElement(x);
      assert PostOf(doc[i]) == Some(x);
    }
  }

  /** The category definitions are the category elements outside items. */
  lemma CategoriesSelected(doc: seq<Element>, x: XmlCategory)
    ensures x in Pick(doc, CategoryDefinitionOf) <==>
              exists i :: 0 <= i < |doc| && doc[i].CategoryElement? && doc[i].category == x
                          && doc[i].parentName != "item"
  {
  }

  /** `get_sibling`: the first following node that is not the text "\n";
      None when there is no such node. */
  function GetSibling(nodes: seq<Sibling>): (r: Option<Sibling>)
    ensures r.None? <==> forall i :: 0 <= i < |nodes| ==> nodes[i] == TextNode("\n")
    ensures r.Some? ==> r.value != TextNode("\n")
    ensures r.Some? ==> exists i :: 0 <= i < |nodes| && nodes[i] == r.value
                                    && forall j :: 0 <= j < i ==> nodes[j] == TextNode("\n")
  {
    if nodes == [] then None
    else if nodes[0] == TextNode("\n") then
      var r := GetSibling(nodes[1..]);
      assert forall i :: 1 <= i < |nodes| ==> nodes[i] == nodes[1..][i - 1];
      r
    else Some(nodes[0])
  }

  // ---------------------------------------------------------------------
  // Row builders and keys of the check-then-insert passes

  function XmlAuthorLogin(x: XmlAuthor): string { x.login }
  function AuthorLogin(a: AuthorRow): string { a.login }
  function XmlTagSlug(x: XmlTag): string { x.slug }
  function TagNicename(t: TagRow): string { t.nicename }
  function XmlCategoryNicename(x: XmlCategory): string { x.nicename }
  function CategoryNicename(c: CategoryRow): string { c.nicename }
  function ItemPostName(x: XmlItem): string { x.postName }
  function PostNicename(p: PostValue): string { p.nicename }

  function MakeAuthor(x: XmlAuthor, rows: seq<AuthorRow>, id: int): Option<AuthorRow> {
    Some(AuthorRow(id, x.login, x.email, x.displayName, x.firstName, x.lastName))
  }

  function MakeTag(x: XmlTag, rows: seq<TagRow>, id: int): Option<TagRow> {
    Some(TagRow(id, x.slug, x.name))
  }

  /** A new category row, given a parent when `category_parent` is
      non-empty, resolved against the categories stored so far. */
  function MakeCategory(x: XmlCategory, rows: seq<CategoryRow>, id: int): Option<CategoryRow> {
    var c := CategoryRow(id, x.nicename, x.catName, None);
    Some(if x.categoryParent != "" then AddParent(c, rows, x.categoryParent) else c)
  }

  /** A built category has a parent exactly when its `category_parent` text
      is non-empty and a stored category has that nicename, and the parent
      is the first such category. */
  lemma CategoryParent(x: XmlCategory, rows: seq<CategoryRow>, id: int)
    ensures var c := MakeCategory(x, rows, id).value;
            c.id == id && c.nicename == x.nicename && c.displayName == x.catName
            && (c.parent.Some? <==> x.categoryParent != "" && CategoryExists(rows, x.categoryParent))
            && (c.parent.Some? ==> c.parent == Some(FindCategory(rows, x.categoryParent).value.id))
  {
  }

  /** The ids of the tags a post's category children name with domain
      "post_tag", attached in order, each once. */
  function AttachTags(refs: seq<CategoryRef>, rows: seq<TagRow>): seq<int>
    decreases |refs|
  {
    if refs == [] then []
    else
      var acc := AttachTags(refs[..|refs| - 1], rows);
      var ref := refs[|refs| - 1];
      if ref.domain == "post_tag" && TagExists(rows, ref.nicename) then AddId(acc, FindTag(rows, ref.nicename).value.id)
      else acc
  }

  /** The attached ids are exactly those of the tags that children with
      domain "post_tag" name and that exist, and none is attached twice. */
  lemma {:induction false} AttachTagsExactly(refs: seq<CategoryRef>, rows: seq<TagRow>)
    ensures NoDup(AttachTags(refs, rows))
    ensures forall id :: id in AttachTags(refs, rows) <==>
              exists i :: 0 <= i < |refs| && refs[i].domain == "post_tag" && TagExists(rows, refs[i].nicename)
                          && FindTag(rows, refs[i].nicename).value.id == id
    decreases |refs|
  {
    if refs != [] {
      var init := refs[..|refs| - 1];
      AttachTagsExactly(init, rows);
      assert forall i :: 0 <= i < |init| ==> refs[i] == init[i];
    }
  }

  /** The ids of the categories a post's category children name with
      domain "category", attached in order, each once. */
  function AttachCategories(refs: seq<CategoryRef>, rows: seq<CategoryRow>): seq<int>
    decreases |refs|
  {
    if refs == [] then []
    else
      var acc := AttachCategories(refs[..|refs| - 1], rows);
      var ref := refs[|refs| - 1];
      if ref.domain == "category" && CategoryExists(rows, ref.nicename) then AddId(acc, FindCategory(rows, ref.nicename).value.id)
      else acc
  }

  /** The attached ids are exactly those of the categories that children with
      domain "category" name and that exist, and none is attached twice. */
  lemma {:induction false} AttachCategoriesExactly(refs: seq<CategoryRef>, rows: seq<CategoryRow>)
    ensures NoDup(AttachCategories(refs, rows))
    ensures forall id :: id in AttachCategories(refs, rows) <==>
              exists i :: 0 <= i < |refs| && refs[i].domain == "category" && CategoryExists(rows, refs[i].nicename)
                          && FindCategory(rows, refs[i].nicename).value.id == id
    decreases |refs|
  {
    if refs != [] {
      var init := refs[..|refs| - 1];
      AttachCategoriesExactly(init, rows);
      assert forall i :: 0 <= i < |init| ==> refs[i] == init[i];
    }
  }

  lemma AttachStep(refs: seq<CategoryRef>, j: nat, tags: seq<TagRow>, categories: seq<CategoryRow>)
    requires j < |refs|
    ensures var ref := refs[j];
            AttachTags(refs[..j + 1], tags)
              == if ref.domain == "post_tag" && TagExists(tags, ref.nicename)
                 then AddId(AttachTags(refs[..j], tags), FindTag(tags, ref.nicename).value.id)
                 else AttachTags(refs[..j], tags)
    ensures var ref := refs[j];
            AttachCategories(refs[..j + 1], categories)
              == if ref.domain == "category" && CategoryExists(categories, ref.nicename)
                 then AddId(AttachCategories(refs[..j], categories), FindCategory(categories, ref.nicename).value.id)
                 else AttachCategories(refs[..j], categories)
  {
    assert refs[..j + 1][..j] == refs[..j];
  }

  /** The authors of a new post: the first author with the creator's login,
      if any. */
  function AttachAuthor(login: string, rows: seq<AuthorRow>): seq<int> {
    if AuthorExists(rows, login) then [FindAuthor(rows, login).value.id] else []
  }

  /** A new post from an item, or None when the item has no excerpt node
      after its content (where the source raises). */
  function MakePost(x: XmlItem, id: int, tags: seq<TagRow>, categories: seq<CategoryRow>,
                    authors: seq<AuthorRow>): Option<PostValue>
  {
    match GetSibling(x.afterEncoded)
    case None => None
    case Some(node) => Some(NewPost(x, id, node.text, tags, categories, authors))
  }

  /** The columns of the post saved for an item, before it is given an id
      and associations. */
  function Columns(x: XmlItem, excerpt: string): PostValue {
    PostValue(0, x.title, x.postName, x.encoded, excerpt, Some(x.pubDate), Some(x.pubDate.year),
              Some(x.pubDate.month), Some(x.postDate), Some(x.status), None, [], [], [])
  }

  /** The post saved for an item, with its id and associations. */
  function NewPost(x: XmlItem, id: int, excerpt: string, tags: seq<TagRow>, categories: seq<CategoryRow>,
                   authors: seq<AuthorRow>): PostValue
  {
    Columns(x, excerpt).(id := id, tags := AttachTags(x.refs, tags), categories := AttachCategories(x.refs, categories),
                         authors := AttachAuthor(x.creator, authors))
  }

  function PostMaker(tags: seq<TagRow>, categories: seq<CategoryRow>, authors: seq<AuthorRow>)
    : (XmlItem, seq<PostValue>, int) -> Option<PostValue>
  {
    (x: XmlItem, rows: seq<PostValue>, id: int) => MakePost(x, id, tags, categories, authors)
  }

  /** One step of the post pass: an item whose post name is stored is
      skipped; a new one without an excerpt node stops the pass; any other
      is appended with the next id. */
  lemma PostStep(s: Scanned<PostValue>, x: XmlItem, tags: seq<TagRow>, categories: seq<CategoryRow>,
                 authors: seq<AuthorRow>)
    requires s.ok
    ensures var t := Step(s, x, ItemPostName, PostNicename, PostMaker(tags, categories, authors));
            if HasKey(s.rows, PostNicename, x.postName) then t == s
            else if GetSibling(x.afterEncoded).None? then t == s.(ok := false)
            else t == Scanned(s.rows + [NewPost(x, s.next, GetSibling(x.afterEncoded).value.text, tags, categories, authors)],
                              s.next + 1, true)
  {
  }

  /** A new post takes its columns from the item: the publish year and
      month are those of `pubDate`, the excerpt is the first node after the
      content that is not "\n", and tags and categories are routed by the
      domain of each category child. */
  lemma PostFromItem(x: XmlItem, id: int, tags: seq<TagRow>, categories: seq<CategoryRow>, authors: seq<AuthorRow>)
    ensures var r := MakePost(x, id, tags, categories, authors);
            (r.None? <==> forall i :: 0 <= i < |x.afterEncoded| ==> x.afterEncoded[i] == TextNode("\n"))
            && (r.Some? ==>
                  && r.value.id == id && r.value.nicename == x.postName && r.value.displayTitle == x.title
                  && r.value.datePublished == Some(x.pubDate)
                  && r.value.datePublishedYear == Some(x.pubDate.year)
                  && r.value.datePublishedMonth == Some(x.pubDate.month)
                  && r.value.dateUpdated == Some(x.postDate)
                  && (forall t :: t in r.value.tags <==>
                        exists i :: 0 <= i < |x.refs| && x.refs[i].domain == "post_tag"
                                    && TagExists(tags, x.refs[i].nicename)
                                    && FindTag(tags, x.refs[i].nicename).value.id == t)
                  && (forall c :: c in r.value.categories <==>
                        exists i :: 0 <= i < |x.refs| && x.refs[i].domain == "category"
                                    && CategoryExists(categories, x.refs[i].nicename)
                                    && FindCategory(categories, x.refs[i].nicename).value.id == c)
                  && (r.value.authors != [] <==> AuthorExists(authors, x.creator)))
  {
    AttachTagsExactly(x.refs, tags);
    AttachCategoriesExactly(x.refs, categories);
  }

  lemma AuthorKeys()
    ensures KeyKept(XmlAuthorLogin, AuthorLogin, MakeAuthor)
    ensures forall x, rs, n :: MakeAuthor(x, rs, n).Some?
  {
  }

  lemma TagKeys()
    ensures KeyKept(XmlTagSlug, TagNicename, MakeTag)
    ensures forall x, rs, n :: MakeTag(x, rs, n).Some?
  {
  }

  lemma CategoryKeys()
    ensures KeyKept(XmlCategoryNicename, CategoryNicename, MakeCategory)
    ensures forall x, rs, n :: MakeCategory(x, rs, n).Some?
  {
  }

  lemma PostKeys(tags: seq<TagRow>, categories: seq<CategoryRow>, authors: seq<AuthorRow>)
    ensures KeyKept(ItemPostName, PostNicename, PostMaker(tags, categories, authors))
  {
  }

  // ---------------------------------------------------------------------
  // The importer

  class FlaskParser {
    const doc: seq<Element>
    const db: Store

    /** The parser over an export already read and parsed. */
    constructor (doc: seq<Element>, db: Store)
      ensures this.doc == doc && this.db == db
    {
      this.doc := doc;
      this.db := db;
    }

    /** One author of `save_authors` (parser.py lines 141-150): inserted with its
        login, email and names unless its login is stored. */
    method SaveAuthor(x: XmlAuthor)
      requires db.Valid()
      modifies db`authors, db`nextId
      ensures db.Valid() && Views(db.posts) == old(Views(db.posts))
      ensures var s := Step(Scanned(old(db.authors), old(db.nextId), true), x, XmlAuthorLogin, AuthorLogin, MakeAuthor);
              db.authors == s.rows && db.nextId == s.next
    {
      ghost var views := Views(db.posts);
      assert HasKey(db.authors, AuthorLogin, XmlAuthorLogin(x)) <==> AuthorExists(db.authors, x.login);
      if !AuthorExists(db.authors, x.login) {
        var a := db.InsertAuthor(x.login, x.email, x.displayName, x.firstName, x.lastName);
        assert Views(db.posts) == views;
      }
    }

    /** `save_authors`: insert each document author whose login no stored
        author has. */
    method SaveAuthors()
      requires db.Valid()
      modifies db`authors, db`nextId
      ensures db.Valid() && Views(db.posts) == old(Views(db.posts))
      ensures var s := Scan(old(db.authors), Pick(doc, AuthorOf), old(db.nextId), XmlAuthorLogin, AuthorLogin, MakeAuthor);
              db.authors == s.rows && db.nextId == s.next
    {
      ghost var views, rows, next := Views(db.posts), db.authors, db.nextId;
      var xs := Pick(doc, AuthorOf);
      var i := 0;
      while i < |xs|
        invariant 0 <= i <= |xs|
        invariant db.Valid() && Views(db.posts) == views
        invariant Scan(rows, xs[..i], next, XmlAuthorLogin, AuthorLogin, MakeAuthor) == Scanned(db.authors, db.nextId, true)
      {
        ScanNext(rows, xs, i, next, XmlAuthorLogin, AuthorLogin, MakeAuthor);
        SaveAuthor(xs[i]);
        i := i + 1;
      }
      assert xs[..i] == xs;
    }

    /** One tag of `save_tags` (parser.py lines 156-162): inserted with its slug and
        name unless its slug is a stored nicename. */
    method SaveTag(x: XmlTag)
      requires db.Valid()
      modifies db`tags, db`nextId
      ensures db.Valid() && Views(db.posts) == old(Views(db.posts))
      ensures var s := Step(Scanned(old(db.tags), old(db.nextId), true), x, XmlTagSlug, TagNicename, MakeTag);
              db.tags == s.rows && db.nextId == s.next
    {
      ghost var views := Views(db.posts);
      assert HasKey(db.tags, TagNicename, XmlTagSlug(x)) <==> TagExists(db.tags, x.slug);
      if !TagExists(db.tags, x.slug) {
        var t := db.InsertTag(x.slug, x.name);
        assert Views(db.posts) == views;
      }
    }

    /** `save_tags`: insert each document tag whose slug no stored tag has
        as its nicename. */
    method SaveTags()
      requires db.Valid()
      modifies db`tags, db`nextId
      ensures db.Valid() && Views(db.posts) == old(Views(db.posts))
      ensures var s := Scan(old(db.tags), Pick(doc, TagOf), old(db.nextId), XmlTagSlug, TagNicename, MakeTag);
              db.tags == s.rows && db.nextId == s.next
    {
      ghost var views, rows, next := Views(db.posts), db.tags, db.nextId;
      var xs := Pick(doc, TagOf);
      var i := 0;
      while i < |xs|
        invariant 0 <= i <= |xs|
        invariant db.Valid() && Views(db.posts) == views
        invariant Scan(rows, xs[..i], next, XmlTagSlug, TagNicename, MakeTag) == Scanned(db.tags, db.nextId, true)
      {
        ScanNext(rows, xs, i, next, XmlTagSlug, TagNicename, MakeTag);
        SaveTag(xs[i]);
        i := i + 1;
      }
      assert xs[..i] == xs;
    }

    /** One category of `save_categories` (parser.py lines 168-176): inserted unless
        its nicename is stored, with a parent resolved by `add_parent` when
        its `category_parent` text is non-empty. */
    method SaveCategory(x: XmlCategory)
      requires db.Valid()
      modifies db`categories, db`nextId
      ensures db.Valid() && Views(db.posts) == old(Views(db.posts))
      ensures var s := Step(Scanned(old(db.categories), old(db.nextId), true), x, XmlCategoryNicename, CategoryNicename, MakeCategory);
              db.categories == s.rows && db.nextId == s.next
    {
      ghost var views := Views(db.posts);
      assert HasKey(db.categories, CategoryNicename, XmlCategoryNicename(x)) <==> CategoryExists(db.categories, x.nicename);
      if !CategoryExists(db.categories, x.nicename) {
        var parent: Option<int> := None;
        if x.categoryParent != "" {
          parent := AddParent(CategoryRow(db.nextId, x.nicename, x.catName, None), db.categories, x.categoryParent).parent;
        }
        var c := db.InsertCategory(x.nicename, x.catName, parent);
        assert Views(db.posts) == views;
      }
    }

    /** `save_categories`: insert each category definition whose nicename
        no stored category has. */
    method SaveCategories()
      requires db.Valid()
      modifies db`categories, db`nextId
      ensures db.Valid() && Views(db.posts) == old(Views(db.posts))
      ensures var s := Scan(old(db.categories), Pick(doc, CategoryDefinitionOf), old(db.nextId), XmlCategoryNicename, CategoryNicename, MakeCategory);
              db.categories == s.rows && db.nextId == s.next
    {
      ghost var views, rows, next := Views(db.posts), db.categories, db.nextId;
      var xs := Pick(doc, CategoryDefinitionOf);
      var i := 0;
      while i < |xs|
        invariant 0 <= i <= |xs|
        invariant db.Valid() && Views(db.posts) == views
        invariant Scan(rows, xs[..i], next, XmlCategoryNicename, CategoryNicename, MakeCategory) == Scanned(db.categories, db.nextId, true)
      {
        ScanNext(rows, xs, i, next, XmlCategoryNicename, CategoryNicename, MakeCategory);
        SaveCategory(xs[i]);
        i := i + 1;
      }
      assert xs[..i] == xs;
    }

    /** One new post (parser.py lines 185-207): the post row from the item's columns,
        then its author, then its category children. */
    method SaveItem(x: XmlItem, excerpt: string) returns (p: Post)
      requires db.Valid()
      modifies db`posts, db`nextId
      ensures db.Valid() && fresh(p)
      ensures db.posts == old(db.posts) + [p] && db.nextId == old(db.nextId) + 1
      ensures Views(db.posts) == old(Views(db.posts)) + [NewPost(x, old(db.nextId), excerpt, db.tags, db.categories, db.authors)]
    {
      ghost var posts0 := db.posts;
      p := CreatePost(x, excerpt);
      ViewsAppend(posts0, p);
    }

    /** The writes of `SaveItem`, described by the new post's value. */
    method CreatePost(x: XmlItem, excerpt: string) returns (p: Post)
      requires db.Valid()
      modifies db`posts, db`nextId
      ensures db.Valid() && fresh(p)
      ensures db.posts == old(db.posts) + [p] && db.nextId == old(db.nextId) + 1
      ensures p.View() == NewPost(x, old(db.nextId), excerpt, db.tags, db.categories, db.authors)
    {
      p := db.InsertPost(Columns(x, excerpt));
      ghost var v := p.View();
      var added := p.AddAuthorByLogin(db, x.creator);
      assert p.authors == AttachAuthor(x.creator, db.authors);
      AttachRefs(p, x.refs);
      assert p.View() == v.(tags := p.tags, categories := p.categories, authors := p.authors);
    }

    /** parser.py lines 203-207: each category child goes to `tag_by_nicename` when its
        domain is "post_tag" and to `categorise_by_nicename` when it is
        "category". */
    method AttachRefs(p: Post, refs: seq<CategoryRef>)
      requires p.tags == [] && p.categories == []
      modifies p`tags, p`categories
      ensures p.tags == AttachTags(refs, db.tags)
      ensures p.categories == AttachCategories(refs, db.categories)
    {
      var j := 0;
      while j < |refs|
        invariant 0 <= j <= |refs|
        invariant p.tags == AttachTags(refs[..j], db.tags)
        invariant p.categories == AttachCategories(refs[..j], db.categories)
      {
        AttachStep(refs, j, db.tags, db.categories);
        AttachRef(p, refs[j]);
        j := j + 1;
      }
      assert refs[..j] == refs;
    }

    /** One category child of an item (parser.py lines 203-207). */
    method AttachRef(p: Post, ref: CategoryRef)
      modifies p`tags, p`categories
      ensures p.tags == if ref.domain == "post_tag" && TagExists(db.tags, ref.nicename)
                        then AddId(old(p.tags), FindTag(db.tags, ref.nicename).value.id)
                        else old(p.tags)
      ensures p.categories == if ref.domain == "category" && CategoryExists(db.categories, ref.nicename)
                              then AddId(old(p.categories), FindCategory(db.categories, ref.nicename).value.id)
                              else old(p.categories)
    {
      assert "post_tag" != "category" by { assert "post_tag"[0] != "category"[0]; }
      var added;
      if ref.domain == "post_tag" {
        added := p.TagByNicename(db, ref.nicename);
      }
      assert p.categories == old(p.categories);
      if ref.domain == "category" {
        added := p.CategoriseByNicename(db, ref.nicename);
      }
    }

    /** One post item of `save_posts` (parser.py lines 183-209): skipped when its
        post name is stored; otherwise saved, unless it has no excerpt node,
        which stops the import. */
    method SaveItemIfNew(x: XmlItem) returns (ok: bool)
      requires db.Valid()
      modifies db`posts, db`nextId
      ensures db.Valid()
      ensures var s := Step(Scanned(old(Views(db.posts)), old(db.nextId), true), x, ItemPostName, PostNicename,
                            PostMaker(db.tags, db.categories, db.authors));
              Views(db.posts) == s.rows && db.nextId == s.next && ok == s.ok
    {
      ghost var views := Views(db.posts);
      PostStep(Scanned(views, db.nextId, true), x, db.tags, db.categories, db.authors);
      assert db.PostExists(x.postName) <==> HasKey(views, PostNicename, ItemPostName(x)) by {
        assert forall k :: 0 <= k < |db.posts| ==> PostNicename(views[k]) == db.posts[k].nicename;
      }
      ok := true;
      if !db.PostExists(x.postName) {
        var node := GetSibling(x.afterEncoded);
        if node.None? {
          ok := false;
        } else {
          var p := SaveItem(x, node.value.text);
        }
      }
    }

    /** `save_posts`: each post item in document order, stopping at the
        first one whose excerpt node is missing (`ok` false); the posts
        saved before it stay. Stored posts are left as they were. */
    method SavePosts() returns (ok: bool)
      requires db.Valid()
      modifies db`posts, db`nextId
      ensures db.Valid()
      ensures var s := Scan(old(Views(db.posts)), Pick(doc, PostOf), old(db.nextId), ItemPostName, PostNicename,
                            PostMaker(db.tags, db.categories, db.authors));
              Views(db.posts) == s.rows && db.nextId == s.next && ok == s.ok
    {
      var xs := Pick(doc, PostOf);
      ghost var before := Views(db.posts);
      ghost var make := PostMaker(db.tags, db.categories, db.authors);
      ok := true;
      var i := 0;
      while i < |xs|
        invariant 0 <= i <= |xs|
        invariant db.Valid()
        invariant var s := Scan(before, xs[..i], old(db.nextId), ItemPostName, PostNicename, make);
                  Views(db.posts) == s.rows && db.nextId == s.next && s.ok
      {
        ScanNext(before, xs, i, old(db.nextId), ItemPostName, PostNicename, make);
        assert Scan(before, xs[..i], old(db.nextId), ItemPostName, PostNicename, make)
               == Scanned(Views(db.posts), db.nextId, true);
        ok := SaveItemIfNew(xs[i]);
        if !ok {
          ScanStopped(before, xs, i + 1, old(db.nextId), ItemPostName, PostNicename, make);
          break;
        }
        i := i + 1;
      }
      if ok {
        assert xs[..i] == xs;
      }
    }

    /** `save_all`: authors, then tags, then categories, then posts, each
        pass seeing the rows the earlier ones stored. */
    method SaveAll() returns (ok: bool)
      requires db.Valid()
      modifies db`authors, db`tags, db`categories, db`posts, db`nextId
      ensures db.Valid()
      ensures var a := Scan(old(db.authors), Pick(doc, AuthorOf), old(db.nextId), XmlAuthorLogin, AuthorLogin, MakeAuthor);
              var t := Scan(old(db.tags), Pick(doc, TagOf), a.next, XmlTagSlug, TagNicename, MakeTag);
              var c := Scan(old(db.categories), Pick(doc, CategoryDefinitionOf), t.next,
                            XmlCategoryNicename, CategoryNicename, MakeCategory);
              var s := Scan(old(Views(db.posts)), Pick(doc, PostOf), c.next, ItemPostName, PostNicename,
                            PostMaker(t.rows, c.rows, a.rows));
              db.authors == a.rows && db.tags == t.rows && db.categories == c.rows
              && Views(db.posts) == s.rows && db.nextId == s.next && ok == s.ok
    {
      ghost var views := Views(db.posts);
      ghost var tags0, categories0 := db.tags, db.categories;
      ghost var a := Scan(db.authors, Pick(doc, AuthorOf), db.nextId, XmlAuthorLogin, AuthorLogin, MakeAuthor);
      SaveAuthors();
      assert db.authors == a.rows && db.nextId == a.next && db.tags == tags0;
      ghost var t := Scan(db.tags, Pick(doc, TagOf), db.nextId, XmlTagSlug, TagNicename, MakeTag);
      SaveTags();
      assert db.tags == t.rows && db.nextId == t.next && db.categories == categories0;
      ghost var c := Scan(db.categories, Pick(doc, CategoryDefinitionOf), db.nextId,
                          XmlCategoryNicename, CategoryNicename, MakeCategory);
      SaveCategories();
      assert db.categories == c.rows && db.nextId == c.next;
      assert Views(db.posts) == views;
      ok := SavePosts();
      assert db.authors == a.rows && db.tags == t.rows && db.categories == c.rows;
    }
  }
}
