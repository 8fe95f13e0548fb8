# Blog store and WordPress importer, in Dafny

This project models the data layer of a small Flask blog and the importer
that fills it from a WordPress export:

- **The entity model** (`wordpress_converter/models.py`). Tags, categories
  and authors are rows. A post is an object whose columns are updated in
  place and whose tag, category and author associations are lists of row
  ids. The store holds one table per entity, in insertion order, and hands
  out ids from one counter. Lookups are `filter(key == k).first()` and
  `.count()` over those tables. `make_nicename` is the slug pipeline: lower,
  strip, delete `[^\w\s]`, and turn each `\s+` into `-`.
- **The WordPress importer** (`WPFlaskParser` in
  `wordpress_converter/parser.py`). The export arrives as a parsed element
  sequence. `save_authors`, `save_tags`, `save_categories` and `save_posts`
  are each one check-then-insert pass (module `Passes`). `save_posts` routes
  an item's category children to tags or categories by their `domain`.
- **The blog blueprint's store logic** (`benhoyle/blueprints/blog/views.py`):
  - the `contentfilter` template filter;
  - `edit_post`, with its draft/publish buttons, column assignments and the
    two synchronisation loops for categories and tags;
  - `add_post`;
  - the tag and category add pages;
  - the delete and merge branches of the merge/delete pages.
- **The older web server** (`website/webserver.py`) and how it differs.
  Its `contentfilter` (lines 39-56) and its tag and category pages (lines
  286-303, 333-383, 388-405, 434-484) are the same code as the blueprint's,
  so the blueprint's members model them too. Its `edit_post` and `add_post`
  are modelled separately (module `WebServer`): they put the publication
  year and month in local variables rather than on the post (see Findings).

Modules, in dependency order:

| module | file | models |
|---|---|---|
| `Text` | `text.dfy` | ASCII `lower`, `strip`, `splitlines`, `" ".join`, `\s`, `\w`, and the slug |
| `Models` | `models.dfy` | rows, the `Post` class, the `Store` class, lookups, association edits |
| `Passes` | `passes.dfy` | the generic check-then-insert pass shared by the four `save_*` methods |
| `Importer` | `importer.dfy` | element selectors, `get_sibling`, the `FlaskParser` class |
| `BlogFilter` | `blog_filter.dfy` | `contentfilter` |
| `BlogStore` | `blog_store.dfy` | refusals, unique-key invariants, detaching and joining ids on posts |
| `BlogTags`, `BlogCategories` | `blog_tags.dfy`, `blog_categories.dfy` | the add and merge/delete pages |
| `BlogPosts` | `blog_posts.dfy` | `edit_post` and `add_post` |
| `WebServer` | `webserver.dfy` | the older server's `edit_post` and `add_post` |

Each imperative operation is a method on the `Post` or `Store` objects. Its
`ensures` ties the new state to a specification function of the old state:
a fold (`Scan`, `DeletedTags`, `SelectedTags`, …) or a value (`Edited`,
`Added`, `MergedTag`). Lemmas then prove what the source promises about
those functions.

## Model

| member | source | states |
|---|---|---|
| Text.Lower | wordpress_converter/models.py:155 | `lower` keeps the length and lower-cases each character independently |
| Text.StripLeftShape | wordpress_converter/models.py:155 | left strip leaves a suffix that does not start with whitespace, after a prefix that is all whitespace |
| Text.StripRightShape | wordpress_converter/models.py:155 | right strip leaves a prefix that does not end with whitespace, before a suffix that is all whitespace |
| Text.StripShape | wordpress_converter/models.py:155 | `strip` adds no character, and a non-empty result neither starts nor ends with whitespace |
| Text.StripEmpty | benhoyle/blueprints/blog/views.py:40 | a line strips to nothing exactly when it is all whitespace (the blank-line test) |
| Text.StripKeeps | wordpress_converter/models.py:155 | `strip` leaves alone a string that starts and ends with a non-space |
| Text.SkipSpaces | wordpress_converter/models.py:156 | skipping a whitespace run leaves a suffix that does not start with whitespace |
| Text.DropPunctuationShape | wordpress_converter/models.py:155 | after deleting `[^\w\s]` only word characters and whitespace remain |
| Text.DropPunctuationKeeps | wordpress_converter/models.py:155 | deleting punctuation leaves a words-and-spaces text unchanged |
| Text.DashSpacesShape | wordpress_converter/models.py:156 | replacing `\s+` with `-` leaves only word characters and dashes, never two dashes in a row, and no leading dash when the text starts with a non-space |
| Text.UndashDashSpaces | wordpress_converter/models.py:156 | deleting the dashes of the dashed text gives the text with its whitespace deleted |
| Text.UnspaceDropPunctuation | wordpress_converter/models.py:155 | deleting punctuation and then whitespace leaves exactly the word characters |
| Text.WordCharsStrip | wordpress_converter/models.py:155 | stripping keeps every word character |
| Text.SlugShape | wordpress_converter/models.py:153-156 | a nicename holds only word characters and dashes, no whitespace, and never two dashes in a row |
| Text.SlugContent | wordpress_converter/models.py:153-156 | deleting a nicename's dashes gives exactly the title's lower-cased word characters, in order |
| Text.SlugTwoWords | wordpress_converter/models.py:153-156 | two words separated by a space slug to both words lower-cased and joined by one dash ("Test Post" to "test-post") |
| Text.SlugDeletesDash | wordpress_converter/models.py:155-156 | slugging is not idempotent: a second pass deletes the dash the first produced |
| Text.LineEnd | wordpress_converter/models.py:220 | the position of the first `\n`, or the length when there is none |
| Text.SplitLines | benhoyle/blueprints/blog/views.py:39 | `splitlines` gives lines without `\n`, none for the empty string, and the first line runs up to the first `\n` |
| Text.JoinSplitLines | benhoyle/blueprints/blog/views.py:39 | joining the lines of `splitlines` with `\n` gives the text back, less one final `\n` |
| Text.SplitJoinLines | benhoyle/blueprints/blog/views.py:52 | joining non-empty newline-free lines with `\n` and splitting again gives the same lines |
| BlogFilter.ContentFilter | benhoyle/blueprints/blog/views.py:35-52 | the loop's output is the `\n`-join of the per-line outputs for the lines of the stripped content, with `p_on` starting true |
| BlogFilter.FilterLine | benhoyle/blueprints/blog/views.py:40-51 | one loop iteration: nothing for a blank line, otherwise the rendered line; and the flag after the line |
| BlogFilter.FilterLines | benhoyle/blueprints/blog/views.py:39-51 | one output line per non-blank input line |
| BlogFilter.NonBlank | benhoyle/blueprints/blog/views.py:40 | the kept lines are input lines and none of them is blank |
| BlogFilter.NonBlankAppend | benhoyle/blueprints/blog/views.py:40 | every non-blank line is kept, in order: the kept lines of two runs are those of each run, and one line is kept exactly when it is not blank |
| BlogFilter.FilterStep | benhoyle/blueprints/blog/views.py:39-51 | the output for a suffix of the lines starts with the output for its first line, then continues under the flag that line leaves |
| BlogFilter.PStateAppend | benhoyle/blueprints/blog/views.py:39-45 | the flag after two runs of lines composes |
| BlogFilter.FilterLinesAt | benhoyle/blueprints/blog/views.py:39-51 | the k-th output line is the k-th non-blank line rendered under the flag its predecessors left |
| BlogFilter.PStateNoTags | benhoyle/blueprints/blog/views.py:41-45 | lines that are not tag-shaped never move the flag |
| BlogFilter.PreTransitions | benhoyle/blueprints/blog/views.py:41-45 | `<pre>` alone turns the flag off, `</pre>` turns it on even when `<pre>` is on the same line, and nothing else moves it |
| BlogFilter.ContentFilterLines | benhoyle/blueprints/blog/views.py:35-52 | one output line per non-blank line: tag lines unchanged, other lines wrapped in `<p>…</p>` (stripped) when the flag is on and unchanged when it is off; and the joined output splits back into those lines |
| BlogFilter.RenderLine | benhoyle/blueprints/blog/views.py:46-51 | a non-blank newline-free line renders as a non-empty newline-free line |
| BlogFilter.PreBlockOff | benhoyle/blueprints/blog/views.py:42-45 | the flag is off on every line after an opening `<pre>` line, up to the next tag-shaped line |
| BlogFilter.PreBlockVerbatim | benhoyle/blueprints/blog/views.py:42-51 | inside a `<pre>` block every line is emitted exactly as written |
| Models.FirstIndex | wordpress_converter/models.py:76 | `first()` finds the first matching row; with none, no row matches |
| Models.CountPositive | wordpress_converter/models.py:72 | `count() > 0` holds exactly when some row matches |
| Models.FindTag | wordpress_converter/models.py:165 | the first tag with the nicename; None exactly when no tag has it |
| Models.FindCategory | wordpress_converter/models.py:187 | the first category with the nicename; None exactly when no category has it |
| Models.FindAuthor | wordpress_converter/models.py:209 | the first author with the login; None exactly when no author has it |
| Models.TagById | wordpress_converter/models.py:140-143 | the stored tag a post's tag id refers to; None exactly when no tag has that id |
| Models.CategoryById | wordpress_converter/models.py:145-148 | the stored category a post's category id refers to; None exactly when no category has that id |
| Models.TagExists | wordpress_converter/models.py:96-99 | `Tag.exists` holds exactly when some tag has the nicename, that is when the `first()` lookup finds one |
| Models.CategoryExists | wordpress_converter/models.py:69-72 | `Category.exists` holds exactly when some category has the nicename |
| Models.AuthorExists | wordpress_converter/models.py:110-113 | `Author.exists` holds exactly when some author has the login |
| Models.AddParent | wordpress_converter/models.py:74-79 | the parent becomes the id of the first category with the nicename; without one the category is unchanged; id and names are kept |
| Models.WithoutTag | benhoyle/blueprints/blog/views.py:581 | deleting a tag row keeps exactly the other rows and keeps ids unique |
| Models.WithoutCategory | benhoyle/blueprints/blog/views.py:454 | deleting a category row keeps exactly the other rows and keeps ids unique |
| Models.AddId | wordpress_converter/models.py:169-173 | appending unless held: the members gain exactly the id, a held id changes nothing, and no duplicate appears |
| Models.RemoveIds | wordpress_converter/models.py:175-179 | removing a set of ids keeps exactly the other ids, in order, without creating duplicates |
| Models.RemoveIdsTwice | wordpress_converter/models.py:175-179 | removing one set and then another removes their union |
| Models.AddThenRemove | wordpress_converter/models.py:169-179 | tagging then untagging is untagging alone, and a list that did not hold the id is restored |
| Models.Post.constructor | wordpress_converter/models.py:115-151 | a new post holds the given column values |
| Models.Post.MakeNicename | wordpress_converter/models.py:153-156 | the nicename becomes the slug of the title: only word characters and single dashes |
| Models.Post.Tagged | wordpress_converter/models.py:181-183 | a tag is assigned exactly when the post holds its id |
| Models.Post.Tag | wordpress_converter/models.py:169-173 | the tag is held afterwards and appended only when it was not held; the result says whether it was appended |
| Models.Post.Untag | wordpress_converter/models.py:175-179 | the tag is not held afterwards; the result says whether it was held |
| Models.Post.Categorised | wordpress_converter/models.py:203-205 | a category is assigned exactly when the post holds its id |
| Models.Post.Categorise | wordpress_converter/models.py:191-195 | the category is held afterwards and appended only when it was not held |
| Models.Post.Uncategorise | wordpress_converter/models.py:197-201 | the category is not held afterwards; the result says whether it was held |
| Models.Post.TagByNicename | wordpress_converter/models.py:163-167 | tags with the first tag of the nicename; with none nothing changes and nothing is returned |
| Models.Post.CategoriseByNicename | wordpress_converter/models.py:185-189 | categorises with the first category of the nicename; with none nothing changes |
| Models.Post.AddAuthorByLogin | wordpress_converter/models.py:207-212 | appends the first author with the login, with no membership check; with none nothing changes |
| Models.Post.GetExcerpt | wordpress_converter/models.py:214-222 | an excerpt longer than one character is returned; otherwise the content's first line plus "...", or None when the content has no lines |
| Models.Store.constructor | wordpress_converter/parser.py:135 | a freshly created database has empty tables and satisfies the store invariant |
| Models.Store.PostExists | wordpress_converter/models.py:158-161 | `Post.exists` holds exactly when some stored post has the nicename |
| Models.Store.InsertTag | benhoyle/blueprints/blog/views.py:524-525 | adding and committing a tag appends it with the next id, keeping ids unique |
| Models.Store.InsertCategory | benhoyle/blueprints/blog/views.py:380-381 | adding and committing a category appends it with the next id |
| Models.Store.InsertAuthor | wordpress_converter/parser.py:149-150 | adding and committing an author appends it with the next id |
| Models.Store.DeleteTag | benhoyle/blueprints/blog/views.py:581-582 | deleting a tag removes exactly that row |
| Models.Store.DeleteCategory | benhoyle/blueprints/blog/views.py:454-455 | deleting a category removes exactly that row |
| Models.Store.InsertPost | wordpress_converter/parser.py:196-197 | adding and committing a post appends a fresh post object with the next id |
| Passes.ScanGrows | wordpress_converter/parser.py:140-150 | a pass only appends rows and takes one id per appended row |
| Passes.ScanMade | wordpress_converter/parser.py:155-162 | every appended row was built from some document element, given the table as it then stood |
| Passes.ScanUnique | wordpress_converter/parser.py:141 | no appended row repeats a key already stored, so a table with unique keys keeps them unique |
| Passes.ScanCovers | wordpress_converter/parser.py:167-176 | a pass that runs to the end leaves every key of the document stored |
| Passes.ScanIdle | wordpress_converter/parser.py:182-183 | when every key is already stored the pass changes nothing |
| Passes.ScanAgain | wordpress_converter/parser.py:211-216 | running a completed pass a second time adds nothing |
| Passes.ScanTotal | wordpress_converter/parser.py:152-162 | a pass whose rows are always built runs to the end |
| Passes.ScanStopped | wordpress_converter/parser.py:178-209 | once a pass has stopped, the remaining elements change nothing |
| Importer.MatchesExclusive | wordpress_converter/parser.py:12-28 | an element is at most one of post, page and attachment, and none of them without a `post_type` child |
| Importer.Pick | wordpress_converter/parser.py:139 | `find_all` returns exactly the values of the accepted elements |
| Importer.PostsSelected | wordpress_converter/parser.py:18-22 | among items, those imported are exactly the ones whose `post_type` is "post": no page, no attachment (elements other than items are never selected here; see Left out) |
| Importer.CategoriesSelected | wordpress_converter/parser.py:30-32 | category definitions are exactly the category elements whose parent is not an item |
| Importer.GetSibling | wordpress_converter/parser.py:43-48 | the first following node that is not "\n"; None exactly when only "\n" nodes follow |
| Importer.CategoryParent | wordpress_converter/parser.py:168-174 | a new category has a parent exactly when its `category_parent` text is non-empty and names a stored category, and it is the first such category |
| Importer.AttachTagsExactly | wordpress_converter/parser.py:203-205 | a new post holds exactly the existing tags named by children with domain "post_tag", each once |
| Importer.AttachCategoriesExactly | wordpress_converter/parser.py:206-207 | a new post holds exactly the existing categories named by children with domain "category", each once |
| Importer.AttachStep | wordpress_converter/parser.py:203-207 | one category child extends the tag list or the category list according to its domain |
| Importer.PostStep | wordpress_converter/parser.py:182-207 | an item whose post name is stored is skipped; a new item without an excerpt node stops the pass; any other is appended with the next id |
| Importer.PostFromItem | wordpress_converter/parser.py:184-207 | a new post takes its nicename, title, dates with `pubDate`'s year and month, excerpt, tags, categories and author from the item |
| Importer.AuthorKeys | wordpress_converter/parser.py:141-143 | a new author row carries the login it was checked under, and building one never fails |
| Importer.TagKeys | wordpress_converter/parser.py:156-158 | a new tag row carries the slug it was checked under |
| Importer.CategoryKeys | wordpress_converter/parser.py:168-170 | a new category row carries the nicename it was checked under |
| Importer.PostKeys | wordpress_converter/parser.py:183-187 | a new post carries the post name it was checked under |
| Importer.FlaskParser.constructor | wordpress_converter/parser.py:126-135 | the parser holds the parsed export and the database |
| Importer.FlaskParser.SaveAuthor | wordpress_converter/parser.py:141-150 | one author is one step of the pass over authors |
| Importer.FlaskParser.SaveAuthors | wordpress_converter/parser.py:137-150 | the author table becomes the pass over the document's authors keyed by login; posts are untouched |
| Importer.FlaskParser.SaveTag | wordpress_converter/parser.py:156-162 | one tag is one step of the pass over tags |
| Importer.FlaskParser.SaveTags | wordpress_converter/parser.py:152-162 | the tag table becomes the pass over the document's tags keyed by slug |
| Importer.FlaskParser.SaveCategory | wordpress_converter/parser.py:168-176 | one category is one step of the pass, its parent resolved against the categories stored so far |
| Importer.FlaskParser.SaveCategories | wordpress_converter/parser.py:164-176 | the category table becomes the pass over the category definitions keyed by nicename |
| Importer.FlaskParser.CreatePost | wordpress_converter/parser.py:184-201 | a fresh post with the item's columns and author is appended with the next id |
| Importer.FlaskParser.AttachRef | wordpress_converter/parser.py:204-207 | one category child tags or categorises the new post according to its domain |
| Importer.FlaskParser.AttachRefs | wordpress_converter/parser.py:203-207 | the new post's tags and categories become those its category children name |
| Importer.FlaskParser.SaveItem | wordpress_converter/parser.py:185-207 | the stored posts gain exactly the post built from the item |
| Importer.FlaskParser.SaveItemIfNew | wordpress_converter/parser.py:183-209 | one item is one step of the pass over posts keyed by post name |
| Importer.FlaskParser.SavePosts | wordpress_converter/parser.py:178-209 | the stored posts become the pass over the post items, stopping at an item without an excerpt |
| Importer.FlaskParser.SaveAll | wordpress_converter/parser.py:211-216 | authors, tags, categories and posts are each the pass over the document, in that order |
| BlogStore.UniqueTagMembers | benhoyle/blueprints/blog/views.py:521-525 | in a tag table with unique keys a row is determined by its id, and by its nicename |
| BlogStore.UniqueCategoryMembers | benhoyle/blueprints/blog/views.py:377-381 | the same for categories |
| BlogStore.DetachedLinks | benhoyle/blueprints/blog/views.py:577-578 | detaching keeps every post and its other fields, and leaves exactly the ids outside the deleted set, without duplicates |
| BlogStore.JoinedLinks | benhoyle/blueprints/blog/views.py:608-610 | joining adds the merged id to exactly the posts holding a merged id, adds nothing else, and creates no duplicate |
| BlogStore.DetachedNothing | benhoyle/blueprints/blog/views.py:573-582 | detaching no id, or joining the holders of no id, changes nothing |
| BlogStore.DetachedTwice | benhoyle/blueprints/blog/views.py:573-582 | deleting one selection after another detaches their union |
| BlogStore.JoinedTwice | benhoyle/blueprints/blog/views.py:608-615 | joining the holders of one tag after another joins the holders of both |
| BlogTags.NewTag | benhoyle/blueprints/blog/views.py:518-523 | the new tag's nicename is the slug of its name; refused exactly when a stored tag has that nicename; keys stay unique |
| BlogTags.AddTag | benhoyle/blueprints/blog/views.py:518-526 | stores the new tag with the next id, or writes nothing when refused |
| BlogTags.DeleteStepMissing | benhoyle/blueprints/blog/views.py:574-575 | a selected nicename with no tag changes nothing |
| BlogTags.DeleteStepFound | benhoyle/blueprints/blog/views.py:574-582 | a selected nicename with a tag removes that tag and takes its id off every post |
| BlogTags.DeletedTagsExactly | benhoyle/blueprints/blog/views.py:573-582 | deleting a selection removes exactly the selected tags, keeps keys unique, and takes exactly their ids off every post |
| BlogTags.DeleteKeepsLinks | benhoyle/blueprints/blog/views.py:573-582 | after a delete no post holds the id of a tag that is gone |
| BlogTags.UntagIfHolder | benhoyle/blueprints/blog/views.py:578 | one post loses the tag; every other post is unchanged |
| BlogTags.UntagHolders | benhoyle/blueprints/blog/views.py:577-580 | every post loses the tag |
| BlogTags.DeleteOne | benhoyle/blueprints/blog/views.py:574-582 | one selected nicename is one step of the delete fold |
| BlogTags.DeleteTags | benhoyle/blueprints/blog/views.py:573-583 | the tag table and the posts become the delete fold over the selection |
| BlogTags.Resolved | benhoyle/blueprints/blog/views.py:590-593 | the first tag of each selected nicename, in order; None exactly when some selection has no tag |
| BlogTags.MergedTag | benhoyle/blueprints/blog/views.py:589-605 | refused for fewer than two selections, for an unresolved selection, or when the slug of the joined display names is taken; succeeds exactly when there are two or more selections, all resolve and that slug is free, giving a tag with that name, slug and the next id, keeping keys unique |
| BlogTags.MergeKeepsLinks | benhoyle/blueprints/blog/views.py:606-615 | after a merge every post's tags still refer to stored tags |
| BlogTags.TagIfHolder | benhoyle/blueprints/blog/views.py:610 | one holder gains the merged tag; every other post is unchanged |
| BlogTags.TagHolders | benhoyle/blueprints/blog/views.py:609-611 | every holder of one merged tag gains the merged tag |
| BlogTags.TagAllHolders | benhoyle/blueprints/blog/views.py:608-615 | every holder of any merged tag gains the merged tag |
| BlogTags.StoreMergedTag | benhoyle/blueprints/blog/views.py:606-616 | stores the merged tag with the next id and gives it to every holder of a merged tag |
| BlogTags.MergeTags | benhoyle/blueprints/blog/views.py:589-622 | the outcome is `MergedTag`'s, so it succeeds exactly when two or more selections all resolve and the joined slug is free; a refusal writes nothing; success appends the tag and joins its holders |
| BlogCategories.NewCategory | benhoyle/blueprints/blog/views.py:374-379 | the new category's nicename is the slug of its name; refused exactly when that nicename is stored; keys stay unique |
| BlogCategories.AddCategory | benhoyle/blueprints/blog/views.py:374-382 | stores the new category with the next id, or writes nothing when refused |
| BlogCategories.DeleteCategoryMissing | benhoyle/blueprints/blog/views.py:444-445 | a selected nicename with no category changes nothing |
| BlogCategories.DeleteCategoryFound | benhoyle/blueprints/blog/views.py:444-455 | a selected nicename with a category removes it and takes its id off every post |
| BlogCategories.DeletedCategoriesExactly | benhoyle/blueprints/blog/views.py:443-455 | deleting a selection removes exactly the selected categories and takes exactly their ids off every post |
| BlogCategories.DeleteKeepsCategoryLinks | benhoyle/blueprints/blog/views.py:443-455 | after a delete no post holds the id of a category that is gone |
| BlogCategories.UncategoriseIfHolder | benhoyle/blueprints/blog/views.py:448 | one post loses the category; every other post is unchanged |
| BlogCategories.UncategoriseHolders | benhoyle/blueprints/blog/views.py:447-453 | every post loses the category |
| BlogCategories.DeleteOneCategory | benhoyle/blueprints/blog/views.py:444-455 | one selected nicename is one step of the delete fold |
| BlogCategories.DeleteCategories | benhoyle/blueprints/blog/views.py:443-456 | the category table and the posts become the delete fold over the selection |
| BlogCategories.ResolvedCategories | benhoyle/blueprints/blog/views.py:463-466 | the first category of each selected nicename; None exactly when some selection has no category |
| BlogCategories.MergedCategory | benhoyle/blueprints/blog/views.py:462-477 | refused for fewer than two selections, for an unresolved selection, or when the merged slug is taken; succeeds exactly when there are two or more selections, all resolve and the merged slug is free, giving a top-level category with the joined name and the next id |
| BlogCategories.MergeKeepsCategoryLinks | benhoyle/blueprints/blog/views.py:479-488 | after a merge every post's categories still refer to stored categories |
| BlogCategories.CategoriseIfHolder | benhoyle/blueprints/blog/views.py:483 | one holder gains the merged category; every other post is unchanged |
| BlogCategories.CategoriseHolders | benhoyle/blueprints/blog/views.py:482-484 | every holder of one merged category gains the merged category |
| BlogCategories.CategoriseAllHolders | benhoyle/blueprints/blog/views.py:481-488 | every holder of any merged category gains the merged category |
| BlogCategories.StoreMergedCategory | benhoyle/blueprints/blog/views.py:479-489 | stores the merged category with the next id and gives it to every holder |
| BlogCategories.MergeCategories | benhoyle/blueprints/blog/views.py:462-497 | the outcome is `MergedCategory`'s, so it succeeds exactly when two or more selections all resolve and the merged slug is free; a refusal writes nothing; success appends the category and joins its holders |
| BlogPosts.RestampedMeaning | benhoyle/blueprints/blog/views.py:186-197 | "publish" wins over "save as draft"; a publication date is never replaced; a first publication sets the date with its year and month; date columns stay in agreement; title, content and update date come from the request; the nicename is a slug; nothing else changes |
| BlogPosts.PublishedOnce | benhoyle/blueprints/blog/views.py:188-193 | once published, a post keeps its first publication date through any later edit |
| BlogPosts.RestampedIdempotent | benhoyle/blueprints/blog/views.py:186-197 | submitting the same form with the same clock readings again changes nothing more |
| BlogPosts.Release | benhoyle/blueprints/blog/views.py:186-193 | the button handling writes the status and publication columns as the button specification says |
| BlogPosts.Restamp | benhoyle/blueprints/blog/views.py:186-197 | the buttons and column assignments write the restamped columns and no association |
| BlogPosts.UnselectedTagsDropped | benhoyle/blueprints/blog/views.py:204-206 | visiting the held ids one at a time removes exactly the stored tags whose nicename is not selected |
| BlogPosts.SelectedTagsMembers | benhoyle/blueprints/blog/views.py:207-208 | selecting keeps the held ids in front, adds exactly the ids of the stored tags that selections name, and no duplicate |
| BlogPosts.SyncedTagsExactly | benhoyle/blueprints/blog/views.py:204-208 | after both tag loops a stored tag is held exactly when its nicename is selected; unknown ids stay as they were; no duplicate |
| BlogPosts.UnselectTags | benhoyle/blueprints/blog/views.py:204-206 | the unselect loop removes exactly the dropped ids |
| BlogPosts.SelectTags | benhoyle/blueprints/blog/views.py:207-208 | the select loop leaves the selected-tags fold |
| BlogPosts.UnselectedCategoriesDropped | benhoyle/blueprints/blog/views.py:199-201 | visiting the held ids removes exactly the stored categories whose nicename is not selected |
| BlogPosts.SelectedCategoriesMembers | benhoyle/blueprints/blog/views.py:202-203 | selecting keeps the held ids in front, adds exactly the named stored categories, and no duplicate |
| BlogPosts.SyncedCategoriesExactly | benhoyle/blueprints/blog/views.py:199-203 | after both category loops a stored category is held exactly when its nicename is selected; no duplicate |
| BlogPosts.UnselectCategories | benhoyle/blueprints/blog/views.py:199-201 | the unselect loop removes exactly the dropped ids |
| BlogPosts.SelectCategories | benhoyle/blueprints/blog/views.py:202-203 | the select loop leaves the selected-categories fold |
| BlogPosts.EditedMeaning | benhoyle/blueprints/blog/views.py:186-208 | an edited post holds exactly the selected stored tags and categories, keeps its first publication date, and keeps its date columns in agreement |
| BlogPosts.PostIndex | benhoyle/blueprints/blog/views.py:168-170 | the first post with the page's subsite and nicename; None exactly when there is none |
| BlogPosts.LocatePost | benhoyle/blueprints/blog/views.py:168-171 | the same query on the stored post objects finds the same position |
| BlogPosts.EditedPostsOnly | benhoyle/blueprints/blog/views.py:168-211 | an edit changes only a post at the page's address, and nothing when no post has it |
| BlogPosts.SyncLinks | benhoyle/blueprints/blog/views.py:199-208 | the four loops leave the synchronised category and tag lists |
| BlogPosts.EditOne | benhoyle/blueprints/blog/views.py:186-208 | one post object becomes the edited value of its old value |
| BlogPosts.EditPostAt | benhoyle/blueprints/blog/views.py:186-211 | the post at one position is edited and every other stored post is unchanged |
| BlogPosts.EditPost | benhoyle/blueprints/blog/views.py:166-215 | `found` says whether a post has the page's address; the stored posts become the edited sequence |
| BlogPosts.AddedIsEditedBlank | benhoyle/blueprints/blog/views.py:231-252 | adding a post is editing a blank post with the same form and clock readings, then giving it its author |
| BlogPosts.AddedMeaning | benhoyle/blueprints/blog/views.py:231-252 | an added post holds exactly the selected stored tags and categories, without duplicates, is published exactly when "publish" is pressed, and its date columns agree |
| BlogPosts.CreateBlogPost | benhoyle/blueprints/blog/views.py:231-252 | a fresh post with the added value is appended with the next id |
| BlogPosts.AddPost | benhoyle/blueprints/blog/views.py:220-258 | the stored posts gain exactly the added post; distinct post objects stay distinct |
| WebServer.EditedLegacyDiffers | website/webserver.py:162-184 | the older edit agrees with the blueprint's on every column except the publication year and month, which keep their old values |
| WebServer.EditedLegacyLosesYear | website/webserver.py:166-169 | on a first publication the older edit sets a date but no year or month, so the date columns disagree although the blueprint's edit keeps them in agreement |
| WebServer.ReleaseLegacy | website/webserver.py:162-169 | the older button handling writes status and publication date only |
| WebServer.RestampLegacy | website/webserver.py:162-173 | the older buttons and column assignments write the legacy restamped columns |
| WebServer.EditOneLegacy | website/webserver.py:162-184 | one post object becomes the legacy edited value |
| WebServer.EditedPostsLegacySame | website/webserver.py:147-188 | both servers edit the same post, and differ only in its year and month |
| WebServer.EditPostLegacy | website/webserver.py:147-189 | `found` says whether a post has the page's address; the stored posts become the legacy edited sequence |
| WebServer.AddedLegacyDiffers | website/webserver.py:204-225 | the older add agrees with the blueprint's except that year and month stay empty, so its date columns agree exactly when "publish" is not pressed |
| WebServer.CreateBlogPostLegacy | website/webserver.py:204-225 | a fresh post with the legacy added value is appended with the next id |
| WebServer.AddPostLegacy | website/webserver.py:193-230 | the stored posts gain exactly the legacy added post |

## Left out

- Characters are ASCII. `\s`, `\w`, `lower` and `strip` follow Python's ASCII behaviour. There is no Unicode case folding, and `splitlines` breaks on `\n` only. `\r`, `\x0b` and the other break characters do not split a line.
- `html.unescape`, `dateutil.parser.parse` and `datetime.now()` are not modelled. Texts arrive already unescaped. Dates arrive as a year and month (`Models.Date`), and each request's two clock readings are parameters.
- The XML parsing (`BeautifulSoup`), reading the export file and `WPParser` are not modelled. The importer works on an already-parsed element sequence.
- Importer.PostsSelected: the source's selectors (parser.py:12-28) test `tag.post_type`, which BeautifulSoup resolves to the first `post_type` among all descendants, and `find_all` applies them to every element, `<rss>` and `<channel>` included. When the first item of an export has `post_type` "post", the containers match too: `save_posts` would then store an extra post from the channel's title and pubDate and the first item's name, content and status, and its `find_all("category")` would reach the category definitions, which have no `domain` attribute, so parser.py:203-204 raises `KeyError`. The model gives only items a `post_type` and selects items alone, which is what the selectors evidently intend; that container behaviour is not modelled. Not executed.
- `convert_file_links` and `convert_wp_markup` are empty stubs in the source, so they are not modelled.
- A category child without a `domain` attribute raises in the source. The model has no such element: every category child has a domain.
- All tables draw ids from one counter (`Store.nextId`). Only uniqueness per table matters to the source, so this loses nothing.
- The store invariant `Store.Valid` (ids below the counter and unique per table) is the model's, not the source's. The source leaves it to the database.
- Merging a selection that names no stored tag or category raises `AttributeError` in the source before any write. The model refuses it as `NotFound` and writes nothing.
- BlogTags.MergeTags: when fewer than two tags are selected, the source (views.py:619-622, webserver.py:482-483) appends the error to `merge_delete_form.categories`, a field the tag form does not have, so it raises. The model refuses with `TooFewSelected` and writes nothing.
- SQLAlchemy's dynamic relationships are not modelled. Loops over `post.tags` or `tag.posts` run over the list stored when the loop starts. Sessions and commits are not modelled: each insert or delete is immediate.
- Deleting a category does not clear the `parent` of its children, in the source and in the model alike.
- benhoyle/blueprints/blog/models.py is not part of this model. Its tag and category `make_nicename` are taken to be the post slug `Text.Slug`, and its `get_by_nicename` the first-row lookup of wordpress_converter/models.py.
- BlogTags.DeleteTags, BlogTags.StoreMergedTag, BlogTags.MergeTags, BlogCategories.DeleteCategories, BlogCategories.StoreMergedCategory, BlogCategories.MergeCategories, BlogPosts.EditPost and WebServer.EditPostLegacy require distinct post objects in the store (`Store.DistinctPosts`). BlogPosts.EditPostAt requires the same of the sequence it is given. A database row is one object, so this is true of the source; the model has to state it.
- `edit_tags` (views.py:532-551), `edit_categories` (views.py:392-417) and `delete_post` (views.py:263-278) are store writes that are not modelled. The first two rename a tag or category and save its recomputed nicename with no `exists` check. They can therefore leave two rows with one nicename, which the `UniqueTags`/`UniqueCategories` hypothesis of BlogTags.DeletedTagsExactly, BlogCategories.DeletedCategoriesExactly, BlogPosts.SyncedTagsExactly, BlogPosts.SyncedCategoriesExactly, BlogPosts.EditedMeaning and BlogPosts.AddedMeaning excludes. `delete_post` removes one post row.
- The listing pages, the sitemap, login and the `get_subsites` guard are not modelled. They are Flask plumbing or read-only queries outside the store logic.
- Form validation, the cancel redirects, the GET prefill (`get_tag_nicenames`, `get_category_nicenames`) and the `flash` messages are not modelled. The model starts from a validated submission.
- Subsite scoping of tag and category lookups is not modelled: `get_by_nicename` and `exists` search the whole table, as the lookups of wordpress_converter/models.py do.
- Concurrent requests are not modelled. Two requests can both pass an `exists` check before either inserts.

## Findings

| source | as written | input that shows it | evidently intended | confidence | as-written member | corrected member |
|---|---|---|---|---|---|---|
| website/webserver.py:166-169 and 214-216 | `edit_post` and `add_post` assign the publication year and month to local variables, so the post's `date_published_year` and `date_published_month` columns are never written | a post with no publication date, edited or added with "publish" pressed: it gets a publication date with empty year and month columns | write both columns on the post, as benhoyle/blueprints/blog/views.py:192-193 and 242-243 do, so the year and month always agree with the publication date | not executed | WebServer.EditedLegacyLosesYear | BlogPosts.EditedMeaning |
