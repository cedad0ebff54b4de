# Clothes2Wear blog backend, modelled in Dafny

The backend is an Express/Prisma service behind the Clothes2Wear fashion
blog. It stores posts with their categories, tags and likes. It also keeps an
image library, a table of quotes and a newsletter sign-up list. A JWT guard
protects the admin routes. Two maintenance scripts sit beside the service:
one exports the published posts as an RSS feed, and one backfills the Open
Graph image of old posts.

This project models the request handlers against an in-memory database and
proves what each handler does to it.

- `Store` holds the database: one map per table from row id to row, and the
  counter from which fresh ids are drawn. `Store.Db` is a class whose fields
  the handlers reassign. Its invariant `Valid` says two things: every id is
  below the counter, and the columns the handlers look rows up by are unique
  (post slug, category slug, newsletter e-mail, and a like's (user, post)
  pair).
- `Posts`, `Images`, `Categories`, `Quotes` and `Newsletters` follow the five
  controllers. Read-only handlers are functions over a `Tables` value.
  Handlers that write are methods on a `Db`.
- The post handlers that create tag rows before they may fail are each
  specified by an outcome function: `CreatePostOutcome` and
  `UpdatePostOutcome`. Each method's `ensures` equates what it leaves behind
  with that function. Lemmas then state the properties of the function.
- `Auth` is the JWT guard. `Rss` is the XML escaper and the feed template.
  `Backfill` is the `ogImage` loop.
- `Text` and `Paging` give the JavaScript and ORM primitives the handlers
  rely on: `trim`, `split`, `parseInt`, `contains`, `skip`/`take` windows and
  `filter`.

Several things outside the handlers are parameters of the model:

- `slugify` is an uninterpreted function.
- `jwt.verify` is a function returning the claims, or `None` when it throws.
- The current time is a number of milliseconds.
- The order in which the ORM lists a table is a sequence that enumerates the
  table's keys once each.

The ORM's own failures are modelled as the handler's 500 reply, with nothing
written. These failures are:

- updating or deleting a missing row;
- connecting an unknown category;
- a unique slug clash on update;
- a negative `skip`;
- an `undefined` unique key.

Where the code and the project's own description of it disagree, the model
follows the code:

- a newsletter address is not checked for format;
- `getPostByCategory` and `getAllPosts` list posts of every status, not only
  published ones.

The guard's own expiry comparison is strict, so on its own it would let a
token through during the second its `exp` names. But `jwt.verify`, called
with no options, already throws for such a token, so the request gets 403
"Invalid token". With that library the guard's 401 "Token has expired" cannot
be reached (`Auth.LibraryExpiryFirst`).

## Model

| member | source | states |
|---|---|---|
| Store.Db.constructor | src/controllers/postController.js:4 | a fresh database has empty tables, counter 0, and satisfies the invariant |
| Store.Db.FreshId | src/controllers/postController.js:329-343 | the database hands out the current counter as a new id and advances it, keeping the invariant |
| Store.Db.AddPost | src/controllers/postController.js:329-343 | a post whose slug no post holds is stored under a fresh id, nothing else in the post table changes, and slugs stay unique |
| Store.Db.ReplacePost | src/controllers/postController.js:394-410 | replacing an existing row by one whose slug no other post holds changes only that row and keeps slugs unique |
| Store.Db.AddLike | src/controllers/postController.js:450-455 | a like for a pair with no like yet is stored under a fresh id, and at most one like per (user, post) remains |
| Store.Db.AddTag | src/controllers/postController.js:323-325 | a tag row goes under the next id and every earlier tag row is kept |
| Store.AtMostOneLikePerPair | src/controllers/postController.js:437-455 | while likes are unique, a (user, post) pair has at most one like row |
| Store.IdRangeMembers | src/controllers/postController.js:321-327 | the ids handed to a batch of n inserts are exactly start to start + n - 1 |
| Store.IdRangeSize | src/controllers/postController.js:321-327 | the ids handed to a batch of n inserts are n distinct ids |
| Store.FreshRowsShape | src/controllers/postController.js:321-327 | a batch of inserted rows occupies exactly the consecutive ids from the counter on, row k under id start + k |
| Store.MergeFresh | src/controllers/postController.js:321-327 | adding a batch above every existing key keeps every old row and puts row k under start + k, on keys disjoint from the old ones |
| Store.FreshRowsStep | src/controllers/postController.js:321-327 | inserting one more row of the batch under the next id extends the batch by that row |
| Text.ContainsInfix | src/controllers/imageController.js:32-34 | text embedded anywhere inside a string is contained in it |
| Text.Contains | src/controllers/imageController.js:32-34 | `includes` / `contains`: the text occurs at some position; read through `ContainsInfix` and `ContainsWithin` |
| Text.ContainsWithin | src/controllers/imageController.js:32-34 | text that contains a string still contains it with more text put before and after |
| Text.Trim | src/controllers/postController.js:290 | `trimStart` then `trimEnd`; what it removes is stated by `TrimStartShape`, `TrimEndShape` and `TrimEmptyIffAllSpace` |
| Text.TrimEmptyIffAllSpace | src/controllers/postController.js:290-313 | `trim` gives the empty string exactly when every character is white space |
| Text.TrimStartShape | src/controllers/postController.js:290 | `trimStart` drops exactly a run of leading white space and stops at a non-space |
| Text.TrimEndShape | src/controllers/postController.js:290 | `trimEnd` drops exactly a run of trailing white space and stops at a non-space |
| Text.Split | src/middleware/authentication.js:6 | `split(' ')` yields at least one field, and no field holds a space |
| Text.JoinSplit | src/middleware/authentication.js:6 | splitting loses nothing: joining the fields with the separator gives back the header |
| Text.ParseIntOfDecimal | src/controllers/postController.js:167 | `parseInt(_, 10)` reads a decimal number back, whatever non-digit text follows it |
| Text.ParseIntOfNegativeDecimal | src/controllers/postController.js:167 | `parseInt` reads a minus sign followed by a decimal number as the negative number |
| Text.ParseIntNoDigits | src/controllers/postController.js:167 | text that does not begin with a number is NaN to `parseInt` |
| Text.ParseInt | src/controllers/postController.js:167 | `parseInt(s, 10)`: leading white space, an optional sign, then the longest run of decimal digits, or NaN; its readings are stated by `ParseIntOfDecimal`, `ParseIntOfNegativeDecimal` and `ParseIntNoDigits` |
| Paging.Window | src/controllers/postController.js:36-37 | `skip`/`take` returns the rows from `skip` on, at most `take` of them, in listing order |
| Paging.WindowPosition | src/controllers/imageController.js:22-23 | with `take` = size and `skip` = page * size, row j of the listing is on page j / size at position j % size |
| Paging.Filter | src/controllers/postController.js:375-380 | filtering keeps exactly the rows that pass, as a subsequence of the input (same order), with each kept row as often as in the input, and never adds rows |
| Paging.FilterConcat | src/controllers/postController.js:375-380 | filtering a concatenation is filtering each part, one after the other |
| Paging.FilterOne | src/controllers/postController.js:375-380 | filtering one row keeps it exactly when it passes |
| Paging.SubsequenceOfItself | src/controllers/postController.js:9-18 | a listing is a subsequence of itself, so an unfiltered listing keeps its order |
| Paging.FilterDistinct | src/controllers/postController.js:375-380 | filtering a listing without repetitions gives one without repetitions |
| Paging.EnumeratesSize | src/controllers/postController.js:45 | a listing of a table has one entry per row |
| Paging.PageCount | src/controllers/postController.js:200 | `Math.ceil(total / 10)` is the fewest 10-row pages that hold all rows, and 0 exactly when there are none |
| Auth.BearerToken | src/middleware/authentication.js:6-9 | a token taken from the header is non-empty and holds no space |
| Auth.BearerTokenOf | src/middleware/authentication.js:6 | the token is the second space-separated field: `<scheme> <token>` followed by anything yields the token |
| Auth.BearerTokenNeedsSpace | src/middleware/authentication.js:6-9 | a header without a space carries no token |
| Auth.ExpiryBoundary | src/middleware/authentication.js:14-17 | the guard's own comparison passes a token that expires at second e exactly while now < (e + 1) * 1000 ms; a token with exp equal to the current second would pass this comparison, but the library refuses it first (`LibraryExpiryFirst`) |
| Auth.Decide | src/middleware/authentication.js:5-24 | a request is either admitted or denied with status 401 or 403 |
| Auth.DecideAdmitsIff | src/middleware/authentication.js:9-20 | the guard admits exactly when the header has a token, the library verifies it and it has not expired; the claims passed on are the verified ones |
| Auth.DecideRejections | src/middleware/authentication.js:9-23 | no token gives 403 "Access denied"; a token the library refuses gives 403 "Invalid token"; 401 "Token has expired" comes exactly from a verified but expired token |
| Auth.LibraryExpiryFirst | src/middleware/authentication.js:11-22 | when `jwt.verify` rejects every token not expiring after the current second, as the library does without options, no request gets 401, an admitted token expires after the current second, and a token with exp equal to the current second is never verified, so it gets 403 "Invalid token" |
| Auth.Exchange.constructor | src/middleware/authentication.js:5 | a request starts with no user set, no response and no call to next |
| Auth.AuthenticateJwt | src/middleware/authentication.js:5-24 | a denied request gets the rejection, and `request.user` and `next` are untouched; an admitted one gets `request.user` = claims and exactly one `next()`, with no response |
| Rss.ReplaceCharConcat | src/function/generateXML.js:8-15 | a global single-character replace works piecewise over concatenation |
| Rss.ReplaceOneChar | src/function/generateXML.js:8-15 | on one character, a global replace gives the replacement if the character matches and the character otherwise |
| Rss.ReplaceCharAbsent | src/function/generateXML.js:8-15 | replacing a character that does not occur changes nothing |
| Rss.EncodeWithConcat | src/function/generateXML.js:8-15 | per-character entity encoding works piecewise over concatenation |
| Rss.EncodeWithOne | src/function/generateXML.js:8-15 | per-character encoding maps one character to its entity if it is encoded, and to itself otherwise |
| Rss.EscapeXmlConcat | src/function/generateXML.js:8-15 | `escapeXml` works piecewise over concatenation |
| Rss.EscapeXmlChar | src/function/generateXML.js:8-15 | on one character the replacement chain gives its entity if it is special, and the character otherwise |
| Rss.EscapeAmpersand | src/function/generateXML.js:10 | `&` becomes `&amp;`, and the later replacements leave that alone |
| Rss.EscapeLessThan | src/function/generateXML.js:11 | `<` becomes `&lt;`, not `&amp;lt;`, because `&` is replaced first |
| Rss.EscapeGreaterThan | src/function/generateXML.js:12 | `>` becomes `&gt;` |
| Rss.EscapeDoubleQuote | src/function/generateXML.js:13 | `"` becomes `&quot;` |
| Rss.EscapeSingleQuote | src/function/generateXML.js:14 | `'` becomes `&apos;` |
| Rss.EscapePlainChar | src/function/generateXML.js:8-15 | a character that is not one of the five special characters is left as it is |
| Rss.EscapeXmlEncodesEachChar | src/function/generateXML.js:8-15 | the chain of five global replacements is the same as replacing each special character by its entity |
| Rss.OccursAtShift | src/function/generateXML.js:8-15 | an occurrence stays an occurrence when text is put in front, shifted by that text's length |
| Rss.EncodedMarkupFree | src/function/generateXML.js:8-15 | entity encoding leaves no raw `<`, `>`, `"` or `'` |
| Rss.EntityAtShift | src/function/generateXML.js:8-15 | an entity stays an entity when text is put in front of it |
| Rss.EntityInFront | src/function/generateXML.js:8-15 | an entity at the front of a text starts at position 0 |
| Rss.AmpersandsPrepend | src/function/generateXML.js:8-15 | putting one encoded character in front keeps every `&` at the start of an entity |
| Rss.EncodedAmpersands | src/function/generateXML.js:8-15 | in entity-encoded text every `&` starts one of `&amp; &lt; &gt; &quot; &apos;` |
| Rss.EscapeXmlIsMarkupFree | src/function/generateXML.js:8-15 | `escapeXml` output holds no raw `<`, `>`, `"` or `'`, and every `&` in it starts one of the five entities |
| Rss.EncodedLength | src/function/generateXML.js:8-15 | encoding never shortens; it keeps the length exactly when no special character occurs, and then is the identity |
| Rss.EscapeXmlLength | src/function/generateXML.js:8-15 | `escapeXml` never shortens its input, and leaves it unchanged exactly when none of the five special characters occurs |
| Rss.ReplaceSkipsPlainText | src/function/generateXML.js:8-15 | text without `&` passes through the decoding of an entity untouched |
| Rss.EntityHead | src/function/generateXML.js:10-14 | each entity is at least four characters, and its second and third characters tell which special character it stands for |
| Rss.PrefixAgree | src/function/generateXML.js:10-14 | a prefix of a text agrees with that text on its first k characters |
| Rss.EntitiesDiffer | src/function/generateXML.js:10-14 | no entity is a prefix of text that starts with a different entity |
| Rss.DecodeMatch | src/function/generateXML.js:10-14 | decoding an entity at the front turns it back into its character |
| Rss.DecodeOtherEntity | src/function/generateXML.js:10-14 | decoding one entity leaves a different entity at the front untouched |
| Rss.EntityShape | src/function/generateXML.js:10-14 | every entity is `&` followed by at least three characters, none of them `&` |
| Rss.DecodePlain | src/function/generateXML.js:10-14 | decoding an entity keeps a leading character that is not `&` |
| Rss.DecodeStep | src/function/generateXML.js:10-14 | decoding one entity, while `&` is still encoded, turns exactly the occurrences of that character back |
| Rss.EncodeWithNothing | src/function/generateXML.js:8-15 | encoding no characters is the identity |
| Rss.EscapeXmlRoundTrip | src/function/generateXML.js:8-15 | decoding the five entities, `&amp;` last, gives back exactly the text that was escaped |
| Rss.EscapeXml | src/function/generateXML.js:8-15 | the five chained global replacements, `&` first; what they produce is stated by `EscapeXmlEncodesEachChar`, `EscapeXmlIsMarkupFree`, `EscapeXmlLength` and `EscapeXmlRoundTrip` |
| Rss.ConcatAppend | src/function/generateXML.js:58 | `join('')` of two lists is the join of the first followed by the join of the second |
| Rss.ConcatContainsRun | src/function/generateXML.js:46-56 | every run of consecutive template pieces occurs in the assembled item |
| Rss.ConcatOne | src/function/generateXML.js:58 | joining one piece gives that piece |
| Rss.ConcatThree | src/function/generateXML.js:46-56 | joining three pieces is their concatenation |
| Rss.ItemParts | src/function/generateXML.js:34-57 | the pieces of one `<item>` template in order; `PartInItem` and `ItemFields` state that each occurs in the item |
| Rss.RenderItem | src/function/generateXML.js:34-57 | the joined item template of one post; its fields are stated by `ItemFields`, `ItemLinks` and `ItemCategories` |
| Rss.RenderItems | src/function/generateXML.js:34-58 | `map(...).join('')` over the posts; stated by `RenderItemsAppend` and `ItemsHoldEachItem` |
| Rss.RenderFeed | src/function/generateXML.js:60-70 | the channel document around the items; stated by `FeedLayout` and `FeedHoldsEachItem` |
| Rss.PartInItem | src/function/generateXML.js:46-56 | each piece of the item template occurs in the rendered item |
| Rss.ItemFields | src/function/generateXML.js:34-56 | an item holds the escaped title, the link and the permalink guid, the pubDate, the escaped alt text (or the empty string) as description, and the category elements of the categories then those of the tags |
| Rss.ItemLinks | src/function/generateXML.js:37 | `<link>` and `<guid>` both carry baseUrl + "/blogs/" + slug, with the slug not escaped |
| Rss.ItemCategories | src/function/generateXML.js:39-44 | an item holds the category elements of its categories, followed by those of its tags |
| Rss.CategoryElementsAppend | src/function/generateXML.js:39-41 | category elements come one per name, in list order |
| Rss.RenderItemsAppend | src/function/generateXML.js:34-58 | the items come one per post, in the order of the posts |
| Rss.ItemsHoldEachItem | src/function/generateXML.js:34-58 | the joined items hold the item of every post |
| Rss.ChannelTags | src/function/generateXML.js:60-70 | the text before the date holds `<channel>` and the text after the items holds `</channel>` |
| Rss.FeedLayout | src/function/generateXML.js:60-70 | the feed starts with the prolog, `<channel>` and the channel metadata, ends with `</channel>` and `</rss>`, and holds exactly the `<lastBuildDate>` element and the rendered items between the two |
| Rss.FeedHoldsEachItem | src/function/generateXML.js:34-70 | the feed holds the `<item>` of every post it is given |
| Rss.OneLeadingLt | src/function/generateXML.js:40 | a tag holds one `<`, the one it starts with |
| Rss.OpeningTagMarkup | src/function/generateXML.js:40 | `<category>` holds exactly one `<` |
| Rss.ClosingTagMarkup | src/function/generateXML.js:40 | `</category>` holds exactly one `<` |
| Rss.TagsAroundMarkup | src/function/generateXML.js:40 | text free of `<` between an opening and a closing tag gives exactly two `<` |
| Rss.CategoryElementMarkup | src/function/generateXML.js:40 | a category element holds exactly two `<`, so an escaped name cannot open markup |
| Rss.CategoryElementsMarkup | src/function/generateXML.js:39-44 | n category elements hold exactly 2n `<`: one element per name and no markup from the names |
| Backfill.Backfilled | src/function/update.js:16-26 | a run keeps exactly the same set of posts |
| Backfill.BackfilledRows | src/function/update.js:16-25 | a post without an image gets the CDN location of its thumbnail, the value `createPost` uses; a post with an image, and every other column, is unchanged |
| Backfill.BackfillIdempotent | src/function/update.js:6-14 | after a run no post lacks an image, so a second run selects nothing and changes nothing |
| Backfill.BackfillKeepsConsistent | src/function/update.js:18-25 | the backfill keeps the slugs and so the database's invariant |
| Backfill.FilledInStep | src/function/update.js:18-25 | updating one more selected row fills in that row too |
| Backfill.UpdatedInOrder | src/function/update.js:16-26 | updates in sequence keep the set of posts |
| Backfill.UpdatedInOrderFills | src/function/update.js:16-26 | updating distinct rows one after another fills in exactly those rows, whatever their order |
| Backfill.LastIsNew | src/function/update.js:16 | the last of distinct ids is not among the others |
| Backfill.RunBackfill | src/function/update.js:4-33 | given the selection of exactly the posts with a null `ogImage`, the run leaves the backfilled table, keeps the invariant, and the count reported is the number of such posts |
| Backfill.UpdateEach | src/function/update.js:16-26 | the `for` loop applies the update to each listed row in list order |
| Backfill.BackfillRun | src/function/update.js:6-28 | updating the selected rows in listing order is the backfill, there is one update per selected post, and the invariant holds afterwards |
| Backfill.EnumeratedSet | src/function/update.js:6-14 | a listing of a set has exactly that set's members, one entry per member |
| Images.UsedInContent | src/controllers/imageController.js:32-38 | a post whose content embeds the URL anywhere makes the image used |
| Images.UnusedImage | src/controllers/imageController.js:28-38 | an image whose URL is no thumbnail and occurs in no content is unused |
| Images.IsUsed | src/controllers/imageController.js:26-40 | an image is used when some post has its URL as thumbnail or embeds it in its content; stated by `UsedInContent` and `UnusedImage` |
| Images.MatchingImages | src/controllers/imageController.js:9-18 | the listing is a subsequence of the table listing (same order), each image once, narrowed to notes containing the search text only when the search is non-empty |
| Images.GetAllImages | src/controllers/imageController.js:5-50 | a page is the 16 matching images after the first page * 16, each with its row and `isUsed` true exactly when some post uses it; the total counts the whole table whatever the search; a negative page fails with 500 |
| Images.ImageOnItsPage | src/controllers/imageController.js:17-24 | the j-th matching image is listed on page j / 16, at position j % 16 |
| Images.GetImageById | src/controllers/imageController.js:52-64 | the row when the id exists, else 404 "Image not found" |
| Images.CreateImage | src/controllers/imageController.js:66-78 | one new row with exactly the given URL, alt text and note, under a fresh id, with every other table unchanged |
| Images.UpdateImage | src/controllers/imageController.js:80-92 | the row with that id gets the given fields and keeps the absent ones; no id or an unknown one gives 500 with nothing changed |
| Images.DeleteImage | src/controllers/imageController.js:94-105 | without an id, 400 "ID is required" and nothing deleted; otherwise exactly that row is removed, or 500 for an unknown id |
| Categories.GetCategoryById | src/controllers/categoryController.js:14-27 | the row when the id exists, else 404 "Category not found" |
| Categories.CreateCategory | src/controllers/categoryController.js:29-52 | a missing name aborts with nothing written; a taken slug gives 400 with nothing changed; otherwise exactly one category with the name and its slug is added |
| Categories.UpdateCategory | src/controllers/categoryController.js:54-67 | the slug is recomputed from the new name and both are written; it fails with 500 and no change exactly when the name or id is missing, the id is unknown, or another category holds the slug |
| Categories.DeleteCategory | src/controllers/categoryController.js:69-81 | without an id, 400 and nothing removed; with one, exactly that category is removed, or 500 for an unknown id |
| Quotes.QuoteCheck | src/controllers/quoteController.js:23-29 | a request passes exactly when it has text and a category id; empty text is reported before a missing category |
| Quotes.AddQuote | src/controllers/quoteController.js:20-48 | a failed check gives its 400 and inserts nothing; an unknown category gives 500 and inserts nothing; otherwise exactly one quote row is added |
| Quotes.UpdateQuote | src/controllers/quoteController.js:50-87 | the same checks; on success 200 with the new row and exactly that row replaced, all four columns overwritten so an omitted link or image resets to null; no change on any failure |
| Quotes.DeleteQuote | src/controllers/quoteController.js:89-100 | the quote named by the query-string id is removed; a missing or unknown id gives 500 with no change |
| Newsletters.CreateNewsletter | src/controllers/newsletterController.js:22-43 | an address some row holds gives 400 and inserts nothing; otherwise exactly one row with that address is added with 201; a missing address gives 500 |
| Newsletters.DeleteNewsletter | src/controllers/newsletterController.js:45-53 | exactly the row with that id is removed; an unknown id gives 500 with no change |
| Newsletters.InsertKeepsEmailsUnique | src/controllers/newsletterController.js:23-38 | an address no row holds is the only condition for a sign-up, and inserting it keeps addresses unique |
| Posts.MatchingPosts | src/controllers/postController.js:9-18 | a subsequence of the table listing (same order), each post once, narrowed to titles containing the search text only when it is non-empty, of any status |
| Posts.GetAllPosts | src/controllers/postController.js:6-51 | a page is the 9 matching posts after the first page * 9, each with its like count; the total counts every post whatever the search; a negative page fails with 500 |
| Posts.PostOnItsPage | src/controllers/postController.js:36-37 | the j-th matching post is listed on page j / 9, at position j % 9 |
| Posts.GetPostById | src/controllers/postController.js:93-111 | 404 for an unknown id; otherwise the post whose category ids and tags are exactly its stored ones that still exist, with every other field as stored |
| Posts.CurrentPage | src/controllers/postController.js:167 | `parseInt(page, 10)`, or 1 when that is falsy: NaN and 0 fall back to page 1, and any other number is the page |
| Posts.CurrentPageOfNumber | src/controllers/postController.js:167 | a page number written in decimal is the page shown |
| Posts.CategoryPosts | src/controllers/postController.js:171-176 | exactly the posts filed under an existing category with that slug, once each, as a subsequence of the listing (same order) |
| Posts.GetPostByCategory | src/controllers/postController.js:157-208 | 404 without a slug; 500 for a negative page; 404 "No posts found for this category" for an empty page; 200 exactly when the slug is given, the page is at least 1 and its window is non-empty, and then the posts are exactly the window from (page - 1) * 10, with the total and `ceil(total / 10)` pages |
| Posts.CategoryPageBounds | src/controllers/postController.js:190-200 | a page shown never exceeds the page count it reports, and a page past the last gives 404 "No posts found for this category" |
| Posts.GetPostBySlug | src/controllers/postController.js:210-231 | 200 exactly when a post with that slug exists and is `ACTIVE`, with that post and its like count; 404 otherwise |
| Posts.SearchPosts | src/controllers/postController.js:233-274 | exactly the `ACTIVE` posts whose title or some existing category's slug contains the query, once each, in listing order; 404 exactly when none matches |
| Posts.SearchNeverShowsDrafts | src/controllers/postController.js:255-259 | a post that is not `ACTIVE` is never found by the search, whatever the query |
| Posts.FlattenAppend | src/controllers/postController.js:527 | flattening two lists of tag lists is flattening each, one after the other |
| Posts.FlattenMembers | src/controllers/postController.js:527 | an element is in the flattened lists exactly when it is in one of them |
| Posts.PostTags | src/controllers/postController.js:525 | the tag rows a post is connected to that still exist, in tag-table order; stated by `PostTagsMembers` |
| Posts.PostTagsMembers | src/controllers/postController.js:525 | exactly the tag rows the post is connected to that still exist |
| Posts.AllTags | src/controllers/postController.js:523-532 | `getAllTags`: each post's tags, post after post, flattened; stated by `AllTagsMembers` |
| Posts.AllTagsMembers | src/controllers/postController.js:523-532 | `getAllTags` returns a tag exactly when some post is connected to it |
| Posts.CreateCheck | src/controllers/postController.js:276-319 | a request that passes has a title whose slug is free, at least one category and a tag list; the order of the refusals is stated by `CreateCheckOrder` |
| Posts.CreateCheckOrder | src/controllers/postController.js:280-327 | a missing title gives 500; after the slug check, a blank title, user, thumbnail or content, or no category, each gives its own 400 message, checked in that order (each only once the earlier ones pass); a missing tag list after all of them gives 500 |
| Posts.CreatePostOutcome | src/controllers/postController.js:276-350 | the checks, then the draft; its cases are stated by `CreateOutcomeCases` |
| Posts.DraftOutcome | src/controllers/postController.js:321-348 | tag rows, then the post or the 500; stated by `DraftAddsInputTags`, `DraftAddsOnePost` and `DraftRow` |
| Posts.CreateCheckPassIff | src/controllers/postController.js:280-319 | a request passes exactly when its title's slug is free, the title, user, thumbnail and content are not all white space, a category is given and a tag list is present |
| Posts.SlugCheckComesFirst | src/controllers/postController.js:280-288 | a taken slug gives 400 "Title already exists!" whatever the other fields hold |
| Posts.InsertTags | src/controllers/postController.js:321-327 | one tag row per input, in input order, under consecutive fresh ids; the ids are returned and every old tag is kept |
| Posts.ConsecutiveIds | src/controllers/postController.js:341 | the ids of the created tags, as a set, are the consecutive ids from the counter on |
| Posts.CreateOutcomeCases | src/controllers/postController.js:280-343 | a request refused by a check writes nothing and answers with that check's status and message; one that passes has the writes of the draft |
| Posts.DraftAddsInputTags | src/controllers/postController.js:321-327 | past the checks, one fresh tag row per input tag is created in input order, and the existing tags are unchanged |
| Posts.DraftAddsOnePost | src/controllers/postController.js:329-348 | with an unknown category, 500 after the tags exist and no post written; otherwise 201 with the draft under a new id and no other post changed |
| Posts.DraftRow | src/controllers/postController.js:329-343 | the stored post is `PENDING`; it has the given title, slug, user, thumbnail and content; its `ogImage` is the CDN prefix followed by the thumbnail; it has exactly the given categories; and its tags are exactly the consecutive ids of the rows created for the input tags |
| Posts.CreatePost | src/controllers/postController.js:276-350 | the reply, post table, tag table and counter after `createPost` are those of `CreatePostOutcome`, and the invariant holds |
| Posts.StoreDraft | src/controllers/postController.js:321-345 | the writes after the checks are those of `DraftOutcome`, and the invariant holds |
| Posts.NewTags | src/controllers/postController.js:375-380 | the inputs kept for creation are exactly those that equal no tag row, as a subsequence of the inputs (same order), each as often as it was sent |
| Posts.ReconciledTags | src/controllers/postController.js:367-390 | the final tag ids hold exactly the input pairs; rows are created only for unmatched inputs, and their ids are disjoint from the matched ones |
| Posts.TagIdsHoldInputs | src/controllers/postController.js:373-390 | every matched or created tag id holds an input pair, and the created ids hold no pair that was already in the table |
| Posts.InputHasTag | src/controllers/postController.js:367-390 | every input pair is held by a matched id if the table had it, or else by the row created for it |
| Posts.EditedRow | src/controllers/postController.js:394-409 | the sent title and the slug of the title are written; each of user, status, thumbnail and content is written when sent and kept when omitted; categories and tags are replaced by exactly the given sets, not merged; `ogImage` is kept |
| Posts.UpdateOutcomeCases | src/controllers/postController.js:364-390 | without a title or tag list, 500 and nothing written; otherwise the writes of the edit |
| Posts.UpdatePostOutcome | src/controllers/postController.js:352-417 | the title and tag-list check, then the edit; stated by `UpdateOutcomeCases` |
| Posts.EditOutcome | src/controllers/postController.js:367-416 | reconciled tags, then the row replacement or the 500; stated by `EditWrites` and `EditedPostTags` |
| Posts.EditWrites | src/controllers/postController.js:367-416 | only the unmatched inputs get tag rows, under fresh ids, and old tags are kept; a refused update answers 500 with the post table unchanged (the new tags stay); an accepted one replaces exactly the row under its id |
| Posts.EditedPostTags | src/controllers/postController.js:390-409 | an accepted edit stores the title and its slug, writes each sent user, status, thumbnail and content and keeps each omitted one, keeps the `ogImage`, sets exactly the given categories, and connects exactly the input tags |
| Posts.UpdatePost | src/controllers/postController.js:352-417 | the reply, post table, tag table and counter after `updatePost` are those of `UpdatePostOutcome`, and the invariant holds |
| Posts.StoreEdit | src/controllers/postController.js:367-412 | the writes after the title check are those of the edit outcome, and the invariant holds |
| Posts.LikedIsFound | src/controllers/postController.js:437-448 | once a user has liked a post the lookup finds it, so the same request is refused from then on |
| Posts.LikePost | src/controllers/postController.js:419-462 | 400 without a token; 400 without a post id; 400 "You have already liked this post" when the like exists; otherwise exactly one like is inserted; every failure leaves the likes unchanged |
| Posts.ActivatePost | src/controllers/postController.js:464-487 | the post's status becomes `ACTIVE` and nothing else changes; an unknown id gives 500 with no change |
| Posts.DeactivatePost | src/controllers/postController.js:489-511 | the post's status becomes `INACTIVE` and nothing else changes; an unknown id gives 500 with no change |
| Posts.StatusDecidesVisibility | src/controllers/postController.js:218-220 | after activation the post is found by its slug; after deactivation it is not |
| Posts.DeletePost | src/controllers/postController.js:513-521 | exactly that post is removed; an unknown id gives 500 with no change |

## Left out

- The ORM's query engine is abstract. Ordering by `createdAt` or by like
  count is an input sequence. `count`, `include` and `select` are the table
  lookups they stand for.
- `getMostLikedPosts`, `getAllPostsCategoryWise`, `getLatestPosts`,
  `getAllCategories` and `getAllQuotes` are not modelled, because each only
  passes an ORM query result through.
- `getAllNewsletters` is not modelled. It names undeclared identifiers in its
  `select`, so it always fails.
- The RSS script's query is not modelled: `ACTIVE` posts, newest first, at
  most 20. The feed functions take the selected posts as input.
- In the RSS script, `pubDate` and `lastBuildDate` are inputs already
  formatted as strings. `Date.toUTCString`, the file write, `process.exit`
  and the console messages are left out.
- `Promise.all` over tag creation and over the image-usage lookups runs each
  insert one after another in input order. Races between a check and its
  insert (slug, e-mail, like) are concurrency and are not modelled.
- The internals of `slugify` and `jwt.verify` are not modelled; they are
  parameters. `verify` returns the claims or fails.
- `Posts.LikePost`: a `verify` failure aborts the handler, because the call
  is outside its `try`. The model has no reply for it (`None`).
- `Posts.LikePost`: the `!user` branch is not modelled. `jwt.verify` returns
  a payload or throws, so its answer is never falsy.
- `Posts.ActivatePost`, `Posts.DeactivatePost`: the guard for a missing id
  is not modelled. It calls `response.json(400).json(...)`, and `:id` is a
  route parameter, so it cannot be reached. The `!post` branch after the
  update cannot be reached either, because a failed update throws.
- Request values are typed. JavaScript coercions and falsiness of ids and
  pages are not modelled: numeric strings, `0` as an id, and non-integer
  `page` values. A page is an integer, and an id is a natural number that is
  present or absent.
- A tag row's `hyperLink` is an `Option`. The difference between `undefined`
  and `null` in the `{ name, hyperLink }` lookup is not modelled.
- The database's referential actions on delete (cascades, dangling relation
  rows) are not modelled. Reads that `include` a relation only follow its
  rows that still exist: categories everywhere, and tags in `getPostById` and
  `getAllTags`.
- `Posts.GetPostBySlug`: the reply carries the post's tag ids. The handler
  does not `include` tags, so its JSON has no tag field.
- `Posts.MatchingPosts`, `Posts.SearchPosts`, `Images.MatchingImages`,
  `Images.IsUsed`: the
  ORM's `contains` is a case-sensitive substring test (`Text.Contains`), as
  on PostgreSQL. The database provider is not part of this model, and on a
  provider with case-insensitive collation (MySQL's default) these filters
  would also match text that differs only in case.
- The console logging in every handler is left out.
- Routing, middleware order, CORS, rate limiting and the app's start-up are
  not modelled, because they hold no logic of the handlers. The quotes and
  newsletters routers are not mounted, and nothing here depends on that.
- `Posts.Flatten`: its own contract states only the empty case. What it
  returns is stated by `Posts.FlattenAppend` and `Posts.FlattenMembers`.
- `jsonwebtoken`'s own expiry check is not modelled inside the guard, since
  `verify` is a parameter. `Auth.VerifyChecksExpiry` states it as an
  assumption about that parameter, used by `Auth.LibraryExpiryFirst`.
- `getAllTags` returns tags in the order the ORM lists posts, and each post's
  tags in the order the ORM lists the tag table. Both orders are inputs of
  `Posts.AllTags`.
