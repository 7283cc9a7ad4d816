# Order management and site admin: a Dafny model

This project models the logic underneath two small Next.js apps that share one
hosted Postgres database: an order-management system (customers, products,
orders and their lines, a dashboard) and the admin back office of a site
(a list of YouTube videos scraped from the channel feed, and news posts).

- The database is the `Store.Database` class. It has one `Tables.Table` per table:
  a map from serial id to row, plus the next id to hand out. Every server
  action becomes a method that changes only the tables it touches.
- Every database call may fail. The verdict is an unconstrained choice
  (`Store.StoreVerdict`), so every contract covers success and failure alike.
  - The order, customer and product actions return the error (`Failure`).
  - The admin actions ignore it, as the source does.
- `createOrder` is modelled step by step: insert the header, insert the lines,
  and delete the header again if the lines are rejected. Its contract states
  what remains in both tables after each outcome.
- The order form's cart is the `NewOrderPage.NewOrderForm` class. Its methods
  update the lines in place, and the specification functions `Added` and
  `Removed` describe them. The lemmas prove that every line has
  `amount == quantity * unitPrice`, that product ids stay distinct, and how the
  total moves.
- The scraping in `refreshYouTube` and `addYouTubeVideo` uses regular
  expressions. Each pattern is a scanner (`TextSearch`) with these semantics:
  - leftmost match;
  - alternatives tried in order;
  - greedy runs that are maximal;
  - the lazy global `<entry>` split.
- The video upsert is keyed on `video_id`. Repeating it leaves exactly one row
  per video, with the latest fields.
- The form-to-row mappings of the customer and product actions reproduce
  JavaScript's `|| null`, `Number(x) || d` and `=== "on"`. `JsSemantics` holds
  these, including an integer `Number()`.
- The dashboard aggregates are filter/reduce functions with their algebra.
- The client-configuration predicate is `SupabaseConfig.IsConfigured`.

## Model

| member | source | states |
|---|---|---|
| `Tables.Insert` | src/app/oms/customers/actions.ts:21 | the row is stored under an id no row had before; every earlier row keeps its id and value |
| `Tables.InsertAll` | src/app/oms/orders/actions.ts:52 | a batch insert gives its rows consecutive fresh ids in input order; no earlier row changes and no other key appears |
| `Tables.Update` | src/app/oms/customers/actions.ts:46 | only the row with that id changes; a missing id changes nothing; the key set and next id stay |
| `Tables.Delete` | src/app/oms/customers/actions.ts:60 | only that id is removed; all other rows keep their values |
| `Tables.DeleteUndoesInsert` | src/app/oms/orders/actions.ts:55 | deleting the id just inserted restores the previous rows |
| `JsSemantics.Get` | src/app/oms/customers/actions.ts:11 | `formData.get` is null exactly when the field was not submitted, else its text |
| `JsSemantics.EmptyToNull` | src/app/oms/customers/actions.ts:12 | `x \|\| null` is null exactly for a missing or empty value, else the value itself |
| `JsSemantics.EmptyToNullIsNullableField` | src/app/oms/customers/actions.ts:12-18 | a field mapped with `\|\| null` is null exactly when missing or empty, and otherwise carries the submitted text unchanged |
| `JsSemantics.OrString` | src/app/oms/products/actions.ts:14 | `x \|\| fallback` is the fallback for a missing or empty value, else the value |
| `JsSemantics.OrNumber` | src/app/oms/customers/actions.ts:17 | `n \|\| d` is n when n is truthy (finite and non-zero), else d |
| `JsSemantics.TrimStart` | src/app/oms/customers/actions.ts:17 | only leading white space is removed, and the result does not start with white space |
| `JsSemantics.TrimEnd` | src/app/oms/customers/actions.ts:17 | only trailing white space is removed, and the result does not end with white space |
| `JsSemantics.DecimalValue` | src/app/oms/customers/actions.ts:17 | trimmed text is NaN exactly when it is not an optionally signed digit string; digits give their value, with a `-` sign its negation |
| `JsSemantics.Number` | src/app/oms/customers/actions.ts:17 | `Number(null)` and `Number` of a blank string are 0; NaN exactly when the text, trimmed of white space, is non-empty and not an optionally signed digit string; padded digits give their value, `+` digits the value and `-` digits its negation |
| `JsSemantics.DecimalString` | src/app/oms/products/actions.ts:16 | the decimal notation of n (what a user types) is a non-empty digit string whose value is n |
| `JsSemantics.NumberOfDecimalString` | src/app/oms/products/actions.ts:15-16 | `Number` inverts decimal notation: reading back the digits of n gives n |
| `JsSemantics.StartsWith` | src/lib/supabase.ts:6 | `startsWith` holds exactly when the text is the prefix followed by the rest of the text |
| `OrderActions.Tax` | src/app/oms/orders/actions.ts:22 | the tax is the largest integer whose tenfold does not exceed the total: the floor of 10 % |
| `OrderActions.TaxIsTenth` | src/app/oms/orders/actions.ts:22 | for every integer total the tax equals total / 10 in integer division |
| `OrderActions.Subtotal` | src/app/oms/orders/actions.ts:21 | items with non-negative amounts have a non-negative subtotal |
| `OrderActions.SubtotalAppend` | src/app/oms/orders/actions.ts:21 | the subtotal of concatenated item lists is the sum of their subtotals |
| `OrderActions.SubtotalUsesAmountsOnly` | src/app/oms/orders/actions.ts:21 | the subtotal depends on the `amount` fields only, never on quantity × unit price |
| `OrderActions.ParsedItems` | src/app/oms/orders/actions.ts:18-19 | a missing `items` field parses as the empty list |
| `OrderActions.OrderHeader` | src/app/oms/orders/actions.ts:24-35 | a new header is `pending`; its total is the subtotal and its tax the floor of a tenth; an empty due date or note is null; the customer is `Number(customer_id)`, with NaN as null; the creator is the signed-in user |
| `OrderActions.MissingItemsGiveZeroTotals` | src/app/oms/orders/actions.ts:19-22 | with no `items` field both total and tax are 0 |
| `OrderActions.OrderLines` | src/app/oms/orders/actions.ts:44-50 | one line per item, in input order, each carrying the new order id and the item's product, quantity, unit price and amount unchanged |
| `OrderActions.InsertedLinesReferToIssuedOrders` | src/app/oms/orders/actions.ts:44-52 | inserting lines that name issued orders keeps every stored line pointing at an issued order id |
| `OrderActions.CreateOrder` | src/app/oms/orders/actions.ts:14-62 | header rejected: nothing changes. Success: the header is stored under a fresh id and every line under it, in order, then a redirect to the list. Lines rejected: no line is stored, and the header is removed again unless the compensating delete fails, in which case it stays with no line referring to it. An empty item list never inserts lines |
| `OrderActions.UpdateOrderStatus` | src/app/oms/orders/actions.ts:64-77 | only the status of the row with that id is overwritten, with any value; all other rows and fields stay; on error nothing changes |
| `OrderActions.DeleteOrder` | src/app/oms/orders/actions.ts:79-90 | only that header is removed (its lines are not touched); on error nothing changes |
| `NewOrderPage.FindProduct` | src/app/oms/orders/new/page.tsx:62 | `find` gives a listed product whose id equals `Number(selected)`, and nothing exactly when no id matches |
| `NewOrderPage.AddLine` | src/app/oms/orders/new/page.tsx:65-82 | merging into an existing line or appending a new one lengthens the cart by at most one line |
| `NewOrderPage.Added` | src/app/oms/orders/new/page.tsx:61-82 | adding to the cart lengthens it by at most one line |
| `NewOrderPage.AddPutsProductInCart` | src/app/oms/orders/new/page.tsx:61-82 | after adding a positive quantity of a listed product, the cart has a line for that product |
| `NewOrderPage.Removed` | src/app/oms/orders/new/page.tsx:88-90 | removing a valid index drops exactly one line; any other index leaves the cart as long as before |
| `NewOrderPage.IndexOfProduct` | src/app/oms/orders/new/page.tsx:65 | `findIndex` gives the first line with that product id, or -1 exactly when there is none |
| `NewOrderPage.AddIgnoresUnknownProductOrBadQuantity` | src/app/oms/orders/new/page.tsx:62-63 | an unknown product or a quantity ≤ 0 leaves the cart unchanged |
| `NewOrderPage.AddMergesExistingLine` | src/app/oms/orders/new/page.tsx:65-70 | adding a product already in the cart raises that line's quantity by q and sets its amount to the new quantity × unit price; the length and all other lines stay |
| `NewOrderPage.AddAppendsNewLine` | src/app/oms/orders/new/page.tsx:71-82 | adding a product not yet in the cart appends exactly one line with amount = quantity × unit price |
| `NewOrderPage.AddUsesSelectedProduct` | src/app/oms/orders/new/page.tsx:61-66 | a known product with a positive quantity is added through the merge-or-append step with that product |
| `NewOrderPage.AddLineKeepsConsistent` | src/app/oms/orders/new/page.tsx:65-82 | merge-or-append with a positive quantity keeps the product ids distinct, every quantity positive and every amount = quantity × unit price |
| `NewOrderPage.AddKeepsConsistent` | src/app/oms/orders/new/page.tsx:61-86 | `addItem` preserves the cart invariant for any selection and quantity |
| `NewOrderPage.CartTotal` | src/app/oms/orders/new/page.tsx:92 | a cart of non-negative amounts has a non-negative total |
| `NewOrderPage.CartTotalAppend` | src/app/oms/orders/new/page.tsx:92 | the total of concatenated carts is the sum of their totals |
| `NewOrderPage.CartTotalSingle` | src/app/oms/orders/new/page.tsx:92 | a one-line cart totals that line's amount |
| `NewOrderPage.CartTotalSplit` | src/app/oms/orders/new/page.tsx:92 | the total is the part before a line, plus the line's amount, plus the part after it |
| `NewOrderPage.CartTotalReplace` | src/app/oms/orders/new/page.tsx:92 | replacing one line changes the total by the difference of the two amounts |
| `NewOrderPage.AddRaisesTotal` | src/app/oms/orders/new/page.tsx:65-81 | in a consistent cart, adding q of a product raises the total by exactly q × the unit price: that of the existing line when merged, that of the product when appended |
| `NewOrderPage.MergeRaisesTotal` | src/app/oms/orders/new/page.tsx:65-70 | merging q into the product's existing line raises the total by q × that line's unit price |
| `NewOrderPage.AppendRaisesTotal` | src/app/oms/orders/new/page.tsx:71-82 | appending a new line of q raises the total by q × the product's unit price |
| `NewOrderPage.KeepOthersIsCut` | src/app/oms/orders/new/page.tsx:89 | filtering out one index is the cart with that position cut out (unchanged when out of range) |
| `NewOrderPage.RemoveDropsOneLine` | src/app/oms/orders/new/page.tsx:88-90 | `removeItem(i)` removes exactly the line at i and keeps the order of the rest; an out-of-range index changes nothing |
| `NewOrderPage.RemoveKeepsConsistent` | src/app/oms/orders/new/page.tsx:88-90 | removing a line preserves the cart invariant |
| `NewOrderPage.RemoveLowersTotal` | src/app/oms/orders/new/page.tsx:88-92 | removing line i lowers the total by exactly its amount |
| `NewOrderPage.CartTax` | src/app/oms/orders/new/page.tsx:93 | the displayed tax is the floor of a tenth of the cart total |
| `NewOrderPage.GrandTotal` | src/app/oms/orders/new/page.tsx:232 | the displayed grand total exceeds the cart total by exactly the tax |
| `NewOrderPage.Submitted` | src/app/oms/orders/new/page.tsx:97-99 | the submitted items are the field-wise projection of the cart lines, same length and order |
| `NewOrderPage.SubmittedSubtotalMatchesCart` | src/app/oms/orders/new/page.tsx:97-99 | the total the server computes from the submitted items equals the total the page displayed |
| `NewOrderPage.TwoAtThousandExample` | src/app/oms/orders/new/page.tsx:92-93 | two units at 1000 give total 2000, tax 200 and a grand total of 2200 |
| `NewOrderPage.NewOrderForm.constructor` | src/app/oms/orders/new/page.tsx:41-43 | the form starts with an empty cart, no product selected and quantity 1 |
| `NewOrderPage.NewOrderForm.Choose` | src/app/oms/orders/new/page.tsx:42-43 | the select and quantity inputs set exactly those two fields |
| `NewOrderPage.NewOrderForm.AddItem` | src/app/oms/orders/new/page.tsx:61-86 | the cart becomes `Added` of the old cart (merge in place or append); the cart invariant is kept; the selection resets to "" and 1 only when a line was added |
| `NewOrderPage.NewOrderForm.RemoveItem` | src/app/oms/orders/new/page.tsx:88-90 | the cart becomes `Removed` of the old cart and the invariant is kept |
| `NewOrderPage.NewOrderForm.HandleSubmit` | src/app/oms/orders/new/page.tsx:95-102 | the projected cart is sent to `createOrder`: after a redirect the orders table gained the header built from the form and the cart, and the lines table gained the cart's lines under that order; the stored order carries the cart total and the displayed tax. On failure no line is stored, and the header is either removed again or left with no lines, as in `createOrder`; an empty cart never stores lines |
| `TextSearch.RunLengthIsMaximal` | src/app/admin/actions.ts:70 | a greedy run consists of class characters only and stops at the end or at the first character outside the class |
| `TextSearch.MatchAt` | src/app/admin/actions.ts:25 | a capture is longer than the literal prefix it starts with; what it finds, in both directions, is stated by `MatchAtIffOccurs` |
| `TextSearch.MatchCaptures` | src/app/admin/actions.ts:25 | a capture is the pattern's literal prefix followed by one or more class characters |
| `TextSearch.MatchOccurs` | src/app/admin/actions.ts:70 | a match is a real occurrence: the opening text, the capture and the closing text stand at that position |
| `TextSearch.MatchIsMaximal` | src/app/admin/actions.ts:70 | a capture cannot be extended: the next character is outside the class or the text ends |
| `TextSearch.MatchAtComplete` | src/app/admin/actions.ts:25 | when the pattern's text, a group of the prefix and class characters, and the closing text stand at a position (a closing-free pattern's group running to the end or to a non-class character), the scan there captures exactly that group |
| `TextSearch.MatchAtIffOccurs` | src/app/admin/actions.ts:25 | for a pattern whose closing text starts outside its class, the scan at a position captures a group exactly when the text shows that match there |
| `TextSearch.OpenMatchAtIff` | src/app/admin/actions.ts:70 | a pattern without closing text matches at a position exactly when its lead stands there followed by a class character |
| `TextSearch.AltAt` | src/app/admin/actions.ts:70 | an alternation with no alternatives fails; the first alternative wins when it matches |
| `TextSearch.AltAtIsSomeAlternative` | src/app/admin/actions.ts:70 | an alternation fails exactly when every alternative fails, and a capture comes from one of them |
| `TextSearch.SearchFrom` | src/app/admin/actions.ts:25 | a found match lies at or after the start and matches at its position |
| `TextSearch.SearchFromIsLeftmost` | src/app/admin/actions.ts:25 | the match found is the leftmost; when none is found, no position matches |
| `TextSearch.Search` | src/app/admin/actions.ts:25 | `match(...)?.[1]` is the group of the leftmost match, present exactly when there is one |
| `TextSearch.SearchFailsIff` | src/app/admin/actions.ts:29 | a search yields null exactly when no position matches |
| `TextSearch.SearchCapture` | src/app/admin/actions.ts:33 | a search result is a capture of one of the alternatives |
| `TextSearch.SearchFailsIffAbsent` | src/app/admin/actions.ts:29 | a search yields null exactly when no alternative stands anywhere in the text |
| `TextSearch.AltAtFirst` | src/app/admin/actions.ts:70 | at a position, the alternation takes the capture of the first alternative that matches there |
| `TextSearch.AltAtOccurs` | src/app/admin/actions.ts:70 | where an alternative stands in the text and no earlier one does, the alternation captures its group |
| `TextSearch.AltAtAbsent` | src/app/admin/actions.ts:70 | where no alternative stands, the alternation captures nothing |
| `TextSearch.SearchAtFirstCapture` | src/app/admin/actions.ts:25 | the scan stops at the first position where the alternation captures, with that capture |
| `TextSearch.SearchFindsLeftmost` | src/app/admin/actions.ts:25 | the search returns the group of the leftmost place where an alternative stands, taking the first alternative standing there |
| `TextSearch.SearchOneFailsIffAbsent` | src/app/admin/actions.ts:24-27 | a one-pattern search yields null exactly when the pattern stands nowhere in the text |
| `TextSearch.SearchOneFindsLeftmost` | src/app/admin/actions.ts:24-27 | a one-pattern search returns the group of the pattern's leftmost occurrence |
| `TextSearch.IndexOf` | src/app/admin/actions.ts:38 | the first occurrence of the literal at or after the start, or -1 exactly when there is none |
| `TextSearch.NextMatch` | src/app/admin/actions.ts:38 | a match of the lazy pattern lies at or after the start and is a delimited block: `open`, no other `close`, then `close` |
| `TextSearch.LazySpans` | src/app/admin/actions.ts:38 | the lazy global match yields every match, none skipped: none exactly when there is none; the first is the next match after the start, each next one the match after the previous one's end, and none follows the last |
| `TextSearch.ConsMatch` | src/app/admin/actions.ts:38 | a match followed by all the matches after its end is all the matches |
| `TextSearch.AllMatchesStartAtNextOpen` | src/app/admin/actions.ts:38 | in `indexOf` terms: no span exactly when there is no `open` or no `close` after it; the first span starts at the first `open` after the start, each next one at the first `open` after the previous span's end |
| `TextSearch.MatchesAreSpans` | src/app/admin/actions.ts:38 | all the matches are delimited blocks after the start, in order and without overlap |
| `TextSearch.DelimitedIsBlock` | src/app/admin/actions.ts:38 | a text cut out at such a span opens with `open`, closes with `close` and contains no other `close` |
| `FeedParsing.ChannelId` | src/app/admin/actions.ts:24-27 | the channel id comes from the first of the three patterns that matches anywhere, in the order `"channelId":"`, `channel_id=`, `"externalId":"`; none matching gives null |
| `FeedParsing.ChannelIdShape` | src/app/admin/actions.ts:24-27 | a channel id is `UC` followed by one or more of `[A-Za-z0-9_-]` |
| `FeedParsing.ChannelIdAbsentIff` | src/app/admin/actions.ts:24-29 | the page yields no channel id, and the action stops, exactly when none of the three patterns stands anywhere in it |
| `FeedParsing.ChannelIdFound` | src/app/admin/actions.ts:24-27 | when a pattern is the first of the three to stand anywhere in the page, the channel id is the group of its leftmost occurrence |
| `FeedParsing.EntrySpans` | src/app/admin/actions.ts:38 | the entry spans are every match of the pattern, none skipped, and they are ordered, non-overlapping `<entry>…</entry>` blocks |
| `FeedParsing.Entries` | src/app/admin/actions.ts:38 | the entries are the texts of those spans (an empty list when there is no match) |
| `FeedParsing.FirstEntries` | src/app/admin/actions.ts:40 | at most the first six entries are processed, in feed order |
| `FeedParsing.EntryBlocksAreDelimited` | src/app/admin/actions.ts:38-40 | every processed block opens with `<entry>`, ends with `</entry>` and contains no other `</entry>` |
| `FeedParsing.TagPattern` | src/app/admin/actions.ts:41-45 | `/<tag>([^<]+)<\/tag>/` closes with `<`, which its group cannot contain |
| `FeedParsing.FeedUrl` | src/app/admin/actions.ts:34 | the feed address is the fixed feed prefix followed by the channel id, which can be read back after it |
| `FeedParsing.TagText` | src/app/admin/actions.ts:41-45 | a tag's text, when present, is non-empty |
| `FeedParsing.TagTextShape` | src/app/admin/actions.ts:41-45 | a tag's text is non-empty and contains no `<` |
| `FeedParsing.TagTextAbsentIff` | src/app/admin/actions.ts:41-45 | a tag yields no text exactly when no `<tag>`, non-empty text without `<`, `</tag>` stands anywhere in the entry |
| `FeedParsing.TagTextFound` | src/app/admin/actions.ts:41-45 | a tag's text is the text of its leftmost occurrence |
| `FeedParsing.ParseEntry` | src/app/admin/actions.ts:45-51 | a parsed video's publication time is the `<published>` text, null when that tag is missing |
| `FeedParsing.ParseEntryFields` | src/app/admin/actions.ts:41-49 | an entry yields a video exactly when it has a video id and a title; the title prefers `<media:title>` over `<title>` |
| `FeedParsing.ParsedVideos` | src/app/admin/actions.ts:40-47 | the parsed videos are at most as many as the entries |
| `FeedParsing.ParsedVideosStep` | src/app/admin/actions.ts:40-47 | one more entry appends its video when it parses and is skipped silently when it does not |
| `FeedParsing.ThumbnailUrl` | src/app/admin/actions.ts:50 | the thumbnail URL is `https://img.youtube.com/vi/`, the video id, then `/mqdefault.jpg` |
| `FeedParsing.ThumbnailUrlInjective` | src/app/admin/actions.ts:50 | the thumbnail URL `https://img.youtube.com/vi/<id>/mqdefault.jpg` determines the video id |
| `FeedParsing.VideoIdFromUrl` | src/app/admin/actions.ts:70 | an id extracted from a link is non-empty |
| `FeedParsing.VideoIdShape` | src/app/admin/actions.ts:70-73 | an extracted video id is non-empty and free of `&` and white space |
| `FeedParsing.VideoIdAbsentIff` | src/app/admin/actions.ts:70-71 | a link yields no id exactly when neither `youtube.com/watch?v=` nor `youtu.be/` is followed by an id character anywhere |
| `FeedParsing.VideoIdAbsentAtEveryPosition` | src/app/admin/actions.ts:70-71 | a link yields no id exactly when neither alternative matches at any position |
| `FeedParsing.VideoIdFound` | src/app/admin/actions.ts:70-73 | the id is the group of the leftmost place where either marker is followed by an id |
| `FeedParsing.PatternsCloseOutsideClass` | src/app/admin/actions.ts:24-27 | every scraping pattern (the three channel-id patterns, the tag patterns, the two link forms) ends with text its group cannot take |

| `AdminActions.UpsertKey` | src/app/admin/actions.ts:53-55 | an upsert writes to the row already holding the video id, or else to the next fresh id when no row holds it |
| `AdminActions.Upsert` | src/app/admin/actions.ts:53-55 | the row is written at that key; ids stay fresh and video ids unique |
| `AdminActions.UpsertKeepsOneRowPerVideo` | src/app/admin/actions.ts:53-55 | after an upsert exactly the rows with that video id carry the new fields; every other row is kept; no other row appears |
| `AdminActions.UpsertSameVideoTwice` | src/app/admin/actions.ts:76-79 | two upserts for the same video id equal the later one alone: the latest fields win and no row is added |
| `AdminActions.UpsertIdempotent` | src/app/admin/actions.ts:53-55 | repeating an upsert n ≥ 1 times equals doing it once, and leaves exactly one row with that video id |
| `AdminActions.VideoRowOf` | src/app/admin/actions.ts:48-51 | a feed video is stored with its id, title and publication time, and the thumbnail URL of its id |
| `AdminActions.UpsertAccepted` | src/app/admin/actions.ts:40-56 | the upserts of the parsed videos applied in feed order, each kept only where the database accepted it; ids stay fresh and video ids unique |
| `AdminActions.UpsertAcceptedStep` | src/app/admin/actions.ts:40-56 | one more entry's upsert is applied when the database accepts it and is lost when it refuses |
| `AdminActions.AcceptedVideosAreStored` | src/app/admin/actions.ts:40-56 | when every upsert is accepted, every parsed video is stored afterwards |
| `AdminActions.UpsertVideo` | src/app/admin/actions.ts:53-55 | the video table is upserted or left unchanged, and the invariants hold |
| `AdminActions.UpsertEntries` | src/app/admin/actions.ts:40-57 | the loop leaves the table as the upserts of the parsed entries, in order, restricted to those the database accepted |
| `AdminActions.FeedBody` | src/app/admin/actions.ts:16-36 | the feed is read only when the channel page loads, a channel id is found and the feed loads; without a channel id the message is チャンネルIDが見つかりませんでした |
| `AdminActions.RefreshYouTube` | src/app/admin/actions.ts:14-64 | the result is success exactly when the feed was read. On failure the videos are unchanged and the error is given. On success the table is the accepted upserts of the first six parsed entries |
| `AdminActions.LinkedVideo` | src/app/admin/actions.ts:67-77 | a link without a video id gives nothing; otherwise the row has that id, the submitted title, the id's thumbnail and the given time |
| `AdminActions.AddYouTubeVideo` | src/app/admin/actions.ts:66-82 | a link without an id is a no-op; otherwise that row is upserted, unless the database refuses |
| `AdminActions.DeleteYouTubeVideo` | src/app/admin/actions.ts:84-88 | only that id is removed, or nothing changes when the database refuses |
| `AdminActions.NewsData` | src/app/admin/actions.ts:92-94 | title and content are copied from the form as they are |
| `AdminActions.CreateNews` | src/app/admin/actions.ts:91-96 | the news row is inserted, or nothing changes (the error is ignored) |
| `AdminActions.UpdateNews` | src/app/admin/actions.ts:98-104 | only the row with that id gets the new title and content, or nothing changes |
| `AdminActions.DeleteNews` | src/app/admin/actions.ts:106-110 | only that news row is removed, or nothing changes |
| `CustomerActions.CustomerData` | src/app/oms/customers/actions.ts:10-19 | `name` is copied as is. The six optional text fields are null exactly when missing or empty. The credit limit is the parsed number, and 0 for NaN |
| `CustomerActions.CreditLimitReadsDecimal` | src/app/oms/customers/actions.ts:17 | a credit limit typed in decimal digits is stored as that number; a missing one as 0 |
| `CustomerActions.CreateCustomer` | src/app/oms/customers/actions.ts:7-29 | on success the row is inserted and the action redirects to the list; on error nothing changes and no redirect happens |
| `CustomerActions.UpdateCustomer` | src/app/oms/customers/actions.ts:31-54 | the row with that id gets the same mapping as on create, and no other row changes; on error nothing changes |
| `CustomerActions.DeleteCustomer` | src/app/oms/customers/actions.ts:56-67 | only that row is removed; on error nothing changes |
| `ProductActions.ProductData` | src/app/oms/products/actions.ts:10-18 | `name` and `code` are copied; an empty description is null; an empty unit is 個; the price is the parsed number or 0; the lead time is the parsed number unless falsy, then 7; active exactly when the field is "on" |
| `ProductActions.ZeroLeadTimeBecomesDefault` | src/app/oms/products/actions.ts:16 | an explicit lead time of 0 is stored as 7 |
| `ProductActions.NumbersReadDecimal` | src/app/oms/products/actions.ts:15-16 | a price in decimal digits, and a positive lead time, are stored as typed |
| `ProductActions.CreateProduct` | src/app/oms/products/actions.ts:7-28 | on success the row is inserted and the action redirects to the list; on error nothing changes |
| `ProductActions.UpdateProduct` | src/app/oms/products/actions.ts:30-52 | the row with that id gets the same mapping as on create, and no other row changes; on error nothing changes |
| `ProductActions.DeleteProduct` | src/app/oms/products/actions.ts:54-65 | only that row is removed; on error nothing changes |
| `Dashboard.CountOrZero` | src/app/oms/dashboard/page.tsx:26-27 | a missing count shows as 0 |
| `Dashboard.OrdersOrEmpty` | src/app/oms/dashboard/page.tsx:28-29 | missing order data is the empty list |
| `Dashboard.WithStatus` | src/app/oms/dashboard/page.tsx:31-32 | the filter keeps exactly the orders with that status, each as many times as it occurs in the list, and drops every other order; it is no longer than the list |
| `Dashboard.WithStatusAppend` | src/app/oms/dashboard/page.tsx:31-34 | filtering a concatenation filters each part |
| `Dashboard.TwoStatusesFitInOrders` | src/app/oms/dashboard/page.tsx:31-32 | the counts of two different statuses add up to at most the number of orders |
| `Dashboard.AmountOrZero` | src/app/oms/dashboard/page.tsx:35 | a null total counts as 0 |
| `Dashboard.Sales` | src/app/oms/dashboard/page.tsx:35 | a sum of non-negative amounts is non-negative |
| `Dashboard.SalesAppend` | src/app/oms/dashboard/page.tsx:35 | the sum over concatenated lists is the sum of the sums |
| `Dashboard.TotalSales` | src/app/oms/dashboard/page.tsx:33-35 | with non-negative order totals (null as 0), total sales are non-negative |
| `Dashboard.TotalSalesSplit` | src/app/oms/dashboard/page.tsx:33-35 | an order adds its amount (null as 0) to the sales total exactly when it is completed |
| `Dashboard.NonCompletedOrdersDoNotCount` | src/app/oms/dashboard/page.tsx:34 | adding, removing or changing an order that is not completed leaves the sales total unchanged |
| `Dashboard.DashboardFigures` | src/app/oms/dashboard/page.tsx:26-35 | the figures are the two counts (0 when missing) and the pending and in-production counts, which together fit in the order list. Sales are totalled over completed orders. Missing data shows as zeros |
| `SupabaseConfig.IsConfigured` | src/lib/supabase.ts:6 | configured exactly when the URL starts with `https://` and the key is longer than 20 characters |
| `SupabaseConfig.UrlMustBeHttps` | src/lib/supabase.ts:6 | an unset URL or one not starting with `https://` is never configured |
| `SupabaseConfig.PlainHttpRefused` | src/lib/supabase.ts:6 | every URL starting with `http://` is refused whatever the key |
| `SupabaseConfig.KeyMustBeLongerThanTwenty` | src/lib/supabase.ts:6 | a missing key, or one of 20 characters or fewer, is refused whatever the URL |
| `SupabaseConfig.ExportedClient` | src/lib/supabase.ts:8-10 | the exported client exists exactly when configured, and is built from the two values |

## Left out

- Rendering: JSX, the status label and colour maps, and the loading flag. The
  five most recent orders are only displayed, so their query is not modelled.
- The pages that merely route or redirect are left out, along with the
  `useEffect` loading of customers and products. The product list is a
  constructor argument of `NewOrderForm`.
- `revalidatePath` is a cache concern with no effect on the data, so it is left
  out. `redirect` is the `Redirect(path)` response.
- `auth.getUser()` is a parameter `user`, and `new Date().toISOString()` a
  parameter `now`.
- `JSON.parse` of the submitted items is taken as already parsed, with `None`
  for a missing field. Malformed JSON, on which the source throws, is not
  modelled.
- Network access: `fetch` is a function parameter from URL to body, with `None`
  when the request throws. Headers, caching and HTTP status codes are not
  modelled.
- `RefreshYouTube`: the text of `String(error)` for a thrown request comes from
  the runtime. The model uses a fixed stand-in message.
- `AdminActions.RefreshYouTube`: the admin actions use the browser client,
  which is null when unconfigured. The model assumes a configured client, so
  the `TypeError` that `supabase.from` would throw, caught in
  `refreshYouTube`, is not modelled.
- `AdminActions.AddYouTubeVideo`: requires a `url` field. Without one the
  source throws on `null.match` before touching the database.
- Row ids from the forms are integer parameters. With an arbitrary failure
  verdict, a non-numeric id is just another refused statement.
- Database constraints (NOT NULL, foreign keys, unique codes) are not modelled
  one by one. Any statement may be refused, which covers them.
- Database defaults (`created_at`, `order_number`) are left out.
- `JsSemantics.Number`: only decimal integers are modelled, with optional sign
  and surrounding white space. Fractions, exponents, hexadecimal and `Infinity`
  give NaN in the model. IEEE floating point is not modelled.
- `OrderActions.Tax`: the model uses exact arithmetic, not IEEE
  multiplication.
- `SupabaseConfig.IsConfigured`: counts characters, not UTF-16 code units, so
  keys with characters outside the Basic Multilingual Plane are measured
  differently.
- `NewOrderPage.NewOrderForm.AddItem`: the source's `[...items]` is a shallow
  copy, so it also mutates the line object shared with the previous state.
  The model replaces the line as a value; that aliasing is not captured.
- `NewOrderPage.NewOrderForm.Choose`: quantities are integers. The number
  input's `Number(e.target.value)` can store a fraction such as 1.5, which
  passes the `quantity <= 0` guard and gives fractional amounts, totals and tax.
  Fractional quantities are not modelled.
- The submit button is disabled while the cart is empty. This is a UI rule,
  and the empty-cart case is modelled in `CreateOrder` anyway.
- Regular expressions: only the patterns used, as scanners. There is no
  general regex engine.
- `Promise.all` and `async` ordering: each handler is one sequential method.
- `src/lib/types.ts` only declares record shapes, which appear here as the
  datatypes of `Schema`.
