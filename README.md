# Corner-shop backend rules in Dafny

This project models the business rules of the corner-shop backend: the Express
controllers for carts, orders, reviews, the admin console and user profiles,
and the identity-sync handlers that copy Clerk users into the database. The
Mongo database is one `Store` object (module `Database`). It holds:

- a map of products keyed by id;
- carts, orders, reviews and users as sequences in creation order;
- counters from which new review, user and address ids are drawn (the
  invariant below keeps review and user ids fresh; address ids are not
  covered by it).

Each request handler is a module-level method that takes the store. It returns a `Status`
(`Ok`, `BadRequest`, `Forbidden`, `NotFound`) in place of an HTTP status
code. It changes only the collections its `modifies` clause names.

`Store.Valid()` collects the invariants every handler preserves:

- a user has at most one cart;
- a cart has at most one line per product;
- order ids are their positions (orders are never deleted, so newest first
  means highest index first);
- review ids are unique and below the next fresh id;
- every rating lies in 1..5;
- at most one review exists per (product, user) pair;
- clerk ids and user ids are unique;
- every user has at most one default address;
- every wishlist is free of duplicates.

Each handler's state change is stated through a pure function on values
(`AddLine`, `Decremented`, `Upsert`, `WithStatus`, `Edited`, `WithAddress`,
`InsertIfAbsent`, ...). The lemmas beside each function prove what the handler
promises: round trips, idempotence, invariants kept and "nothing else
changes". The product rating aggregate is specified by `Stats` (mean and
count of the product's reviews). `RatingsConsistent` says that every product
carries its `Stats`. Every handler that changes products or reviews keeps that
relation: creating and deleting reviews, editing and deleting products, and
taking stock off products when an order is placed.

Behaviour of the code worth knowing:

- `updateUserInDB` does not upsert: an update for an unknown user changes
  nothing, so a user whose creation event was missed is never created by a
  later update event.
- `updateOrderStatus` accepts any transition between the three statuses,
  Delivered back to Pending included; the timestamps keep the first entry
  into Shipped and Delivered.
- When `createReview` finds the product gone, it deletes the upserted review.
  If that upsert had updated an older review of the same pair, the older
  review is lost too (`RollbackAfterUpdate`).
- `createOrder` checks each line against the stock as it was before the order.
  `OversellWithRepeatedProduct` exhibits two lines for the same product that
  both pass and drive the stock to -1. `NoOversellWithoutRepeatedProducts`
  proves that stock stays non-negative when no product repeats.

Several definitions that the handlers are written in terms of carry no
contract of their own; the rows that state their properties are these:
`Dashboard` (getDashboardStats) by `RevenueAppend`, `RevenueBounds` and
`DashboardAfterPlacement`; `Eligibility` (the checks of createReview) by
`CreateReview`; `PublicId` (the storage key of an image URL) by
`PublicIdSpec`, `PublicIdOfUpload` and `StorageKeysInFolder`; `DisplayName`
(the user name built from the provider event) by `DisplayNameSpec`;
`PatchOf` (the `$set` object of an update event) by `PatchSpec`;
`Decremented` by `DecrementedSpec`. `Stats` (the rating aggregate) does carry
a contract, giving the count and the mean; `AverageInRange` and
`RecomputeRestoresConsistency` build on it.

## Model

| member | source | states |
|---|---|---|
| CartController.WithItemsSpec | backend/src/controllers/cart.controller.js:8-21 | Storing a user's lines keeps one cart per user, makes the user's cart exist with exactly those lines, and leaves every other user's lines as they were |
| CartController.GetCart | backend/src/controllers/cart.controller.js:4-30 | Returns the caller's existing cart unchanged, or appends one empty cart keyed by the caller's clerkId; afterwards the caller's cart exists and the store stays valid |
| CartController.AddLineSpec | backend/src/controllers/cart.controller.js:63-81 | A product already in the cart has its line raised by exactly 1 whatever quantity is asked, other lines untouched; a new product is appended as one line with the requested quantity; lines stay one per product |
| CartController.AddToCart | backend/src/controllers/cart.controller.js:32-92 | NotFound exactly for an absent product, BadRequest when stock is below the requested quantity or, for a line already present, below its quantity plus 1; on failure no cart changes; success exactly when the request is acceptable, and then the caller's lines become AddLine of the old ones |
| CartController.SetQuantitySpec | backend/src/controllers/cart.controller.js:183 | Only the matching line takes the new quantity; every other line and the length are unchanged; lines stay one per product |
| CartController.UpdateCartItem | backend/src/controllers/cart.controller.js:143-194 | BadRequest for a non-integer or sub-1 quantity before any lookup; NotFound exactly when the cart, the line or the product is missing; BadRequest exactly when stock is below the quantity; Ok in every other case, and then only that line's quantity changes |
| CartController.WithoutProductSpec | backend/src/controllers/cart.controller.js:126-133 | Removal keeps exactly the lines for other products, is the identity when the product is not in the cart, and keeps lines one per product |
| CartController.RemoveFromCart | backend/src/controllers/cart.controller.js:119-141 | NotFound exactly when the caller has no cart, with nothing changed; otherwise the caller's lines lose the product's line and nothing else |
| CartController.ClearCart | backend/src/controllers/cart.controller.js:94-117 | NotFound exactly when the caller has no cart, with nothing changed; otherwise the caller's cart is emptied and other carts are untouched |
| OrderController.FirstFailureSpec | backend/src/controllers/order.controller.js:20-32 | The validation loop yields Ok exactly when every line's product exists with stock at least the line's quantity; NotFound only when some line's product is missing |
| OrderController.FirstFailureKind | backend/src/controllers/order.controller.js:20-32 | NotFound exactly when the first line failing the stock check names a missing product; BadRequest exactly when that line's product exists with too little stock |
| OrderController.DecrementedSpec | backend/src/controllers/order.controller.js:45-49 | The stock loop keeps the set of products and lowers each product's stock by the total quantity ordered of it, leaving all other fields and all other products unchanged |
| OrderController.OrderedQuantityOfDistinct | backend/src/controllers/order.controller.js:45-49 | When no product repeats, the quantity taken from a product is the quantity of its single line, or 0 when it is not ordered |
| OrderController.NoOversellWithoutRepeatedProducts | backend/src/controllers/order.controller.js:20-32 | If stocks start non-negative, lines name distinct products and validation passes, every stock stays non-negative after the decrement loop |
| OrderController.OversellWithRepeatedProduct | backend/src/controllers/order.controller.js:20-49 | Two lines of quantity 1 for a product with stock 1 both pass validation and the decrement drives its stock to -1 |
| OrderController.DecrementKeepsRatings | backend/src/controllers/order.controller.js:45-49 | Taking stock off products keeps every product's rating aggregate equal to the mean and count of its reviews |
| OrderController.TakeStock | backend/src/controllers/order.controller.js:45-49 | The `$inc` loop leaves the catalog as Decremented of the order's lines, and rating aggregates stay consistent |
| OrderController.CreateOrder | backend/src/controllers/order.controller.js:5-58 | BadRequest for missing or empty items; otherwise the first failing line's NotFound/BadRequest with nothing changed; on success exactly one order is appended with the given items, address, payment and client totalPrice, stock drops per line, and rating aggregates stay consistent |
| OrderController.UserOrders | backend/src/controllers/order.controller.js:62-102 | Lists exactly the caller's orders, newest first, each flagged hasReviewed exactly when some review names that order |
| ReviewController.SumRatingsBounds | backend/src/controllers/review.controller.js:122 | A sum of ratings in 1..5 lies between the count and five times the count |
| ReviewController.AverageInRange | backend/src/controllers/review.controller.js:63-81 | Under the store invariant a product's average rating lies in 1..5 when it has reviews and is 0 otherwise |
| ReviewController.RecomputeRestoresConsistency | backend/src/controllers/review.controller.js:78-81 | After a change confined to one product's reviews, recomputing that product's aggregate makes every product carry the mean and count of its reviews again |
| ReviewController.OneReviewPerPair | backend/src/controllers/review.controller.js:56-60 | Under the store invariant a (product, user) pair has exactly one review when one is found and none otherwise |
| ReviewController.UpsertSpec | backend/src/controllers/review.controller.js:56-60 | The upsert keeps the invariant, leaves the pair with a review carrying the new rating and order, adds a review only when the pair had none, leaves other products' reviews alone, and keeps every other review, of this product or another, at its position unchanged (an insert only appends) |
| ReviewController.ResubmitReplaces | backend/src/controllers/review.controller.js:56-60 | Submitting twice for a pair equals submitting the second rating once: resubmission replaces rather than adds |
| ReviewController.WithoutReviewSpec | backend/src/controllers/review.controller.js:118 | Deleting by id keeps the invariant, keeps exactly the reviews with other ids, touches only the deleted review's product, and is the identity for an unknown id |
| ReviewController.WithoutOneOfDistinct | backend/src/controllers/review.controller.js:118 | With unique ids, deleting an existing review shortens the collection by exactly one |
| ReviewController.RollbackAfterInsert | backend/src/controllers/review.controller.js:83-88 | When the upsert inserted, the rollback restores the reviews exactly |
| ReviewController.RollbackAfterUpdate | backend/src/controllers/review.controller.js:56-88 | When the upsert updated an existing review, the rollback leaves the pair with no review at all: one review fewer than before |
| ReviewController.ReviewsAfterCreateSpec | backend/src/controllers/review.controller.js:56-88 | The reviews after a submit keep the invariant and the rating aggregates stay consistent, and when the product exists the pair carries the new rating and order |
| ReviewController.RollbackSpec | backend/src/controllers/review.controller.js:83-88 | When the product is gone, deleting the review just upserted keeps the review invariants and every remaining product's aggregate consistent |
| ReviewController.SubmitReview | backend/src/controllers/review.controller.js:56-88 | After the checks pass: Ok when the product exists and NotFound otherwise; the reviews and products become the upserted (or rolled-back) reviews and the recomputed aggregate; the pair then carries the new rating and order, and aggregates stay consistent |
| ReviewController.CreateReview | backend/src/controllers/review.controller.js:7-97 | Fails with the first failing check (missing ids, rating outside 1..5, no order, another user's order, not delivered, product not in the order) changing nothing; otherwise Ok exactly when the product exists, NotFound with rollback when not; the aggregate stays the mean and count |
| ReviewController.DeleteReview | backend/src/controllers/review.controller.js:99-133 | NotFound exactly for an unknown review, Forbidden exactly when it is another user's, both changing nothing; Ok for the caller's own review, and then the review is removed, one fewer remains, and its product's aggregate is recomputed from the rest |
| AdminController.ParseStatusSpec | backend/src/controllers/admin.controller.js:132-134 | A status string is accepted exactly when it is one of the three status names |
| AdminController.WithStatusSpec | backend/src/controllers/admin.controller.js:141-149 | The status becomes the requested one with no ordering restriction; shippedAt/deliveredAt are set exactly when first entering Shipped/Delivered and never overwritten; no other field changes |
| AdminController.WithStatusIdempotent | backend/src/controllers/admin.controller.js:143-149 | Setting the same status again later changes nothing: the first timestamp survives |
| AdminController.StampsRecordFirstEntry | backend/src/controllers/admin.controller.js:141-149 | After any series of updates each timestamp is the original one or the time the order first entered that status, and the status is the last one requested |
| AdminController.UpdateOrderStatus | backend/src/controllers/admin.controller.js:127-160 | BadRequest for an unknown status before lookup, NotFound for an unknown order, both changing nothing; otherwise only that order changes, as WithStatus |
| AdminController.EditedSpec | backend/src/controllers/admin.controller.js:77-97 | A truthy name, description or category, a given price or stock, and non-empty uploads each replace the stored field, and every field not sent keeps its value; the rating aggregate is never touched; an edit with nothing given is the identity; applying an edit twice equals applying it once |
| AdminController.EditKeepsRatings | backend/src/controllers/admin.controller.js:98 | Saving an edited product keeps every product's aggregate equal to the mean and count of its reviews |
| AdminController.UpdateProduct | backend/src/controllers/admin.controller.js:67-106 | NotFound for an unknown id, BadRequest for more than 3 uploads, both saving nothing; otherwise only that product changes, as Edited |
| AdminController.PublicIdSpec | backend/src/controllers/admin.controller.js:220-222 | Every derived storage key starts with "products/", so it is never empty and the guard never filters; no '.' follows the prefix |
| AdminController.PublicIdOfUpload | backend/src/controllers/admin.controller.js:219-221 | For a URL .../products/name.ext with a plain name, the key is "products/name" |
| AdminController.StorageKeysInFolder | backend/src/controllers/admin.controller.js:216-225 | Every key destroyed with a product names a file in the "products" folder, with no extension after the folder prefix |
| AdminController.DeleteProduct | backend/src/controllers/admin.controller.js:206-234 | NotFound for an unknown id with nothing changed; otherwise the keys of all its images are destroyed, exactly that product is removed, and the remaining products' rating aggregates stay consistent |
| AdminController.RevenueAppend | backend/src/controllers/admin.controller.js:178-186 | Revenue of the orders plus one more is the old revenue plus its totalPrice |
| AdminController.RevenueBounds | backend/src/controllers/admin.controller.js:178-186 | With non-negative prices revenue is non-negative and at least any single order's price |
| AdminController.DashboardAfterPlacement | backend/src/controllers/admin.controller.js:175-204 | After placing an order the dashboard shows revenue grown by its totalPrice, one more order, and the same customer and product counts |
| AdminController.LatestOrders | backend/src/controllers/admin.controller.js:111-115 | Returns min(limit, number of orders) orders, the k-th being the k-th newest |
| AdminController.LatestAreNewest | backend/src/controllers/admin.controller.js:108-125 | At most 5 orders, strictly newest first, each newer than every order left out |
| UserController.ClearDefaults | backend/src/controllers/user.controller.js:24-26 | The loop clears every address's default flag and changes nothing else |
| UserController.WithAddressSpec | backend/src/controllers/user.controller.js:22-38 | The new address is appended at the end; when it is default every earlier default is cleared, otherwise the list is untouched; at most one default remains |
| UserController.AddAddress | backend/src/controllers/user.controller.js:3-51 | BadRequest when a required field is missing, changing nothing; otherwise only the caller's addresses change, as WithAddress with a fresh id |
| UserController.MergedSpec | backend/src/controllers/user.controller.js:95-102 | Each truthy form field replaces the stored one and every other field keeps its value; a given default flag replaces the stored flag; the id is kept, a required field never becomes empty, a form with nothing given is the identity, and merging the same form twice equals once |
| UserController.UpdatedSpec | backend/src/controllers/user.controller.js:89-102 | Only the chosen address is merged; others lose only their default flag, and only when the new flag is truthy; at most one default remains |
| UserController.UpdateAddress | backend/src/controllers/user.controller.js:67-115 | NotFound for an unknown address id with nothing changed; otherwise only the caller's addresses change, as Updated |
| UserController.WithoutAddressSpec | backend/src/controllers/user.controller.js:122 | Deletion keeps exactly the addresses with other ids, is the identity for an absent id, and keeps at most one default |
| UserController.DeleteAddress | backend/src/controllers/user.controller.js:117-133 | Always Ok; only the caller's addresses change, losing the given id |
| UserController.ReplaceUser | backend/src/controllers/user.controller.js:40 | Saving a user whose ids are unchanged, with at most one default address and no duplicate wishlist entry, keeps the users valid |
| UserController.WishlistAddSpec | backend/src/controllers/user.controller.js:141-147 | Appending an absent product keeps the wishlist duplicate-free, and removing it again gives back the original |
| UserController.AddToWishlist | backend/src/controllers/user.controller.js:135-158 | BadRequest for a product already present, changing nothing; otherwise it is appended to the caller's wishlist and nothing else changes |
| UserController.WishlistRemoveSpec | backend/src/controllers/user.controller.js:173 | Removal keeps exactly the other products and the wishlist stays duplicate-free |
| UserController.RemoveFromWishlist | backend/src/controllers/user.controller.js:160-184 | BadRequest for a product not present, changing nothing; otherwise it is removed from the caller's wishlist and nothing else changes |
| Text.TrimSpec | backend/src/config/inngest.js:31 | A trimmed string neither starts nor ends with whitespace, and is empty exactly when the original is all whitespace |
| Text.TrimIdempotent | backend/src/config/inngest.js:72 | Trimming twice is trimming once |
| Text.Before | backend/src/controllers/admin.controller.js:221 | The result is the prefix of the string up to the first occurrence of the separator, which does not occur earlier; the whole string when it has none |
| IdentitySync.DisplayNameSpec | backend/src/config/inngest.js:31 | The name has no surrounding whitespace, is empty exactly when both parts are absent or blank, and is "first last" when both parts have no outer whitespace |
| IdentitySync.NewUserSpec | backend/src/config/inngest.js:30-40 | A new user has the given id and the event's clerk id; the event's first email and its image when non-empty, null otherwise; the derived name when non-empty, "User" otherwise, so never empty; addresses and wishlist start empty |
| IdentitySync.InsertIfAbsentSpec | backend/src/config/inngest.js:43-47 | Inserting keeps clerk ids and user ids unique, leaves the store unchanged when the clerk id exists and otherwise appends the new user, who is then found |
| IdentitySync.InsertIfAbsentIdempotent | backend/src/config/inngest.js:43-47 | Replaying a creation event for the same clerk id changes nothing |
| IdentitySync.SyncUser | backend/src/config/inngest.js:12-49 | The users become InsertIfAbsent of the new user and the store stays valid |
| IdentitySync.PatchSpec | backend/src/config/inngest.js:67-78 | The update sets the email exactly when the event's first email is non-empty, to that email; the name exactly when the derived name is non-empty, to that name; the image exactly when the event has an image field, to null when it is empty; it touches no other field; an empty update is a no-op; applying it twice equals once |
| IdentitySync.PatchedSpec | backend/src/config/inngest.js:80 | Under $set each of email, name and image takes the update's value when present and keeps the user's value otherwise; ids, addresses and wishlist are kept |
| IdentitySync.ApplyPatchSpec | backend/src/config/inngest.js:80 | The $set keeps users valid and the count unchanged, turns the first user with the clerk id into its patched self, does nothing when no user has the clerk id (no upsert), and leaves other users untouched |
| IdentitySync.UpdateUserInDb | backend/src/config/inngest.js:50-82 | Throws exactly when the event has no email list, changing nothing; otherwise the users become ApplyPatch of the event's patch |
| IdentitySync.RemoveUserSpec | backend/src/config/inngest.js:93-94 | Deleting keeps users valid, leaves no user with that clerk id, and keeps every other user in order |
| IdentitySync.DeleteUserFromDb | backend/src/config/inngest.js:84-96 | The users become RemoveUser of the clerk id and the store stays valid |

## Left out

- `createProduct` is not modelled: its handler reads `req` through a parameter named `_` and calls `Product.crete`, so every call ends in the internal-error branch.
- `getAllProducts`, `getAllCustomers`, `getAddresses` and `getWishlist` only read and return a collection; they are not modelled.
- Cloudinary upload and destroy are external calls. Uploaded images are an opaque sequence of URLs, and `DeleteProduct` returns the keys it would destroy.
- `parseFloat`/`parseInt` of price and stock are not modelled: they arrive as integers (prices in cents), so NaN never appears.
- `Number(quantity)` in `updateCartItem` is a `real`: infinities and NaN are not modelled, and both fail the integer test in the source as well.
- ReviewController.CreateReview: the rating is an integer. The source checks only that it is truthy and within 1..5, so a fractional rating such as 4.5, or the string "4", passes there; such ratings and the means they give are not modelled. The same holds for ReviewController.Eligibility.
- CartController.AddToCart: the requested quantity is an integer. The source compares it with the stock and stores it as given, so a fractional quantity such as 2.5 is accepted there and is not modelled.
- Mongo's `$avg` in `createReview` and the division `totalRating / reviews.length` in `deleteReview` both give a floating-point mean; the model keeps the exact rational mean in both.
- `populate` joins and `createdAt` sorting are not modelled: creation order is sequence order.
- `new Date()` becomes a `now` parameter.
- Handlers run one at a time and atomically: interleavings between the `await`s are not modelled.
- Console logging, Sentry and response bodies are not modelled; only the status is.
- The authentication middleware is not modelled. The caller is passed in, and the user-profile handlers require that the caller's user exists.
- Mongoose casting and validators are not modelled. Ids are plain numbers, so a string id that is not an ObjectId and the route-parameter name mismatch for product ids do not arise.
- A null `image_url` in an identity event is carried as the empty string, which every handler treats the same way.
- Inngest's retry of a handler that throws is not modelled; `UpdateUserInDb` only reports that it threw.
- Carts, wishlist entries and reviews that still name a deleted product or user are left as they are, as in the source; nothing is proved about them.
- Address ids are drawn from the store's counter, but no invariant states that they stay below it or are distinct within an address book; `updateAddress` acts on the first address with the id, as `user.addresses.id()` finds it, while `deleteAddress` removes every address with the id, as `pull` does.
