# ReWear core, modelled in Dafny

ReWear is a clothing-exchange site. Users list garments, earn points and swap
items. This project models two parts of it and proves properties of each.

**The Express backend** (`backend/controllers`, `backend/middleware`) is
modelled as a state machine over its four tables:

- `user_profiles`, `listings`, `points_history` and `swap_history` become the
  fields of a `Store.Database` object.
- Each table is a sequence kept in insertion order.
- `created_at` is a clock that advances by one on every insert. "Newest first"
  is then the reverse of insertion order.
- Every handler is a method, or a function for a pure read, over that store.

A single invariant, `Store.Invariant`, is kept by every write. It holds that:

- user ids and emails are unique;
- listing ids are unique;
- every role and status is on its whitelist;
- every table is chronological;
- every user's `points` equals the sum of their `points_history` rows.

**The React client** is modelled as follows:

- `authService` becomes a `Session` class over localStorage.
- The helpers in `profileService` and `listingService` become functions, plus a
  builder method where the source appends step by step.
- The Browse page filter and the `ProtectedRoute` decision become functions.

Oracles stand in for the foreign calls:

- bcrypt becomes a precomputed hash and a comparison function.
- `jwt.sign` and `jwt.verify` become a signing function and a verifying function.
- `uuid` becomes ids passed in by the caller. A new user id must be unused by any user or history row, and a new listing id by any listing. History row ids are not required to be distinct, since nothing reads them.
- `Math.random` becomes eight draws in [0, 1).
- Each client HTTP call becomes its `ApiResult`: the response data, or the
  thrown error. `Store.Delivered` gives the `ApiResult` the client receives for
  a reply of the server model. The client's fallback helpers are specified by
  lemmas that run them on the server model's replies (`ClientProfileRead`,
  `ClientListingsMatchFilters`, ...).

Files:

| file | module | models |
|---|---|---|
| common.dfy | `Common` | options, API results, order-preserving selection, reversal, first match, `indexOf`/`includes`/`replace`/`toLowerCase` |
| store.dfy | `Store` | the four tables, the store invariant, the lemmas that each kind of write keeps it |
| profile_controller.dfy | `ProfileController` | profile reads and update, swap and points history, the points transaction |
| listing_controller.dfy | `ListingController` | listing create, filtered reads, owner-checked update and delete |
| admin_controller.dfy | `AdminController` | whitelisted role and status updates, the ban toggle, admin tables, dashboard counts |
| referral_codes.dfy | `ReferralCodes` | the eight-character referral code generator shared by server and client |
| auth_middleware.dfy | `AuthMiddleware` | bearer token extraction, authentication, admin gate |
| auth_controller.dfy | `AuthController` | registration, login, logout, token refresh |
| auth_service.dfy | `AuthService` | the client's localStorage session |
| profile_service.dfy | `ProfileService` | initial profile defaults, `addPoints` result, read fallbacks |
| listing_service.dfy | `ListingService` | status badges, the filter query string, the listing form, read fallbacks |
| browse.dfy | `Browse` | the Browse page's search and category filter and its counters |
| protected_route.dfy | `ProtectedRoute` | the route guard's redirect and render decision |

## Model

| member | source | states |
|---|---|---|
| Store.AwardKeepsInvariant | backend/controllers/profileController.js:133-146 | Crediting a user p points and appending a history row of p for them keeps the store invariant, including "points equals the sum of history rows" |
| Store.UserInsertKeepsInvariant | backend/controllers/authController.js:33-41 | Inserting a user with a fresh id and email, role `user`, 0 points and no history rows keeps the store invariant |
| Store.ListingAndAwardKeepInvariant | backend/controllers/listingController.js:18-36 | Inserting a listing with a fresh id, then crediting an award with its history row, keeps the store invariant |
| Store.ListingInsertKeepsInvariant | backend/controllers/listingController.js:18-22 | Appending a listing with a fresh id and a whitelisted status keeps the invariant |
| Store.ListingDeleteKeepsInvariant | backend/controllers/listingController.js:177 | Removing any set of listings keeps the invariant |
| Store.UserEditKeepsInvariant | backend/controllers/adminController.js:33-36 | A write that changes no user's id, email, points or creation time, and keeps every role whitelisted, keeps the invariant |
| Store.ListingEditKeepsInvariant | backend/controllers/listingController.js:145-150 | A write that keeps listing ids, creation times and whitelisted statuses keeps the invariant |
| Store.SwapEditKeepsInvariant | backend/controllers/adminController.js:152-155 | A write that keeps swap creation times and whitelisted statuses keeps the invariant |
| Store.LedgerAppend | backend/controllers/profileController.js:133-146 | A new history row changes a user's ledger sum by its points exactly when it is theirs |
| Store.Ledger | backend/controllers/profileController.js:133-146 | The sum of the points of a user's `points_history` rows; 0 for a user with no rows (authController.js:37-40 inserts new users with 0 points) |
| Store.Invariant | backend/controllers/profileController.js:128-148 | What every handler keeps: unique user ids and emails, unique listing ids, whitelisted roles and statuses, chronological tables, and each balance equal to its ledger |
| Store.Credit | backend/controllers/profileController.js:142-146 | `points = points + p` changes the points of the row with that id and leaves every other row unchanged |
| Store.Received | src/services/profileService.ts:109-114 | The HTTP client yields a response for a 2xx reply and throws otherwise |
| Store.Delivered | src/services/listingService.ts:47-50 | The HTTP client yields the body of a 2xx reply, and throws the reply's error otherwise |
| Store.SelectChronological | backend/controllers/profileController.js:89-90 | A filtered table is still in insertion order |
| ProfileController.GetUserProfile | backend/controllers/profileController.js:5-24 | 200 with the row's public columns exactly when the id exists, otherwise 404 `User not found` |
| ProfileController.ProfileOfRow | backend/controllers/profileController.js:10-19 | With unique ids, the profile returned is that of the row with that id |
| Store.Database.Commit | backend/controllers/profileController.js:148 | Publishing tables that satisfy the invariant leaves the database valid and holding exactly those tables |
| ProfileController.CreditedProfile | backend/controllers/profileController.js:142-155 | After a user's row is credited, reading the balance back gives their old ledger sum plus the credit |
| ProfileController.UpdateUserProfile | backend/controllers/profileController.js:27-65 | Unknown id gives 404 and no change. Otherwise only name, phone and bio of that row are overwritten, points, role and email are untouched, and the reply carries the updated profile |
| ProfileController.GetSwapHistory | backend/controllers/profileController.js:68-99 | Exactly the swaps in which the user is sender or receiver |
| ProfileController.SwapHistoryNewestFirst | backend/controllers/profileController.js:90 | Swap history comes newest first |
| ProfileController.GetPointsHistory | backend/controllers/profileController.js:102-119 | Exactly that user's history rows |
| ProfileController.PointsHistoryNewestFirst | backend/controllers/profileController.js:110 | Points history comes newest first |
| ProfileController.AddPoints | backend/controllers/profileController.js:122-173 | All or nothing. On success one row (user, points, action, description) is appended, that user is credited exactly `points`, and `newTotal` is the balance read back (old ledger + points) with `pointsAdded` = points. If either write fails, or the id names no user, the reply is 500 and no table changes. No bound is placed on the amount |
| ProfileController.TotalAppend | backend/controllers/profileController.js:133-146 | The sum of history rows distributes over concatenation |
| ProfileController.TotalReverse | backend/controllers/profileController.js:110 | Reordering newest first does not change the sum |
| ProfileController.LedgerIsTotalOfOwnRows | backend/controllers/profileController.js:106-111 | A user's ledger is the sum of the rows `getPointsHistory` returns for them |
| ProfileController.BalanceMatchesHistory | backend/controllers/profileController.js:102-119 | Under the store invariant, the `points` in a user's profile equals the sum of the points history returned for them |
| ProfileController.SetProfile | backend/controllers/profileController.js:43-48 | Only the target row's name, phone and bio change |
| ListingController.DefaultPoints | backend/controllers/listingController.js:12 | `points \|\| 10`: the stored points are never 0, and a non-zero amount is kept |
| ListingController.ImageUrl | backend/controllers/listingController.js:16 | A URL exactly when a file is attached: `/uploads/listings/` followed by the file name |
| ListingController.NewListing | backend/controllers/listingController.js:18-22 | The inserted row: the fresh id, owned by the caller, `pending`, the points defaulted to non-zero, an image URL exactly when a file came, stamped with the clock |
| ListingController.CreationAward | backend/controllers/listingController.js:31-36 | The history row of the award: the caller, 5 points, `listing_created`, stamped with the clock |
| ListingController.CreateListing | backend/controllers/listingController.js:5-55 | One `pending` listing owned by the caller is appended. The caller is credited exactly 5 points, with a `listing_created` row of 5 described as "Created new listing: " + title. The reply is 201 with the default-filled points. If the caller has no row, the reply is 500 and nothing changes |
| ListingController.BuildFilters | backend/controllers/listingController.js:66-85 | The WHERE clauses built by successive appends: at most three, and a listing passes them all exactly when it matches every supplied filter |
| ListingController.FiltersMeaning | backend/controllers/listingController.js:72-85 | The conjunction of the built clauses is the query's meaning |
| ListingController.GetAllListings | backend/controllers/listingController.js:58-96 | Exactly the listings matching every supplied filter |
| ListingController.AllListingsNewestFirst | backend/controllers/listingController.js:87 | The result is newest first |
| ListingController.NoFiltersReturnsAll | backend/controllers/listingController.js:72-89 | With no filters, every listing, newest first |
| ListingController.GetListingById | backend/controllers/listingController.js:99-125 | 200 with the listing exactly when the id exists, otherwise 404 |
| ListingController.GetUserListings | backend/controllers/listingController.js:188-210 | Exactly the listings of that owner |
| ListingController.UserListingsAreFilteredListings | backend/controllers/listingController.js:188-210 | `getUserListings` returns what `getAllListings` does with only the owner filter |
| ListingController.Revise | backend/controllers/listingController.js:145-150 | Only title, description, category, condition and points of the named listing change; owner and status are kept |
| ListingController.UpdateListing | backend/controllers/listingController.js:128-158 | Not found, or not the caller's, gives 404 and no change. Otherwise the listing is revised and nothing else changes |
| ListingController.DeleteListing | backend/controllers/listingController.js:161-185 | Not found, or not the caller's, gives 404 and no change. Otherwise exactly the listings with that id are removed |
| ListingController.DeleteRemovesExactlyOne | backend/controllers/listingController.js:177 | With unique ids, delete removes exactly the one listing at its position, and all others remain in order |
| ListingController.RemoveOnlyMatch | backend/controllers/listingController.js:177 | When only one listing carries the id, the delete leaves the listings before it and after it, in order |
| AdminController.SetRole | backend/controllers/adminController.js:33-36 | Only the target user's role changes; an unknown id changes nothing |
| AdminController.UpdateUserRole | backend/controllers/adminController.js:24-43 | A role other than `user`/`admin` gives 400 and no change. Otherwise the reply is 200 and only the target's role is set, even when the id is unknown |
| AdminController.SetBanned | backend/controllers/adminController.js:53-58 | Only the target user's ban flag changes; an unknown id changes nothing |
| AdminController.ToggleUserStatus | backend/controllers/adminController.js:46-67 | `is_banned` becomes true exactly when the status is `banned`, otherwise false. The reply is always 200 |
| AdminController.SetListingStatus | backend/controllers/adminController.js:102-105 | Only the target listing's status changes, from any status; an unknown id changes nothing |
| AdminController.UpdateListingStatus | backend/controllers/adminController.js:91-112 | A status off the four-entry whitelist gives 400 and no change. Otherwise 200 and only that status is set |
| AdminController.SetSwapStatus | backend/controllers/adminController.js:152-155 | Only the target swap's status changes, from any status; an unknown id changes nothing |
| AdminController.UpdateSwapStatus | backend/controllers/adminController.js:141-162 | A status off the three-entry whitelist gives 400 and no change. Otherwise 200 and only that status is set; users and points history are untouched |
| AdminController.GetAllUsers | backend/controllers/adminController.js:5-21 | One row per user, newest first, each the `AdminRow` of that user |
| AdminController.AdminRow | backend/controllers/adminController.js:8-12 | A user's profile columns, with `total_listings` the number of listings they own and `total_swaps` the number of swaps they sent or received |
| AdminController.AllUsersNewestFirst | backend/controllers/adminController.js:13 | Users come strictly newest first |
| AdminController.ListingCount | backend/controllers/adminController.js:10 | Exactly the number of listings whose `user_id` is the user |
| AdminController.SwapCount | backend/controllers/adminController.js:11 | Exactly the number of swaps the user sent or received |
| AdminController.AdminListings | backend/controllers/adminController.js:70-88 | Every listing, and only listings |
| AdminController.AdminSwaps | backend/controllers/adminController.js:115-138 | Every swap, and only swaps |
| AdminController.AdminTablesNewestFirst | backend/controllers/adminController.js:70-138 | The admin tables come newest first |
| AdminController.DashboardStats | backend/controllers/adminController.js:165-202 | The three totals are the table sizes, and `pendingListings` is exactly the number of listings whose status is `pending` |
| AdminController.PendingCountExtremes | backend/controllers/adminController.js:177-179 | The dashboard's pending count equals its listing total exactly when every listing is pending, and is 0 exactly when none is |
| Common.CountWhere | backend/controllers/adminController.js:177-179 | `COUNT(*) ... WHERE`: one per matching row, so never more than the rows |
| Common.CountWhereCountsIndices | backend/controllers/adminController.js:177-179 | The count is the number of row positions whose row matches |
| Common.SelectCount | backend/controllers/adminController.js:10-11 | Selecting the matching rows and taking the length gives the count |
| ReferralCodes.CodeFromDraws | backend/controllers/authController.js:7-14 | Eight characters, each from A–Z0–9 |
| ReferralCodes.GenerateReferralCode | backend/controllers/authController.js:7-14 | The loop appends one picked character per draw, giving the eight-character code over the alphabet (the client's copy in `profileService.ts:122-129` is the same loop) |
| ReferralCodes.Position | backend/controllers/authController.js:11 | `Math.floor(d * 36)` is always a position of the alphabet |
| ReferralCodes.EveryCodeReachable | backend/controllers/authController.js:7-14 | Every eight-character code over the alphabet is produced by some draws |
| AuthMiddleware.ExtractToken | backend/middleware/authMiddleware.js:6 | A token exactly when a header is sent; a header without "Bearer " is the token unchanged |
| Common.ReplaceFirst | backend/middleware/authMiddleware.js:6 | `String.replace` with a string pattern replaces only the first occurrence, wherever it is |
| AuthMiddleware.BearerHeaderYieldsToken | backend/middleware/authMiddleware.js:6 | "Bearer " + t yields exactly t, even when t contains "Bearer " |
| AuthMiddleware.Authenticate | backend/middleware/authMiddleware.js:4-29 | The request passes exactly when the token is non-empty, verifies, and names a stored id; `req.user` is then that row's (id, email, name, role, points). Otherwise 401 with the message of the failing step |
| AuthMiddleware.AdminGate | backend/middleware/authMiddleware.js:31-36 | Passes exactly the admins, unchanged; otherwise 403 |
| AuthMiddleware.BanIsIgnored | backend/middleware/authMiddleware.js:15-25 | Ban flags never change authentication, so a banned user still gets in |
| AuthMiddleware.FirstAgrees | backend/middleware/authMiddleware.js:15-24 | Tables differing only in ban flags find the same row, with the same request user |
| AuthMiddleware.TokenRoleIsIgnored | backend/middleware/authMiddleware.js:12-24 | Only the token's id is read; the role it carries never matters |
| AuthController.RegisterUser | backend/controllers/authController.js:17-66 | A taken email gives 400 and no insert. Otherwise one user is appended: fresh id, role `user`, 0 points, missing phone/bio as null, and a generated code. Emails stay unique, and the token signs (id, `user`) |
| AuthController.Newcomer | backend/controllers/authController.js:36-41 | The inserted row: the new id and email, role `user`, 0 points, not banned, no avatar, and phone and bio stored exactly when non-empty, stamped with the clock |
| Common.NullIfEmpty | backend/controllers/authController.js:41 | `field \|\| null`: kept exactly when non-empty |
| AuthController.LoginUser | backend/controllers/authController.js:69-111 | Success only for a row with that email whose hash matches, replying with the row minus its password and a token for its (id, role). Every failure is the identical 401, and an unknown email always fails |
| AuthController.LoginSucceedsIffPasswordMatches | backend/controllers/authController.js:73-89 | With unique emails, login succeeds exactly when the password matches that email's stored hash |
| AuthController.LogoutUser | backend/controllers/authController.js:114-123 | Always 200; it takes no state, so none changes |
| AuthController.RefreshToken | backend/controllers/authController.js:140-159 | Always 200 with a token signed for the caller's id and stored role |
| AuthController.LoginThenAuthenticate | backend/controllers/authController.js:92-96 | A token from a successful login, sent as a bearer header, authenticates as the same user with the same role and points |
| AuthController.RefreshCarriesStoredRole | backend/controllers/authController.js:145-149 | A refreshed token verifies to the caller's id and the role currently stored for them |
| AuthService.Session.constructor | src/services/authService.ts:106 | The session starts over the given storage |
| AuthService.Session.GetCurrentUser | src/services/authService.ts:66-69 | The stored user record, or null when none is stored |
| AuthService.Session.IsAdmin | src/services/authService.ts:77-80 | True exactly when a stored user has role `admin` |
| AuthService.Session.IsAuthenticated | src/services/authService.ts:72-74 | True exactly when a non-empty string is stored under `authToken`: a non-empty token text, or a user record's JSON text; `StoreSession` and `Logout` state how it changes |
| AuthService.Session.StoreSession | src/services/authService.ts:34-35 | Both keys are written; the stored user is then current, authenticated iff the token is non-empty, admin iff its role is |
| AuthService.Session.Login | src/services/authService.ts:29-38 | On success both keys are written and the body returned; on failure storage is unchanged |
| AuthService.Session.Register | src/services/authService.ts:41-50 | Same storage effect as login |
| AuthService.Session.Logout | src/services/authService.ts:53-63 | Both keys are removed whether or not the server call threw, and no other key is touched |
| AuthService.Session.RefreshToken | src/services/authService.ts:83-93 | On success only `authToken` is replaced and the token returned; on failure null and storage unchanged |
| ProfileService.BeforeFirst | src/services/profileService.ts:136 | `split('@')[0]`: a prefix with no '@', followed by '@' when shorter |
| ProfileService.OrEmpty | src/services/profileService.ts:135-139 | `v \|\| ''` |
| ProfileService.InitialProfile | src/services/profileService.ts:132-146 | The id is copied, points are 0, the role is `user`, and the referral code is eight characters over the alphabet |
| ProfileService.InitialNameFallbacks | src/services/profileService.ts:136 | The name is never empty. It is the given name if non-empty, else the email before its first '@' if that is non-empty, else "User" |
| ProfileService.InitialContactDefaults | src/services/profileService.ts:135-139 | Email, phone, bio and avatar are copied when given, and are '' when absent or empty, whether the metadata object or only that field is missing |
| ProfileService.CreateInitialProfile | src/services/profileService.ts:132-146 | Sends the initial profile, with the code from the generator loop; the upsert's failure gives null |
| ProfileService.AddPoints | src/services/profileService.ts:107-119 | True exactly when the request succeeded with status 200; any error gives false |
| ProfileService.AddPointsReportsServerOutcome | src/services/profileService.ts:107-119 | Against the server's `addPoints` replies, the client reports true exactly for the server's successes |
| ProfileService.ClientProfileRead | src/services/profileService.ts:52-60 | Against the server's `getUserProfile`, the client gets the profile of the row with that id exactly when one exists, and null otherwise |
| ProfileService.ClientPointsHistoryRead | src/services/profileService.ts:96-104 | Against the server's `getPointsHistory`, the client gets exactly the user's rows, newest first, and [] when the server answers an error |
| ProfileService.ClientSwapHistoryRead | src/services/profileService.ts:85-93 | Against the server's `getSwapHistory`, the client gets exactly the swaps the user sent or received, newest first, and [] when the server answers an error |
| ListingService.StatusText | src/services/listingService.ts:168-181 | `approved`, `pending`, `rejected` and `spam` get the labels `Approved`, `Pending`, `Rejected` and `Spam`; every other status gets `Unknown` |
| ListingService.StatusTextDistinguishesStatuses | src/services/listingService.ts:168-181 | Distinct whitelisted statuses get distinct labels |
| ListingService.StatusColor | src/services/listingService.ts:152-165 | Green/yellow/red for approved/pending/rejected; gray exactly for every other status, `spam` included |
| ListingService.BuildQueryParams | src/services/listingService.ts:44-47 | Only the supplied filters are appended, in the order category, status, userId, and the server parses back exactly the supplied filters |
| ListingService.OptionalParam | src/services/listingService.ts:45-47 | One guarded append: a single pair with the filter's value exactly when the filter is present and non-empty, otherwise nothing |
| ListingService.Supplied | src/services/listingService.ts:45-47 | Dropping the empty filters does not change which listings match |
| ListingService.ParamOnlyIn | src/services/listingService.ts:44-49 | A name that only one optional append can produce is read back with that append's value, or as absent when the append did not happen |
| ListingService.Param | src/services/listingService.ts:44-49 | The value of the first pair under a name: present exactly when some pair has that name, and no earlier pair has it |
| ListingService.QueryRoundTrip | src/services/listingService.ts:44-49 | The server reads back exactly the filters the client supplied: each present, non-empty one with its value, and nothing for the others |
| ListingService.BuildFormFields | src/services/listingService.ts:69-94 | The FormData built by the appends is the four required fields, then each optional field only when truthy |
| ListingService.Field | src/services/listingService.ts:72-82 | The value of the first entry of a name: present exactly when the form has that name, and no earlier entry has it |
| ListingService.FieldOnlyIn | src/services/listingService.ts:72-82 | A field that can only come from one optional append is present exactly when that append happened, with its value |
| ListingService.RequiredFieldsSent | src/services/listingService.ts:72-75 | Title, description, category and condition are always sent, first and in order |
| ListingService.PointsSentIffNonZero | src/services/listingService.ts:80 | `points` is sent exactly when present and non-zero, so 0 is omitted |
| ListingService.ImageSentIffAttached | src/services/listingService.ts:81 | The image is sent exactly when attached |
| ListingService.LocationSentIffNotEmpty | src/services/listingService.ts:79 | The location is sent exactly when non-empty |
| ListingService.CreatedListingPoints | src/services/listingService.ts:80 | The points the server stores for a form are those the user asked for, or 10 when left out or 0 |
| ListingService.ClientListingsMatchFilters | src/services/listingService.ts:42-55 | Against the server's `getAllListings`, the client gets exactly the listings matching the filters it was given, newest first, and [] when the server answers an error |
| ListingService.ClientUserListingsRead | src/services/listingService.ts:119-128 | Against the server's `getUserListings`, the client gets exactly that owner's listings |
| ListingService.ClientListingById | src/services/listingService.ts:58-66 | Against the server's `getListingById`, the client gets a listing with that id exactly when one exists, and null otherwise |
| ListingService.ClientWriteOutcome | src/services/listingService.ts:97-116 | Against replies that are 200 on success and an error status otherwise, as the server's update and delete answer, `updateListing` and `deleteListing` return true exactly for the server's successes |
| ListingService.ClientCreateOutcome | src/services/listingService.ts:69-94 | Against the server's 201 or error reply, `createListing` returns the created listing on success and rethrows the server's error otherwise |
| Browse.ShownIffMatches | src/pages/Browse.tsx:83-88 | An item is shown exactly when the lower-cased term occurs in its lower-cased title or description, and the category is `all` or exactly equal |
| Browse.FilteredItems | src/pages/Browse.tsx:83-88 | `filteredItems`: the catalogue items passing both the search and the category test, and only those |
| Browse.ShownCount | src/pages/Browse.tsx:198-199 | "Showing N items": the number of catalogue items that pass the filter |
| Browse.AvailableCount | src/pages/Browse.tsx:201-202 | "N available for swap": the number of shown items that are available |
| Browse.EmptySearchShowsAll | src/pages/Browse.tsx:84-86 | An empty term with `all` shows every item, in order |
| Browse.EmptyTermMatches | src/pages/Browse.tsx:84-85 | The empty term matches every item |
| Browse.CategoryIsExact | src/pages/Browse.tsx:86 | Any other category shows only items of exactly that category, case-sensitively |
| Browse.ShownInCatalogueOrder | src/pages/Browse.tsx:83 | The shown items are a subsequence of the catalogue |
| Browse.AvailableNeverExceedsShown | src/pages/Browse.tsx:198-203 | "available for swap" never exceeds "Showing", and equals it exactly when every shown item is available |
| Common.Lower | src/pages/Browse.tsx:84-85 | `toLowerCase` on ASCII: same length, each letter lowered, no capitals left |
| Common.Contains | src/pages/Browse.tsx:84-85 | `includes` holds exactly when the pattern occurs somewhere |
| ProtectedRoute.Decide | src/components/common/ProtectedRoute.tsx:21-51 | The effect navigates exactly when the render draws nothing, and the spinner shows exactly while loading |
| ProtectedRoute.WhileLoading | src/components/common/ProtectedRoute.tsx:22-39 | While loading: spinner, no navigation |
| ProtectedRoute.GuestSentToLogin | src/components/common/ProtectedRoute.tsx:24-26 | `requireAuth` with no user: to `/login`, nothing drawn |
| ProtectedRoute.SignedInSentAway | src/components/common/ProtectedRoute.tsx:27-29 | `requireGuest` with a user: to `redirectTo`, or `/` when unset or empty; nothing drawn |
| ProtectedRoute.RedirectTargets | src/components/common/ProtectedRoute.tsx:24-30 | At most one navigation: a guest only to `/login` under `requireAuth`, a user only to the guest target under `requireGuest` |
| ProtectedRoute.ChildrenIffNoGuardApplies | src/components/common/ProtectedRoute.tsx:41-51 | Children are drawn exactly when loaded and neither guard applies, and then with no navigation |
| ProtectedRoute.DefaultsAlwaysRender | src/components/common/ProtectedRoute.tsx:14-15 | With both flags left out, children are always drawn once loaded |

## Left out

- SQL text, the connection pool, the Express wiring and routes, multer, CORS: plumbing. No route is modelled, because the wiring as written does not connect client and server. `server.js:59-61` never mounts `listingRoutes`. The client's profile paths `/profile/${userId}`, `/profile/${userId}/swaps` and `/profile/${userId}/points` (`profileService.ts:54`, `:87`, `:98`, `:109`) do not match the server's `/user/:id` routes (`profileRoutes.js:43-51`). The `Client*` lemmas of `ProfileService` and `ListingService` assume the intended wiring: each client call reaches the handler of the same name.
- The joined display columns (`seller_name`, `sender_name`, `item_title`, ...) and `updated_at`: they do not affect the state or the properties.
- Real timestamps: `created_at` is a clock that ticks once per insert. The admin dashboard's two `NOW()`-based counts (`adminController.js:182-188`) need a wall clock and are not modelled.
- Database errors other than the modelled ones: `addPoints` takes a fault parameter for its two writes, and `createListing` fails only when the caller has no row. Any other thrown error is not modelled. The controllers' `catch` answers such an error with 500; the authentication middleware's `catch` (`authMiddleware.js:26-28`) answers it, like a failed `jwt.verify`, with 401 `Invalid token.`.
- `ListingController.CreateListing`: its three writes are not a transaction. Under concurrency they can interleave or half-apply; the model runs them in sequence.
- `ListingController.CreateListing`: no schema is part of the source. The model assumes that `listings.user_id` references `user_profiles.id`, so the failure modelled is the listing insert refused for a caller with no row. Failures of the later writes are not modelled. One of them is not rare: `listingController.js:34` pastes the title into the SQL text, so any title containing a quote, such as `Levi's jacket`, makes the history insert fail. That happens after the listing insert and the +5 credit, and leaves the balance 5 above its ledger. The model treats the description as the string the SQL text intends.
- `ProfileController.AddPoints`: no schema is part of the source. The model assumes that `points_history.user_id` references `user_profiles.id`, so for an unknown id the first insert fails and the transaction rolls back with no change. Without that reference, the source inserts and commits the orphan row. The update then matches nothing, and reading `updatedUsers[0].points` (`profileController.js:158`) throws: the reply is 500 and the orphan history row stays.
- `ListingController.CreationAward`: its contract does not state the description text (`Created new listing: ` followed by the title, `listingController.js:34`), though the row carries it. Stating the concatenation made every handler that uses the row too costly to verify.
- `getCategories` and `getConditions` (`listingController.js:213-253`): constant lists.
- `uploadAvatar`, on both server and client, `verifyToken` on both sides, and the client's `upsertUserProfile`, `updateUserProfile`, `updateListing` and `deleteListing` calls: these are single HTTP calls with a pass-through or boolean result, and only their result mapping is modelled (`Store.Delivered`). `ListingService.ClientWriteOutcome` states what `updateListing` and `deleteListing` report for the server's replies.
- bcrypt, JWT, uuid and `Math.random`: oracles. The token's expiry is part of the verifying oracle.
- Request bodies are modelled with their fields present. Fields left undefined, and their JSON and URL encoding, are not modelled; the query string and the form are lists of (name, value) pairs.
- String comparisons in SQL are exact equality: the email lookups, the `category`, `status` and `user_id` filters of `getAllListings` (`listingController.js:72-85`), and `status = "pending"` in the dashboard count. The database's collation may fold case or trailing spaces in any of them.
- `toLowerCase` is ASCII only.
- Authorization of the profile routes: `profileRoutes.js:40-51` only authenticates. `addPoints` and `updateUserProfile` never read the caller, so any signed-in user can credit or debit any id and edit any profile. The model's `ProfileController.AddPoints` and `ProfileController.UpdateUserProfile` take no caller either and have the same behaviour; no route is modelled.
- `AuthController.LogoutUser` states only that it always answers 200. It has no state to change.
- `AuthService.Session`: localStorage holds strings. The user record is kept as a value rather than its JSON text, so an unparsable record is not modelled.
- The React markup, toasts and navigation mechanics: the guard's navigation is modelled as the path it navigates to.
