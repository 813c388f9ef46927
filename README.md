# In-memory user and product services, modelled in Dafny

This project models the service layer of a small demo server that offers the
same user and product operations over gRPC and REST. Both transports call
into two in-memory stores:

- **UserService** keeps users in a map keyed by identifier. Identifiers come
  from a counter rendered in decimal. Usernames and emails are kept unique.
  It supports create, get, partial update, delete, and list. Listing filters
  case-insensitively, sorts by a chosen field and returns one page.
- **ProductService** works the same way for products. Its search combines a
  free-text query, a category, and inclusive minimum and maximum prices. The
  results are sorted by name and returned one page at a time.
- **paginate** is the helper both services use to normalise a page request
  and cut a slice.
- **AppError** is the structured error the services return. It has a text
  form and two fixed tables, one mapping error codes to HTTP statuses and one
  mapping them to gRPC status codes.

Modules:

| file | module | contents |
|---|---|---|
| `wrappers.dfy` | `Wrappers` | `Option`, `Result` |
| `text.dfy` | `Text` | ASCII lowercasing, `EqualFold`, `Contains`, Go's byte-wise string `<` and its order properties |
| `decimal.dfy` | `Decimal` | decimal rendering of the id counter, its inverse, freshness of issued ids |
| `errors.dfy` | `AppErrors` | `AppError`, `Error()`, the HTTP and gRPC tables, the constructors, `IsAppError`, `AsAppError` |
| `utils.dfy` | `Pagination` | `paginate` and lemmas about how pages tile the input |
| `sorting.dfy` | `Sorting` | the contract of `sort.Slice`: a permutation ordered by a strict weak order |
| `snapshot.dfy` | `Snapshot` | the set of map values a filter selects, used to specify filtering loops |
| `model.dfy` | `Records` | `User`, `Product` and the request records |
| `user_service.dfy` | `UserStore` | the `UserService` class and the lemmas about updates |
| `product_service.dfy` | `ProductStore` | the `ProductService` class and the search criteria |

Each service is a class whose `users` or `products` map and `nextID` counter
are fields that its methods update in place. A ghost set `Issued` records
every identifier ever handed out. The `Valid()` invariant of each class says
the following:

- the counter is at least 1;
- every issued identifier is the decimal rendering (`Decimal.DecimalString`) of a value below the counter;
- every stored record sits under its own identifier and that identifier was issued;
- in the user store, no two users share a username or an email;
- in the product store, no price or quantity is negative.

Iterating over a Go map visits the keys in no fixed order. The model's loops
pick the next key with `:|` from the keys not yet visited, so every proof
holds for every visiting order. A filter's result is therefore specified as
a multiset. Go's `sort.Slice` is specified by its contract: the output is a
permutation of the input and no element is less than one before it. An
insertion sort over `seq` proves that contract.

UpdateUser writes each field of the stored record as it goes. The new
username is stored before the email is checked
(internal/server/service/user_service.go:85-97), so an update is not
all-or-nothing: an email conflict returns an error and leaves the new
username stored. `UserStore.UpdateOutcome` and
`UserStore.EmailConflictKeepsNewUsername` state this.

## Model

| member | source | states |
|---|---|---|
| `UserStore.UserService.constructor` | internal/server/service/user_service.go:22-27 | a new store is empty, its counter is 1 and the invariant holds |
| `UserStore.UserService.GenerateID` | internal/server/service/user_service.go:29-31 | the id is the old counter in decimal and was never issued before; the counter goes up by one and the freshness invariant is kept |
| `UserStore.UserService.CreateUser` | internal/server/service/user_service.go:33-63 | a missing username, email or full name (`UserStore.MissingField`) gives the validation error and changes nothing; otherwise a username or email that is already taken gives the matching already-exists error and changes nothing, and the email error comes only from a user holding the email under another username, since each user's username is compared first; otherwise the user is stored under a fresh id, is active and has both timestamps set to `now`; the invariant is kept |
| `UserStore.InsertKeepsUnique` | internal/server/service/user_service.go:41-48 | adding a user whose username and email nobody holds keeps both unique |
| `UserStore.UserService.GetUser` | internal/server/service/user_service.go:65-74 | a stored id returns its user; any other id gives the user not-found error |
| `UserStore.UpdateOutcome` | internal/server/service/user_service.go:76-108 | the outcome of an update in the code's order of checks and writes: the set of ids never changes; a success stores and returns `ApplyPatch` of the old record; every error is NOT_FOUND or ALREADY_EXISTS; NOT_FOUND comes exactly when the id is absent, and then nothing changes |
| `UserStore.UserService.UpdateUser` | internal/server/service/user_service.go:76-108 | the new store and the result are exactly `UpdateOutcome` of the old store; the invariant is kept |
| `UserStore.UpdateFrame` | internal/server/service/user_service.go:76-108 | an update neither adds nor removes users and changes no user other than the one named |
| `UserStore.UpdateKeepsIdentity` | internal/server/service/user_service.go:89-105 | an update never changes the user's id or creation time |
| `UserStore.UpdatePreservesUniqueness` | internal/server/service/user_service.go:85-97 | whether an update succeeds or fails, no two users end up sharing a username or an email |
| `UserStore.UpdateOutcomeValid` | internal/server/service/user_service.go:76-108 | every update keeps the set of ids, keeps each user under its own id and keeps uniqueness, so the store invariant holds afterwards |
| `UserStore.UpdateSucceeds` | internal/server/service/user_service.go:85-107 | with no username or email conflict the update stores and returns the patched user |
| `UserStore.SelfUpdateSucceeds` | internal/server/service/user_service.go:110-114 | sending a user's own current username and email is not a conflict, because the check skips the user's own record |
| `UserStore.UsernameConflictFails` | internal/server/service/user_service.go:85-88 | a new username another user holds fails the update with the username already-exists error and changes nothing |
| `UserStore.EmailConflictFails` | internal/server/service/user_service.go:92-95 | with no new username, an email another user holds fails the update with the email already-exists error and changes nothing |
| `UserStore.EmailConflictKeepsNewUsername` | internal/server/service/user_service.go:85-97 | when the email conflicts, the already-exists error for the email is returned, and the new store is the old one with only that user's username replaced: email, full name, active flag and update time stay as they were |
| `UserStore.FullNameOnlyPatch` | internal/server/service/user_service.go:99-105 | a patch naming only the full name succeeds and changes only the full name and the update time |
| `UserStore.TakenByOtherIgnoresSelf` | internal/server/service/user_service.go:110-126 | whether another user holds a value does not depend on the excluded user's own record |
| `UserStore.ApplyPatch` | internal/server/service/user_service.go:85-105 | each field given in the patch replaces the old one, absent fields stay, the id and creation time stay, and the update time becomes `now` |
| `UserStore.UserService.CheckUniqueField` | internal/server/service/user_service.go:110-126 | returns no error exactly when no user other than the excluded one holds the value in the named field, read by `UserStore.FieldValue` (the email for any field name other than "username"); the error it returns is the already-exists error for that field and value |
| `UserStore.UserService.DeleteUser` | internal/server/service/user_service.go:128-138 | a stored user is removed and nothing else changes; an unknown id gives the not-found error and changes nothing |
| `UserStore.DeleteThenGet` | internal/server/service/user_service.go:128-138 | after a user is deleted, getting it gives the not-found error |
| `UserStore.UserService.ListUsers` | internal/server/service/user_service.go:140-149 | the listing is a permutation of exactly the users the filter selects, ordered by the requested field; the page returned is `paginate` of it and its total is the number of selected users |
| `UserStore.UserService.FilterUsers` | internal/server/service/user_service.go:151-165 | the result holds each user the lowercased filter selects exactly once, for any visiting order of the map |
| `UserStore.FilterKey` | internal/server/service/user_service.go:153-156 | the filter value is empty exactly when no filter or an empty one is given |
| `UserStore.FilterKeyIsLower` | internal/server/service/user_service.go:153-156 | the filter value is already lowercase |
| `UserStore.Selected` | internal/server/service/user_service.go:159 | the keep test `filterLower == "" \|\| matchesFilter` keeps exactly the users `matchesFilter` accepts, since the empty filter matches everyone |
| `UserStore.EmptyFilterMatches` | internal/server/service/user_service.go:167-171 | the empty filter matches every user |
| `UserStore.LongFilterMatchesNothing` | internal/server/service/user_service.go:167-171 | a filter longer than the username, the email and the full name matches no user |
| `UserStore.FilterIgnoresCase` | internal/server/service/user_service.go:153-156 | a filter and its lowercase form select the same users |
| `UserStore.EmptyFilterSelectsAll` | internal/server/service/user_service.go:153-163 | no filter, or an empty one, keeps every user |
| `UserStore.SortUsers` | internal/server/service/user_service.go:173-193 | the output is a permutation of the input with no element less than an earlier one under the field `UserStore.SortField` picks: the requested one, or the id when none or an empty one is given |
| `UserStore.UserLess` | internal/server/service/user_service.go:179-192 | a field other than username, email, full_name and created_at compares ids as strings; no user is less than itself |
| `UserStore.UserOrderIsStrictWeak` | internal/server/service/user_service.go:179-192 | every comparison the sort can use, including the default by-id comparison, is a strict weak order, as `sort.Slice` requires |
| `UserStore.StringKeyOrder` | internal/server/service/user_service.go:181-190 | comparing strings with `<` is asymmetric and its incomparability is transitive |
| `ProductStore.ProductService.constructor` | internal/server/service/product_service.go:22-27 | a new catalogue is empty, its counter is 1 and the invariant holds |
| `ProductStore.ProductService.GenerateID` | internal/server/service/product_service.go:29-31 | the id is the old counter in decimal and was never issued before; the counter goes up by one |
| `ProductStore.ProductService.CreateProduct` | internal/server/service/product_service.go:33-58 | a missing name, description or category (`ProductStore.MissingField`) gives the "fields" validation error; otherwise a negative price or quantity (`ProductStore.NegativeValue`) gives the "value" validation error; neither error changes anything; otherwise the product is stored under a fresh id with both timestamps set to `now`; no stored product ever has a negative price or quantity |
| `ProductStore.ProductService.GetProduct` | internal/server/service/product_service.go:60-69 | a stored id returns its product; any other id gives the product not-found error |
| `ProductStore.ProductService.SearchProducts` | internal/server/service/product_service.go:71-83 | the results are a permutation of exactly the matching products, ordered by name; the page returned is `paginate` of them and its total is the number of matches |
| `ProductStore.ByNameIsStrictWeak` | internal/server/service/product_service.go:77-79 | ordering by name is a strict weak order |
| `ProductStore.ProductService.FilterProducts` | internal/server/service/product_service.go:85-99 | the result holds each product the criteria match exactly once, for any visiting order of the map |
| `ProductStore.QueryKey` | internal/server/service/product_service.go:86-90 | the query is empty exactly when no query or an empty one is given |
| `ProductStore.QueryKeyIsLower` | internal/server/service/product_service.go:86-90 | the query is already lowercase |
| `ProductStore.MatchesSearchCriteria` | internal/server/service/product_service.go:101-119 | the chain of early rejections matches a product exactly when the query, the category and both price bounds all hold |
| `ProductStore.NoCriteriaMatchesAll` | internal/server/service/product_service.go:101-119 | a search with no criteria matches every product |
| `ProductStore.PriceBoundsInclusive` | internal/server/service/product_service.go:112-117 | a price equal to either bound is inside the range |
| `ProductStore.CategoryIgnoresCase` | internal/server/service/product_service.go:109-111 | the category comparison ignores letter case on both sides |
| `ProductStore.SearchEmptyCatalogue` | internal/server/service/product_service.go:71-83 | searching a new catalogue for page 1 of size 10 gives no products, total 0, page 1, size 10 |
| `Pagination.Paginate` | internal/server/service/utils.go:3-21 | a page below 1 becomes 1 and a page size below 1 becomes 10; the total is the input length; the items are the slice from (page-1)·size to page·size, both ends clipped to the length, so a page past the end is empty; no page is longer than its size |
| `Pagination.PagesOrdered` | internal/server/service/utils.go:12-18 | a later page starts at or after the end of an earlier one |
| `Pagination.PagesAdjacent` | internal/server/service/utils.go:12-20 | two consecutive pages together are one contiguous slice of the input |
| `Pagination.FirstPagesArePrefix` | internal/server/service/utils.go:12-20 | the first k pages, concatenated, are exactly the prefix of the input they cover |
| `Pagination.AllPagesCoverInput` | internal/server/service/utils.go:3-21 | enough pages together reproduce the whole input, with nothing skipped or repeated |
| `Pagination.FiveItemsPagesOfThree` | internal/server/service/utils.go:3-21 | five items with page size 3 give three items, then two, then none, with total 5 each time |
| `Pagination.EmptyDefaults` | internal/server/service/utils.go:4-15 | an empty input with no paging given is page 1 of size 10 with total 0 |
| `Pagination.PageArithmetic` | internal/server/service/utils.go:12-18 | a normalised page starts at a non-negative index and ends one page size later |
| `Sorting.SortSlice` | internal/server/service/user_service.go:179-192 | for a strict weak order, the output is a permutation of the input and no element is less than an earlier one |
| `Sorting.Insert` | internal/server/service/product_service.go:77-79 | inserting into a sorted sequence gives a sorted permutation of the sequence plus the new element |
| `Decimal.DecimalString` | internal/server/service/user_service.go:30 | an id is a non-empty string of digits, starts with '0' only for 0, and has one digit exactly for values below 10 |
| `Decimal.ParseDecimalString` | internal/server/service/user_service.go:29-31 | an id is a non-empty string of digits and parsing it gives back the counter value |
| `Decimal.DecimalStringInjective` | internal/server/service/product_service.go:29-31 | different counter values give different ids |
| `Decimal.FreshId` | internal/server/service/user_service.go:29-31 | the id for the current counter was never issued, and issuing it then incrementing keeps every issued id below the counter, so no id is reused |
| `Decimal.IdTenBeforeTwo` | internal/server/service/user_service.go:189-190 | ids compare as strings, so "10" sorts before "2" |
| `Text.Lower` | internal/server/service/user_service.go:155 | lowercasing keeps the length and maps each character through the ASCII lowercase table |
| `Text.LowerIdempotent` | internal/server/service/product_service.go:89 | lowercasing twice is the same as lowercasing once |
| `Text.EqualFoldIff` | internal/server/service/product_service.go:109 | two strings are equal ignoring case exactly when they have the same length and fold to the same character at every index; every string equals itself |
| `Text.ContainsIff` | internal/server/service/user_service.go:168-170 | `Contains` holds exactly when the substring occurs at some index |
| `Text.ContainsLength` | internal/server/service/user_service.go:168-170 | a string only occurs in strings at least as long as itself |
| `Text.ContainsMiddle` | internal/server/service/product_service.go:103-104 | a string occurs in any concatenation that has it in the middle |
| `Text.LessTransitive` | internal/server/service/user_service.go:181-190 | string `<` is transitive |
| `Text.LessTotal` | internal/server/service/user_service.go:181-190 | of two different strings, one is less than the other |
| `Text.LessIrreflexive` | internal/server/service/user_service.go:181-190 | no string is less than itself |
| `Text.LessAsymmetric` | internal/server/service/product_service.go:77-79 | string `<` never holds in both directions |
| `AppErrors.ErrorString` | internal/server/errors/errors.go:40-45 | without details the text is exactly "CODE: message"; with details it starts with "CODE: message" and contains " (details)" |
| `AppErrors.ErrorStringWithDetails` | internal/server/errors/errors.go:41-42 | with details the text is exactly "CODE: message (details)" |
| `AppErrors.CodeHttpStatus` | internal/server/errors/errors.go:53-70 | every code, named or not, maps to one of 400, 401, 403, 404, 409, 500 and 503 |
| `AppErrors.HttpStatusTable` | internal/server/errors/errors.go:47-71 | with no explicit status, 400 comes exactly from INVALID_REQUEST and VALIDATION_FAILED, 401 from UNAUTHORIZED, 403 from FORBIDDEN, 404 from NOT_FOUND, 409 from ALREADY_EXISTS, 503 from SERVICE_DOWN and EXTERNAL_API_ERROR, and 500 from every other code |
| `AppErrors.ToHttpStatus` | internal/server/errors/errors.go:47-71 | an explicit non-zero status wins; otherwise the status is one of 400, 401, 403, 404, 409, 500 and 503 |
| `AppErrors.CodeGrpcCode` | internal/server/errors/errors.go:79-97 | every code, named or not, maps to one of InvalidArgument, NotFound, AlreadyExists, Unauthenticated, PermissionDenied, Internal and Unavailable |
| `AppErrors.GrpcCodeTable` | internal/server/errors/errors.go:73-100 | with no explicit code, InvalidArgument comes exactly from INVALID_REQUEST and VALIDATION_FAILED, Unauthenticated from UNAUTHORIZED, PermissionDenied from FORBIDDEN, NotFound from NOT_FOUND, AlreadyExists from ALREADY_EXISTS, Unavailable from SERVICE_DOWN and EXTERNAL_API_ERROR, and Internal from every other code |
| `AppErrors.ToGrpcStatus` | internal/server/errors/errors.go:73-100 | the message is kept; an explicit non-OK code wins; otherwise the code is never OK |
| `AppErrors.HttpAndGrpcAgree` | internal/server/errors/errors.go:53-97 | without overrides the two tables agree code by code, in both directions: 400 with InvalidArgument, 401 with Unauthenticated, 403 with PermissionDenied, 404 with NotFound, 409 with AlreadyExists, 500 with Internal, 503 with Unavailable |
| `AppErrors.UnknownCodeIsInternal` | internal/server/errors/errors.go:68-69 | a code outside the ten named ones gives 500 and Internal |
| `AppErrors.NewValidationError` | internal/server/errors/errors.go:104-110 | VALIDATION_FAILED with the given field and message, no details; 400 and InvalidArgument |
| `AppErrors.NewNotFoundError` | internal/server/errors/errors.go:112-118 | NOT_FOUND with message "<resource> not found" and details "ID: <id>"; 404 and NotFound |
| `AppErrors.NotFoundText` | internal/server/errors/errors.go:112-118 | the text is exactly "NOT_FOUND: <resource> not found (ID: <id>)" |
| `AppErrors.NotFoundMentioned` | internal/server/errors/errors.go:112-118 | the text contains " not found" |
| `AppErrors.NewAlreadyExistsError` | internal/server/errors/errors.go:120-127 | ALREADY_EXISTS with message "<resource> already exists", details "<field>: <value>" and the field set; 409 and AlreadyExists |
| `AppErrors.AlreadyExistsText` | internal/server/errors/errors.go:120-127 | the text is exactly "ALREADY_EXISTS: <resource> already exists (<field>: <value>)" |
| `AppErrors.AlreadyExistsMentioned` | internal/server/errors/errors.go:120-127 | the text contains " already exists" |
| `AppErrors.WordInErrorText` | internal/server/errors/errors.go:41-42 | a word that ends the "CODE: message" part of a detailed error occurs in its text |
| `AppErrors.NewInvalidRequestError` | internal/server/errors/errors.go:129-134 | INVALID_REQUEST with the given message; 400 and InvalidArgument |
| `AppErrors.NewInternalError` | internal/server/errors/errors.go:136-141 | INTERNAL_ERROR with the given message; 500 and Internal |
| `AppErrors.NewDatabaseError` | internal/server/errors/errors.go:143-149 | DATABASE_ERROR, "Database operation failed", details "Operation: <op>, Error: <err>"; 500 and Internal |
| `AppErrors.AsAppError` | internal/server/errors/errors.go:151-168 | an AppError, which `AppErrors.IsAppError` recognises, is returned unchanged; any other error becomes INTERNAL_ERROR "Internal server error" carrying the error's text as details, and so maps to 500 |
| `AppErrors.AsAppErrorIdempotent` | internal/server/errors/errors.go:157-168 | converting a converted error again changes nothing |

## Left out

- Locking: the read/write mutex and the atomic counter increment are not modelled. Each public method is one atomic step on its object.
- Time: `time.Now()` is a parameter `now: nat`. The model does not promise that an update time is later than the creation time.
- Product prices are `float64` in the code and integers here. NaN, infinities and rounding are not modelled.
- `Text.Lower`: only ASCII letters are folded. Go's `strings.ToLower` and `strings.EqualFold` also fold other Unicode letters.
- Integer widths: the `int64` id counter and the `int32` page, page size and total are unbounded here. The model does not capture overflow or wrap-around of `(page-1)*pageSize`.
- `SortUsers` and `SearchProducts` return sorted sequences; they do not sort a Go slice in place. Among records that compare equal the order is unspecified, in the code and in the model alike.
- Pointers: the services hand out pointers to their stored records, so a caller can change the store through them. Values here are immutable.
- `AppErrors.ToGrpcStatus` returns a code and a message. It does not model the `status.Status` object or its details.
- A Go `nil` error has no counterpart. `AsAppError` is modelled for non-nil errors only.
- The gRPC and REST handlers, the server setup, configuration and the generated protocol code are not part of this model.
