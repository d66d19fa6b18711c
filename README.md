# Product catalogue and user registry — a verified Dafny model

This project models the core of a Spring Boot e-commerce backend. It has two parts.

- **Product catalogue.** A products table with soft delete, the queries of `ProductRepository`, and `ProductService`.
  `ProductService` is a class holding the table and the two caches that its
  `@Cacheable`/`@CacheEvict` annotations declare: the single-entry `"products"` list cache and the per-id `"product"` cache.
  Reads are served from a cache on a hit and fill it on a miss; every successful create, update or delete clears both caches.
  The class invariant `Valid()` says that every cached value equals what a fresh read of the table returns, and every method preserves it.
- **User registry.** `AuthService.register` and `authenticate` over a users table that keeps usernames and emails unique, plus the `User` entity with its role and authorities.
  The password encoder, the JWT service and the authentication manager are injected collaborators, held as functions fixed when the service is constructed.

Files: `wrappers.dfy` (Option/Result/Outcome), `exceptions.dfy` (the thrown exceptions as values), `text.dfy` (blank check, lower-casing, substring and SQL LIKE), `product.dfy` (entity and DTOs), `product_repository.dfy`, `product_service.dfy`, `product_lifecycle.dfy` (soft-delete lifecycle and eviction policy), `user.dfy`, `auth_service.dfy`.

Modelling choices:
- Product ids come from an IDENTITY column starting at 1. The unpaged queries have no ORDER BY, so the database may return rows in any order; the model chooses ascending id order (see "Left out").
- Prices are `real`: the code only copies and compares them.
- Timestamps are opaque integers passed in as `now`. The auditing listener stamps `createdAt` and `updatedAt` on insert and `updatedAt` on every later save that reaches the database. `created_at` is not updatable, so a later save never changes it. An insert reaches the database at `save`, because the id comes from an IDENTITY column. An update reaches it only when the service's transaction commits, so the entity that `updateProduct` maps to its response has not been stamped yet.
- Request validity (`@Valid` on the controller) is a `requires` on create, update, register and authenticate. A name is blank when every character is at or below U+0020, which is what `String.trim()` removes.
- Every stored product satisfies the entity's constraints (non-blank name, positive price), because bean validation checks the entity on insert and on update.
- A method that throws (NotFound, Validation) saves nothing and, because `@CacheEvict` runs after a normal return only, leaves the caches as they were.

## Model

| member | source | states |
|---|---|---|
| ProductEntity.ValidProductHasNameAndPrice | src/main/java/com/example/springboot/entity/Product.java:30-43 | a product that passes the entity constraints has a name with a character above U+0020, so a non-empty name, and a positive price |
| ProductEntity.Transient | src/main/java/com/example/springboot/entity/Product.java:55-57 | a freshly built product is active by default, carries the given name, description and price, and satisfies the entity constraints when the request does |
| Text.Lower | src/main/java/com/example/springboot/repository/ProductRepository.java:22 | the result has the same length, holds no upper-case ASCII letter, keeps every other character, and equals the input ignoring case (SQL LOWER over ASCII) |
| Text.LikeSurroundedIsContains | src/main/java/com/example/springboot/repository/ProductRepository.java:22 | for a needle without wildcards, `LIKE '%' + needle + '%'` holds exactly when the needle occurs as a substring |
| ProductRepository.FindByIsActiveTrue | src/main/java/com/example/springboot/repository/ProductRepository.java:16 | returns every stored active product and nothing else, by strictly ascending id |
| ProductRepository.FindByIdAndIsActiveTrue | src/main/java/com/example/springboot/repository/ProductRepository.java:20 | present exactly when the id is stored and active, and then it is the row stored under that id |
| ProductRepository.InsertAppendsToActiveList | src/main/java/com/example/springboot/entity/Product.java:26-28 | saving a new active product appends it after every existing active product, since the generated id is larger than all others |
| ProductRepository.FindActiveProductsByNameContainingIgnoreCase | src/main/java/com/example/springboot/repository/ProductRepository.java:22-23 | returns exactly the active products whose lower-cased name contains the lower-cased needle |
| ProductRepository.FindActiveProductsByNameAsWritten | src/main/java/com/example/springboot/repository/ProductRepository.java:22-23 | returns exactly the active products whose lower-cased name matches the LIKE pattern '%' + lower-cased needle + '%' |
| ProductRepository.EmptyNeedleFindsAllActive | src/main/java/com/example/springboot/repository/ProductRepository.java:22-23 | an empty needle returns the whole active list |
| ProductRepository.NameQueryAgreesWithoutWildcards | src/main/java/com/example/springboot/repository/ProductRepository.java:22-23 | when the needle holds no '%' or '_', the query as written returns the substring search's result |
| ProductRepository.UnderscoreNeedleMatchesAnyName | src/main/java/com/example/springboot/repository/ProductRepository.java:22-23 | the needle "_" makes the query as written return every active product whose name holds no '_' (such as "iPhone 15"), which the substring search does not return |
| ProductRepository.FindActiveProductsByPriceRange | src/main/java/com/example/springboot/repository/ProductRepository.java:25-26 | returns exactly the active products with minPrice <= price <= maxPrice, inclusive at both ends |
| ProductRepository.IsDescending | src/main/java/com/example/springboot/controller/ProductController.java:70-71 | the sort is descending exactly when the direction lower-cases to "desc" |
| ProductRepository.PageableOf | src/main/java/com/example/springboot/controller/ProductController.java:70-72 | no page request (PageRequest.of throws) exactly when the page is negative or the size below one; otherwise a valid request with that page number and size, sorting descending exactly when the direction lower-cases to "desc", and ascending for "ASC" |
| ProductRepository.SortedActive | src/main/java/com/example/springboot/controller/ProductController.java:70-72 | the sorted list holds exactly the active products, in strictly descending id order when descending is asked for and strictly ascending otherwise |
| ProductRepository.ReverseOfAscendingIsDescending | src/main/java/com/example/springboot/controller/ProductController.java:70-71 | reversing the ascending list keeps its members and puts them in descending id order |
| ProductRepository.FindByIsActiveTruePage | src/main/java/com/example/springboot/repository/ProductRepository.java:18 | a page holds only stored active products, in strictly descending id order when descending is asked for and strictly ascending otherwise; it is full unless it reaches past the end of the active list, where it holds exactly what remains (none past the end); it reports the active total and the requested page number and size |
| ProductRepository.EveryActiveRowIsOnItsPage | src/main/java/com/example/springboot/repository/ProductRepository.java:18 | the active product at position i of the sorted list appears on page i / size |
| ProductRepository.Insert | src/main/java/com/example/springboot/entity/Product.java:26-28 | saving a new product takes an id never used before, stamps both timestamps, leaves every other row as it was and keeps the table well formed |
| ProductRepository.Merge | src/main/java/com/example/springboot/entity/Product.java:46-48 | saving an existing product leaves its createdAt and every other row unchanged and keeps the table well formed |
| ProductService.ToResponse | src/main/java/com/example/springboot/service/ProductService.java:96-106 | the response determines the entity: FromResponse(ToResponse(p)) == p |
| ProductService.Responses | src/main/java/com/example/springboot/service/ProductService.java:32-34 | mapping a list keeps its length and maps element i to a response of product i |
| ProductService.ActiveProducts | src/main/java/com/example/springboot/service/ProductService.java:28-35 | the list read holds exactly the mapped active products, by ascending id |
| ProductService.ProductById | src/main/java/com/example/springboot/service/ProductService.java:45-51 | succeeds exactly when the id is stored and active, with that product's mapping; otherwise fails with ResourceNotFound("Product", "id", id) |
| ProductService.ByIdAgreesWithList | src/main/java/com/example/springboot/service/ProductService.java:28-51 | the by-id read returns x exactly when x is the list read's entry with that id |
| ProductService.Revised | src/main/java/com/example/springboot/service/ProductService.java:75-77 | the updated record takes name, description and price from the request, keeps its id, createdAt, updatedAt and isActive, and is valid when the request is |
| ProductService.Retired | src/main/java/com/example/springboot/service/ProductService.java:91 | the soft-deleted record is inactive and keeps its id, createdAt and validity |
| ProductService.ProductService.constructor | src/main/java/com/example/springboot/service/ProductService.java:22-25 | starts on a well-formed table with both caches empty |
| ProductService.ProductService.GetAllProducts | src/main/java/com/example/springboot/service/ProductService.java:27-35 | returns the current active list on a hit and on a miss, leaves the table alone, fills the "products" cache, and keeps every cached value coherent with the table |
| ProductService.ProductService.GetAllProductsPaginated | src/main/java/com/example/springboot/service/ProductService.java:37-42 | the page content is the mapped repository page for the same request, holds only entries of the active list, at most size of them, and reports the active total |
| ProductService.ProductService.GetProductById | src/main/java/com/example/springboot/service/ProductService.java:44-51 | returns the mapped product when it is stored and active, NotFound otherwise; caches a success and never a failure; keeps the caches coherent |
| ProductService.ProductService.CreateProduct | src/main/java/com/example/springboot/service/ProductService.java:53-66 | inserts one new active record with the request's fields under a fresh id, returns its mapping and clears both caches |
| ProductService.ProductService.UpdateProduct | src/main/java/com/example/springboot/service/ProductService.java:68-82 | NotFound with no save and caches untouched for a missing or inactive id; otherwise overwrites only name, description and price of that record and clears both caches; the response is the revised record before the commit stamps it, so it carries the previous updatedAt while the table holds the new one |
| ProductService.ProductService.DeleteProduct | src/main/java/com/example/springboot/service/ProductService.java:84-94 | NotFound with no save and caches untouched for a missing or inactive id; otherwise keeps the record with isActive false and clears both caches |
| ProductLifecycle.CreatedProductIsListedLast | src/main/java/com/example/springboot/service/ProductService.java:53-66 | after create, the new product is active, readable by its new id, and appended to the end of the active list |
| ProductLifecycle.DeleteHidesProduct | src/main/java/com/example/springboot/service/ProductService.java:84-94 | after delete, the record is still stored, changed only in isActive and updatedAt; reading it or deleting it again fails with NotFound; the list loses exactly that id |
| ProductLifecycle.UpdateRevisesOnlyItsProduct | src/main/java/com/example/springboot/service/ProductService.java:68-82 | after update, the by-id read shows the request's fields under the same id, still active, with createdAt unchanged; no other list entry changes |
| ProductLifecycle.CreateStalesListCache | src/main/java/com/example/springboot/service/ProductService.java:53 | a "products" entry kept across a create would no longer match the table |
| ProductLifecycle.DeleteStalesProductCache | src/main/java/com/example/springboot/service/ProductService.java:84 | a "product" entry kept across a delete of that id would no longer match the table |
| ProductLifecycle.UpdateStalesProductCache | src/main/java/com/example/springboot/service/ProductService.java:68 | a "product" entry kept across an update that renames the product would no longer match the table |
| ProductLifecycle.WidgetWalkthrough | src/main/java/com/example/springboot/service/ProductService.java:44-94 | create "Widget" at 9.99, then it is readable and is the only list entry; after delete, reading it fails with NotFound and the list is empty |
| UserEntity.RoleName | src/main/java/com/example/springboot/entity/User.java:112-114 | the stored role name reads back as the same role (Role.valueOf(r.name()) == r) |
| UserEntity.StatusPredicatesReportFlags | src/main/java/com/example/springboot/entity/User.java:92-110 | isEnabled, isAccountNonExpired, isCredentialsNonExpired and isAccountNonLocked each return the user's own stored flag |
| UserEntity.NewUser | src/main/java/com/example/springboot/entity/User.java:59-75 | a new user has role USER and all four account flags true |
| UserEntity.Authorities | src/main/java/com/example/springboot/entity/User.java:87-90 | exactly one authority, and it grants exactly the user's role |
| UserEntity.AuthoritiesDetermineRole | src/main/java/com/example/springboot/entity/User.java:87-90 | two users have the same authorities if and only if they have the same role |
| AuthService.FindByUsername | src/main/java/com/example/springboot/service/AuthService.java:63-64 | finds a user of that name exactly when one exists |
| AuthService.AccountIdentifiedByUsernameOrEmail | src/main/java/com/example/springboot/entity/User.java:35-44 | under the unique username and email columns, two stored users that share a username or an email are the same user |
| AuthService.FindByUsernameFindsTheUser | src/main/java/com/example/springboot/entity/User.java:35-38 | with unique usernames, the lookup returns the one stored user of that name |
| AuthService.Registration | src/main/java/com/example/springboot/service/AuthService.java:32-47 | a duplicate username fails with "Username already exists", otherwise a duplicate email fails with "Email already exists"; otherwise a new account under the next id with role USER, all four account flags true, and the encoder's output as password |
| AuthService.RegistrationKeepsAccountsUnique | src/main/java/com/example/springboot/service/AuthService.java:32-47 | a successful registration keeps usernames and emails unique and keeps the model's gap-free id numbering |
| AuthService.RegisteredUserIsFound | src/main/java/com/example/springboot/service/AuthService.java:40-47 | after registration, looking up the username finds the new account |
| AuthService.SecondRegistrationOfAUsernameFails | src/main/java/com/example/springboot/service/AuthService.java:32-34 | registering a username a second time fails with "Username already exists", whatever the email |
| AuthService.GenerateAuthResponse | src/main/java/com/example/springboot/service/AuthService.java:70-87 | token type "Bearer", the given tokens, and user info whose id, username, email, full name and role name mirror the user |
| AuthService.AuthService.Register | src/main/java/com/example/springboot/service/AuthService.java:29-51 | on a duplicate, fails with the check's message and saves nothing; otherwise appends exactly the registered account and returns its tokens; uniqueness is preserved |
| AuthService.AuthService.Authenticate | src/main/java/com/example/springboot/service/AuthService.java:53-68 | a login the authentication manager rejects fails (modelled as BadCredentials); accepted credentials without an account fail with "Invalid credentials"; otherwise it returns the tokens of the one account with that username |

## Findings

| source | as written | input that shows it | evidently intended | confidence | as-written member | corrected member |
|---|---|---|---|---|---|---|
| src/main/java/com/example/springboot/repository/ProductRepository.java:22-23 | the needle is concatenated into a LIKE pattern unescaped, so '%' and '_' in it act as wildcards | needle "_" against any active product whose name holds no '_', such as "iPhone 15" | the lower-cased name contains the lower-cased needle as a substring, as the method name says | not executed; medium | ProductRepository.UnderscoreNeedleMatchesAnyName | ProductRepository.FindActiveProductsByNameContainingIgnoreCase |

The two queries agree whenever the needle holds no wildcard (`ProductRepository.NameQueryAgreesWithoutWildcards`).

## Left out

- ProductRepository.FindByIsActiveTrue: the query has no ORDER BY, so the database may return the active rows in any order. Ascending id order is the model's choice, not a promise of the source.
- ProductService.ActiveProducts: the by-id ordering of the list read is the model's choice, inherited from FindByIsActiveTrue.
- ProductRepository.FindActiveProductsByNameContainingIgnoreCase and ProductRepository.FindActiveProductsByPriceRange: their ascending id order is the model's choice; the queries have no ORDER BY.
- ProductRepository.InsertAppendsToActiveList: "the new product comes last" holds only under the model's ascending id order.
- ProductLifecycle.CreatedProductIsListedLast: "appended to the end of the active list" holds only under the model's ascending id order.
- AuthService.Registration: the new user's id is the number of users plus one. IDENTITY ids are not guaranteed gap-free, since a rolled-back insert uses up a value.
- AuthService.RegistrationKeepsAccountsUnique: the gap-free id numbering it preserves is the model's assumption, for the same reason.
- AuthService.AuthService.Authenticate: every rejection by the authentication manager is reported as one error. The manager's Disabled, Locked, AccountExpired and CredentialsExpired exceptions, driven by the four account flags of `User`, are not told apart, and the model does not consult those flags.
- AuthService.ValidRegisterRequest: `@Size` counts UTF-16 code units, while the model counts characters. The 3 to 50 and at-least-6 bounds therefore differ for characters outside the Basic Multilingual Plane, such as emoji.
- ProductRepository.Merge: always stamps `updatedAt`. Hibernate skips `@PreUpdate` when an update changes no field, so an update that repeats the stored values keeps the old `updatedAt` in the source.
- Logging, the `@Transactional` boundaries, concurrency and last-writer-wins between concurrent updates. Each operation is modelled as one sequential step.
- The cache store itself (Redis): serialisation, cache failures and time-to-live. The caches are exact in-memory maps.
- The `ResourceNotFoundException` and `ValidationException` classes and their message formatting. `UserRepository` and `JwtService` are not part of this model either: the users table is modelled from the calls the service makes on it.
- The password encoder, token generation and the authentication manager are functions fixed at construction. Their salts, clocks and randomness are therefore not modelled. The manager's verdict takes the current users table as an argument, so a registration can change it. How it checks the password against the stored hash is not modelled.
- The `@Email` format check on registration and the user timestamps.
- Database-level effects that are not visible through these calls: the database's own unique constraints, and which LIKE escape character the database uses by default.
- Unicode case mapping: letter case is mapped for ASCII only.
- ProductService.ProductService.UpdateProduct: the commit at the end of the transaction is not a separate step in the model. The table change and its `updatedAt` stamp happen in the same step as the call. The response is the unstamped record, with the previous `updatedAt`, as the source returns it.
- ProductRepository.FindByIsActiveTruePage: sorts by id only. Sorting by the other fields the controller accepts is not modelled.
- Null ids, null prices and null search arguments: the model's values are never null.
- Controllers, the response envelope, messaging, database configuration, health checks, tracing and metrics are outside the core.
