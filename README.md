# User management API: authentication and authorisation core

A model, in Dafny, of the core of a Gin/GORM user-management service. It covers:

- JWT access and refresh tokens: how they are issued and validated.
- The `RequireAuth`, `RequirePermission`, `RequireRole` and `RequireSuperuser` middleware.
- The repositories over the users, roles, permissions, model permissions, menus, user metadata and settings tables.
- The use cases built on them: login and register, privileges, menus, roles, permissions, users, user metadata and settings. Both cache-aside caches (Redis) are included.
- The HTTP handlers of the authentication, role, menu and permission endpoints.

## How it is modelled

- **Tables.** The database is one object, `Store.Database`. Each table is a `seq` field, rows are kept in table order, and the many-to-many join tables are sequences of `Link`s.
- **Repositories.** A repository query is a function of the tables. A repository write is a method that reassigns the table it changes and states the new table outright.
- **Keys.** Every write checks the primary key and, for roles, permissions and menus, the unique name column. A taken one is a duplicate-key error. A foreign key that is not met is a foreign-key error.
- **Association stubs.** `Association("…").Append` of entities built from an id alone saves each one first, with INSERT … ON CONFLICT DO NOTHING. A stub whose id is stored is skipped. So is a stub whose blank name another row already holds. `Store.StubInsert` models this save, and the join table's foreign keys then decide the outcome: at most one distinct unknown id gets through, as a blank-named row.
- **Failures.** A failing query, transaction step or cache call is a `bool` (or fault) parameter where the source reacts to the failure itself. A failed existence lookup (the FindByName, FindByEmail and FindByUsername checks) is not modelled; see "## Left out".
- **Cache.** The Redis cache is a class, `Caching.Cache`, with one `map` of entries.
- **Cache coherence.** "Cache-aside coherence" means a cached copy, when present, equals what the table gives. It is the invariant the settings and metadata use cases keep. Lemmas show where the source breaks it: a failed or missing cache removal leaves a stale copy.
- **Handlers.** Handlers are pure functions. Their inputs are what Gin hands them (path id text, bound body or binding error, query values, context values) and the use-case operation, passed in as a function. The value is the reply written: status plus body.
- **Outside inputs.** Clocks, fresh UUIDs, the password hash check, environment variables, and the order in which a Go map is ranged over are all parameters. A range over a map is a loop over an order the model leaves open, and the contract holds for every such order.
- **Integer width.** `int`/`int64` arithmetic is unbounded except where the width matters. It is written out with `Numbers.Wrap64` for the page offset, `total_page` and the `time.Duration` product.

Where the code and its documentation disagree, the model follows the code:
- The expired-token message is never produced: every token failure answers "invalid token".
- `RequireSuperuser` panics behind `RequireAuth`.
- Model-permission grants are created with the zero UUID.

## Model

| member | source | states |
|---|---|---|
| Numbers.Atoi | pkg/auth/jwt.go:29-37 | strconv.Atoi accepts only an optionally signed run of ASCII digits within int64, so any result is an int64 of a non-empty text |
| Numbers.AtoiItoa | pkg/auth/jwt.go:29-37 | every int64 written in decimal reads back as itself |
| Numbers.AtoiRejectsNonDigit | pkg/auth/jwt.go:29-37 | a text with a non-digit after its first character is refused, so the lifetime falls back to its default |
| Numbers.Wrap64 | domain/models/common.go:40-42 | the int64 two's-complement arithmetic leaves: in range, congruent to the exact value modulo 2^64, and the value itself when it already fits |
| Numbers.GoDiv | internal/delivery/http/handlers/role_handler.go:118 | Go's truncating division agrees with Euclidean division on a non-negative dividend and positive divisor |
| TokenCodec.DecodeEncode | pkg/auth/jwt.go:51-52 | the token text a signed token is written as decodes back to exactly that token: algorithm, claims and key |
| TokenCodec.EncodeShape | pkg/auth/jwt.go:51-52 | a token text is non-empty and space-free, so it is the single second field of a bearer header |
| Jwt.GenerateTokenPair | pkg/auth/jwt.go:27-80 | the access token decodes to HS256 claims of the user, email, issue instant and access id, signed with JWT_SECRET; the refresh token the same with the refresh id and REFRESH_TOKEN_SECRET; expires_in is the access lifetime in seconds |
| Jwt.ValidateToken | pkg/auth/jwt.go:92-109 | a text is accepted exactly when it decodes, names an HMAC algorithm, was signed with the secret and is before its exp; the result is its claims |
| Jwt.ExpiryAfterExact | pkg/auth/jwt.go:40 | exp is the issue instant plus the configured hours, for a lifetime that fits time.Duration |
| Jwt.UnsetLifetimes | pkg/auth/jwt.go:29-37 | without configuration the access token lives one hour (expires_in 3600) and the refresh token seven days |
| Jwt.LifetimeSettings | pkg/auth/jwt.go:29-37 | an unparsable lifetime falls back to 1 or 168 hours, and a parsable one is used as given |
| Jwt.AccessExpiresFirst | pkg/auth/jwt.go:40-70 | the access token expires before the refresh token exactly when its configured lifetime is shorter |
| Jwt.PairSharesIdentity | pkg/auth/jwt.go:40-70 | both tokens carry the same user, email and issue instant, and the ids they were given |
| Jwt.AccessTokenRoundTrip | pkg/auth/jwt.go:83-85 | an issued access token validates with exactly its claims at every instant before its exp, and is "token is expired" from then on |
| Jwt.RefreshTokenRoundTrip | pkg/auth/jwt.go:88-90 | the same for the refresh token under the refresh secret |
| Jwt.SecretsSeparateKinds | pkg/auth/jwt.go:83-90 | with distinct secrets neither token kind is accepted as the other |
| Jwt.NonHmacRejected | pkg/auth/jwt.go:94-96 | a token naming a non-HMAC algorithm is refused whatever its key and claims |
| Jwt.ExpiredRejected | pkg/auth/jwt.go:92-109 | a correctly signed token is refused from its exp instant on |
| Jwt.NonPositiveLifetimeNeverValid | pkg/auth/jwt.go:29-40 | a lifetime of zero or fewer hours issues access tokens that never validate |
| Uuids.UuidString | internal/usecase/user_meta_usecase.go:150 | uuid.UUID.String writes 36 characters |
| Uuids.UuidStringInjective | internal/usecase/user_meta_usecase.go:150 | distinct UUIDs have distinct texts |
| Uuids.ParseUuid | internal/delivery/http/handlers/role_handler.go:65 | uuid.Parse accepts exactly the 36-character hyphenated form and the bare 32-digit form, hex digits in either case |
| Uuids.ParseUuidString | internal/delivery/http/handlers/role_handler.go:65 | the canonical text of a UUID parses back to it |
| Uuids.ParseUuidDigits | internal/delivery/http/handlers/role_handler.go:65 | the bare 32 digits of a UUID parse back to it |
| Pagination.GetLimit | domain/models/common.go:44-46 | the limit is the page size, unchanged |
| Pagination.GetPage | domain/models/common.go:48-50 | the page is the page number, unchanged |
| Pagination.GetOffsetSteps | domain/models/common.go:40-42 | page 1 starts at row 0, and while the product fits an int64 each further page starts PerPage rows later |
| Pagination.GetOffsetNonNegative | domain/models/common.go:40-42 | a 1-based page of non-negative size starts at a non-negative row while the offset fits |
| Pagination.Window | domain/repositories/role_repository.go:54 | Offset/Limit select at most `limit` rows, all rows when neither clause is written, and none past the end |
| Pagination.PageOfContents | domain/repositories/role_repository.go:50-65 | a page holds the rows from its offset on, as many as fit the size, in table order |
| Pagination.RowOnItsPage | domain/repositories/role_repository.go:50-65 | row i is entry i mod size of page i div size + 1 |
| Pagination.OffsetWrapsToFirstPage | domain/repositories/role_repository.go:54 | a page number whose offset wraps to zero returns the first page |
| Pagination.PositiveOr | internal/delivery/http/handlers/role_handler.go:96-104 | a query number is at least 1, and either a parsed int64 or the fallback |
| Pagination.PageParamDefaults | internal/delivery/http/handlers/role_handler.go:93-94 | absent query values mean page 1 of 10 rows |
| Pagination.PageParamKeepsPositive | internal/delivery/http/handlers/role_handler.go:96-104 | every positive int64 written in decimal is taken as given |
| Pagination.PageParamFallback | internal/delivery/http/handlers/role_handler.go:96-104 | a value that does not parse or is below 1 falls back to page 1 / size 10 |
| Pagination.TotalPage | internal/delivery/http/handlers/role_handler.go:118 | the ceiling of total / size: enough pages for every row, and no empty last page |
| Pagination.TotalPageOverflows | internal/delivery/http/handlers/role_handler.go:118 | as written, five rows at page size MaxInt64 are said to fill zero pages |
| Pagination.TotalPageAgrees | internal/delivery/http/handlers/role_handler.go:118 | the expression as written equals the ceiling whenever total + size - 1 fits an int64 |
| Pagination.ListMetaOf | internal/delivery/http/handlers/role_handler.go:112-120 | the meta object carries the page, size and total, and a total_page that is the ceiling of total / size |
| Common.EqualFoldIsLowerEquality | internal/delivery/http/middleware/auth_middleware.go:250 | strings.EqualFold on ASCII names is equality after lower-casing |
| Common.EqualFoldIgnoresCase | internal/delivery/http/middleware/auth_middleware.go:250 | lower-casing either side does not change EqualFold |
| Common.SplitJoin | internal/delivery/http/middleware/auth_middleware.go:54 | strings.Split on a separator inverts joining parts that do not contain it |
| Caching.Cache.Get | pkg/cache/cache.go:35-37 | a hit returns the stored entry; a missing key and a failing call are both a miss |
| Caching.Cache.Set | pkg/cache/cache.go:39-45 | the entry becomes the value unless the call fails, and nothing else changes |
| Caching.Cache.Delete | pkg/cache/cache.go:47-49 | the entry is gone unless the call fails, and nothing else changes |
| Caching.Cache.Expire | pkg/cache/cache.go:39-45 | the end of an entry's time to live removes just that entry |
| Store.RolesOfUser | domain/repositories/role_repository.go:98-104 | the roles joined to the user through user_roles, distinct when role ids are |
| Store.PermissionsOfRoles | domain/repositories/role_repository.go:106-115 | the permissions joined to any of the roles, each once |
| Store.NewLinks | domain/repositories/user_repository.go:82-103 | Association Append adds one join row per new distinct target of the owner and no repeats |
| Store.ReplaceTargets | domain/repositories/role_repository.go:75-96 | after Clear then Append the owner is linked to exactly the targets, and every other owner's links are unchanged |
| Store.ReplaceTargetsNoRepeats | domain/repositories/role_repository.go:75-96 | replacing an association keeps join rows unique |
| Store.FirstUnknown | domain/repositories/role_repository.go:85-90 | none exactly when every id names a row; otherwise an unknown id all of whose predecessors are stored |
| Store.StubInsertOnce | domain/repositories/role_repository.go:85-90 | saving the blank-named stubs with ON CONFLICT DO NOTHING adds only the first unknown id's stub, and only when no row has the blank unique name |
| Store.HasKeyAppend | domain/repositories/role_repository.go:85-90 | a row of the table with one row appended has a key exactly when an old row or the new one has it |
| Store.StubsResolve | domain/repositories/role_repository.go:75-96 | after the stubs every listed id names a row exactly when at most one distinct id was unknown and, if one was, the blank name was free |
| Store.StubInsertDistinct | domain/repositories/role_repository.go:85-90 | saving the stubs keeps ids and unique names distinct |
| Store.UpsertUnique | domain/repositories/role_repository.go:67-69 | a Save that meets no holder of its unique value keeps the column unique |
| Store.NotHeldByOther | internal/usecase/role_usecase.go:85-96 | a saved stored row that keeps its unique value, or moves to a free one, meets no other holder |
| Store.RemoveKeyUnique | domain/repositories/role_repository.go:71-73 | a delete keeps a unique column unique |
| RoleRepository.FindByID | domain/repositories/role_repository.go:34-40 | found exactly when a role has the id; the result is that role with exactly its joined permissions preloaded |
| RoleRepository.FindByName | domain/repositories/role_repository.go:42-48 | the first role of that name, or none exactly when no role has it |
| RoleRepository.FindAll | domain/repositories/role_repository.go:50-65 | the total is the row count, the items are the roles of the page, and each carries exactly the stored permissions linked to it and no users |
| RoleRepository.WithPermissionsExact | domain/repositories/role_repository.go:60 | Preload("Permissions") gives exactly the stored permissions the role links to |
| RoleRepository.FindRolesByUserID | domain/repositories/role_repository.go:98-104 | exactly the user's joined roles, each with no preloaded users or permissions |
| RoleRepository.FindPermissionsByRoleIDs | domain/repositories/role_repository.go:106-115 | exactly the permissions joined to one of the roles, each once; none for no roles |
| RoleRepository.Create | domain/repositories/role_repository.go:30-32 | an error exactly when the id or the unique name is taken, then a duplicate-key error with nothing written; otherwise the role is appended; unique names stay unique |
| RoleRepository.Update | domain/repositories/role_repository.go:67-69 | an error exactly when another role holds the name (unique column), then a duplicate-key error with nothing written; otherwise Save replaces the row with that id, or adds it; unique names stay unique |
| RoleRepository.Delete | domain/repositories/role_repository.go:71-73 | the row with that id is removed; a missing id is no error |
| RoleRepository.AssignPermissions | domain/repositories/role_repository.go:75-96 | success exactly without a fault and when the join rows meet both foreign keys once the permission stubs are saved; a foreign-key failure is reported as such; on success the stubs are saved and the role's links replaced; any failure rolls back both tables; unique names stay unique |
| RoleRepository.AssignedPermissionsExact | domain/repositories/role_repository.go:75-96 | after assigning, the role has exactly the listed permissions among the table (with the stubs saved), and every other role's permissions are unchanged |
| RoleRepository.StubbedPermissions | domain/repositories/role_repository.go:85-90 | the permissions table gains the blank stub of the first unknown id exactly when no permission has the blank name, and keeps ids and names distinct |
| RoleRepository.PermissionsLinkableIff | domain/repositories/role_repository.go:75-96 | the foreign keys hold exactly when the role is stored (for a non-empty list), at most one distinct id is unknown, and then the blank name is free |
| RoleRepository.UnknownPermissionGranted | domain/repositories/role_repository.go:75-96 | an unknown id that gets through is granted as a blank-named permission of that id |
| UserRepository.WithRoles | domain/repositories/user_repository.go:33-39 | the user with exactly its joined roles preloaded |
| UserRepository.FindByID | domain/repositories/user_repository.go:33-39 | a stored user of that id with its roles, or none exactly when no user has the id |
| UserRepository.FindByEmail | domain/repositories/user_repository.go:41-47 | the first user of that email with its roles, or none exactly when no user has it |
| UserRepository.FindByUsername | domain/repositories/user_repository.go:49-55 | the first user of that username with its roles, or none exactly when no user has it |
| UserRepository.FindByIDStored | domain/repositories/user_repository.go:33-39 | with unique ids, FindByID finds exactly the stored user |
| UserRepository.FindAll | domain/repositories/user_repository.go:57-72 | the total is the row count; the items are the page's users with their roles, in order |
| UserRepository.Create | domain/repositories/user_repository.go:29-31 | a taken id is a duplicate-key error, a role id left unresolved by the stubs a foreign-key error, both writing nothing; otherwise the user is appended, the role stubs saved and its user_roles links appended |
| UserRepository.Update | domain/repositories/user_repository.go:74-76 | Save replaces the row with that id, or adds it |
| UserRepository.Delete | domain/repositories/user_repository.go:78-80 | the row with that id is removed |
| UserRepository.AssignRoles | domain/repositories/user_repository.go:82-103 | success exactly without a fault and when the user_roles rows meet both foreign keys once the role stubs are saved; a foreign-key failure is reported as such; on success the stubs are saved and the links replaced; a failure rolls back both tables |
| UserRepository.AssignedRolesExact | domain/repositories/user_repository.go:82-103 | after assigning, the user holds exactly the listed roles among the table (with the stubs saved), and every other user keeps its roles |
| UserRepository.StubbedRoles | domain/repositories/user_repository.go:92-97 | the roles table gains the blank stub of the first unknown id exactly when no role has the blank name, and keeps ids and names distinct |
| UserRepository.RolesLinkableIff | domain/repositories/user_repository.go:82-103 | the foreign keys hold exactly when the user is stored (for a non-empty list), at most one distinct id is unknown, and then the blank name is free |
| UserRepository.UnknownRoleAssigned | domain/repositories/user_repository.go:82-103 | an unknown role id that gets through is assigned as a blank-named role of that id |
| PermissionRepository.FindByID | domain/repositories/permission_repository.go:31-37 | a stored permission of that id, or none exactly when there is none |
| PermissionRepository.FindByName | domain/repositories/permission_repository.go:39-45 | the first permission of that name, or none exactly when there is none |
| PermissionRepository.FindAll | domain/repositories/permission_repository.go:47-62 | the total is the row count, the items are exactly the rows of the page (offset (page-1)*size, at most size of them), all stored |
| PermissionRepository.Create | domain/repositories/permission_repository.go:27-29 | an error exactly when the id or the unique name is taken, then a duplicate-key error with nothing written; otherwise the permission is appended; unique names stay unique |
| PermissionRepository.Update | domain/repositories/permission_repository.go:64-66 | an error exactly when another permission holds the name, then a duplicate-key error with nothing written; otherwise Save replaces the row with that id, or adds it; unique names stay unique |
| PermissionRepository.Delete | domain/repositories/permission_repository.go:68-70 | the row with that id is removed |
| ModelPermissionRepository.WithPermission | domain/repositories/model_permission_repository.go:32-38 | the grant with its preloaded permission, or the zero permission when none has that id |
| ModelPermissionRepository.FindByID | domain/repositories/model_permission_repository.go:32-38 | a stored grant of that id, or none exactly when there is none |
| ModelPermissionRepository.FindByModelTypeAndModelID | domain/repositories/model_permission_repository.go:40-46 | exactly the grants on that model type and instance |
| ModelPermissionRepository.FindAll | domain/repositories/model_permission_repository.go:48-63 | the total is the row count and the items are the grants of the page |
| ModelPermissionRepository.CountGrants | domain/repositories/model_permission_repository.go:73-80 | the count is positive exactly when some grant matches type, instance and permission |
| ModelPermissionRepository.CheckPermission | domain/repositories/model_permission_repository.go:73-80 | true exactly when some grant matches type, instance and permission |
| ModelPermissionRepository.CheckAfterCreate | domain/repositories/model_permission_repository.go:28-30 | after a create the check holds exactly when it held before or the new grant matches |
| ModelPermissionRepository.CheckAfterDelete | domain/repositories/model_permission_repository.go:69-71 | after a delete the check holds exactly when a grant with another id matches |
| ModelPermissionRepository.Create | domain/repositories/model_permission_repository.go:28-30 | a taken id is a duplicate-key error, then a permission id that names no permission a foreign-key error, neither writing anything; otherwise the grant is appended |
| ModelPermissionRepository.Update | domain/repositories/model_permission_repository.go:65-67 | a permission id that names no permission is a foreign-key error with nothing written; otherwise Save replaces the row with that id, or adds it |
| ModelPermissionRepository.Delete | domain/repositories/model_permission_repository.go:69-71 | the row with that id is removed |
| MenuRepository.ChildrenOf | domain/repositories/menu_repository.go:36-42 | exactly the menus whose parent is the id |
| MenuRepository.Load | domain/repositories/menu_repository.go:36-42 | the menu with its children, and its parent only when it has a stored one |
| MenuRepository.FindByIDAsWritten | domain/repositories/menu_repository.go:36-42 | as written: a stored menu of that id with no parent and no children, or none exactly when there is none |
| MenuRepository.FindByID | domain/repositories/menu_repository.go:36-42 | corrected: a stored menu of that id with its parent and children loaded, as the use case's reloads expect, or none exactly when there is none |
| MenuRepository.FindByName | domain/repositories/menu_repository.go:44-50 | the first menu of that name, or none exactly when there is none |
| MenuRepository.FindAll | domain/repositories/menu_repository.go:52-67 | the total is the row count and the items are the menus of the page |
| MenuRepository.SortBySequence | domain/repositories/menu_repository.go:72 | ORDER BY sequence is a permutation of the rows |
| MenuRepository.SortSorted | domain/repositories/menu_repository.go:72 | and is ordered by sequence |
| MenuRepository.SortKeepsRows | domain/repositories/menu_repository.go:72 | sorting keeps exactly the rows it was given |
| MenuRepository.FindAllActive | domain/repositories/menu_repository.go:69-76 | a permutation of the active menus, ordered by sequence |
| MenuRepository.Create | domain/repositories/menu_repository.go:32-34 | an error exactly when the id or name is taken (duplicate-key) or the parent is neither stored nor the menu itself (foreign-key), with nothing written; otherwise the menu is appended; unique names stay unique |
| MenuRepository.Update | domain/repositories/menu_repository.go:95-97 | an error exactly when another menu holds the name (duplicate-key) or the parent is not stored after the save (foreign-key), with nothing written; otherwise Save replaces the row with that id, or adds it |
| MenuRepository.Delete | domain/repositories/menu_repository.go:99-101 | the row with that id is removed |
| MenuRepository.JoinedMenus | domain/repositories/menu_repository.go:103-124 | every joined menu is listed and named by a kept grant, and with unique ids every such menu is joined |
| MenuRepository.MenuBySuperUser | domain/repositories/menu_repository.go:126-134 | ordered by sequence; exactly the listed menus some grant names (complete with unique ids) |
| MenuRepository.FindMenusByRoleID | domain/repositories/menu_repository.go:103-124 | ordered by sequence; exactly the listed menus granted to a permission of the role (complete with unique ids) |
| UserMetaRepository.FindByUserID | domain/repositories/user_meta_repository.go:32-38 | exactly the user's rows |
| UserMetaRepository.FindByUserIDAndKey | domain/repositories/user_meta_repository.go:40-46 | a row of that user and key, or none exactly when there is none |
| UserMetaRepository.MetaMapKeys | domain/repositories/user_meta_repository.go:62-65 | the folded map has a key exactly when a row has it |
| UserMetaRepository.MetaMapLastWins | domain/repositories/user_meta_repository.go:62-65 | a key's value in the map is that of its last row |
| UserMetaRepository.GetAllByUserID | domain/repositories/user_meta_repository.go:56-67 | the loop yields the map of the user's rows, or the query error |
| UserMetaRepository.Create | domain/repositories/user_meta_repository.go:28-30 | a row with the next serial id is appended, or the insert fails with nothing written |
| UserMetaRepository.Update | domain/repositories/user_meta_repository.go:48-50 | Save replaces the row with that id, or fails with nothing written |
| UserMetaRepository.Delete | domain/repositories/user_meta_repository.go:52-54 | the row with that id is removed, or the delete fails with nothing written |
| UserMetaRepository.SaveValue | internal/usecase/auth_usecase.go:377-403 | without a row for the pair, a row with the next id is appended |
| UserMetaRepository.SaveValueReadsBack | internal/usecase/auth_usecase.go:377-403 | a save binds the key to the value in the user's map, keeps one row for the pair, and changes no other user's rows |
| UserMetaRepository.SaveValueKeepsOthers | internal/usecase/auth_usecase.go:377-403 | a save never changes another user's rows |
| UserMetaRepository.RemoveRowReadsBack | internal/usecase/user_meta_usecase.go:131-147 | removing a pair's single row drops its key from the user's map and changes no other user's rows |
| SettingRepository.FindByKey | domain/repositories/setting_repository.go:31-37 | a stored setting of that key, or none exactly when there is none |
| SettingRepository.FindAll | domain/repositories/setting_repository.go:39-45 | every row in table order, or the query error |
| SettingRepository.Upsert | domain/repositories/setting_repository.go:55-57 | Save replaces the row with that key, or adds it; a failure writes nothing |
| SettingRepository.Delete | domain/repositories/setting_repository.go:51-53 | the row with that key is removed; a failure writes nothing |
| SettingRepository.SettingsMapKeys | internal/usecase/setting_usecase.go:122-133 | the settings map has a key exactly when a row has it |
| SettingRepository.SettingsMapValues | internal/usecase/setting_usecase.go:122-133 | with unique keys the map gives each row's value |
| SettingRepository.UpsertSettingsMap | domain/repositories/setting_repository.go:55-57 | a save binds the key to the value in the map and leaves the others |
| SettingRepository.UpsertSettingsKey | domain/repositories/setting_repository.go:55-57 | after a save the map has a key exactly when it had it before or it is the saved key |
| SettingRepository.UpsertSettingsValue | domain/repositories/setting_repository.go:55-57 | with unique keys, after a save the saved key maps to the saved value |
| SettingRepository.UpsertSettingsOther | domain/repositories/setting_repository.go:55-57 | with unique keys, a save leaves every other key's value as it was |
| SettingRepository.RemoveSettingsMap | domain/repositories/setting_repository.go:51-53 | a delete removes the key from the map and leaves the others |
| RoleUseCase.ResponseOf | internal/usecase/role_usecase.go:144-175 | the role's fields and one entry per loaded user and permission, in order |
| RoleUseCase.MapToRoleResponse | internal/usecase/role_usecase.go:144-175 | the mapping loops build that response |
| RoleUseCase.MapAll | internal/usecase/role_usecase.go:64-76 | the list loop maps every role, in order |
| RoleUseCase.Create | internal/usecase/role_usecase.go:35-53 | a taken name is refused, then a taken id; otherwise the role is appended and answered bare; unique names stay unique |
| RoleUseCase.RoleById | internal/usecase/role_usecase.go:55-62 | not found exactly when no role has the id; otherwise the stored role's name and description with exactly its joined permissions: every linked stored permission appears and every entry is one |
| RoleUseCase.GetByID | internal/usecase/role_usecase.go:55-62 | the method answers what RoleById gives |
| RoleUseCase.GetAll | internal/usecase/role_usecase.go:64-76 | the responses of the page's roles in order, each with its role's name and description, no users, and exactly the stored permissions linked to it; and the row count |
| RoleUseCase.ResponseAnswersLinked | internal/usecase/role_usecase.go:144-175 | mapping a role loaded with exactly its linked permissions answers exactly those, as (id, name) entries |
| RoleUseCase.GetUserRoles | internal/usecase/role_usecase.go:130-142 | the user's roles, with no associations loaded |
| RoleUseCase.Merge | internal/usecase/role_usecase.go:85-96 | each non-empty request field replaces the stored one |
| RoleUseCase.MergeLaws | internal/usecase/role_usecase.go:85-96 | an empty request changes nothing, and applying a request twice equals applying it once |
| RoleUseCase.Update | internal/usecase/role_usecase.go:78-103 | an unknown id, then a name held by another role (the use case's lookup, then the unique column) are errors with nothing written; otherwise the merged role is saved and answered; with unique names a request that passes that lookup succeeds, and names stay unique |
| RoleUseCase.Delete | internal/usecase/role_usecase.go:105-107 | the role's row is removed |
| RoleUseCase.AssignPermissions | internal/usecase/role_usecase.go:109-128 | a missing role is not-found, a fault or an unresolved foreign key an error (the foreign-key one named), all with nothing written; otherwise the stubs are saved, the links replaced, and the reloaded role has an entry for every listed id and every listed stored permission |
| PermissionUseCase.ResponseOf | internal/usecase/permission_usecase.go:105-113 | the id, name and description are kept |
| PermissionUseCase.ResponseOfInjective | internal/usecase/permission_usecase.go:105-113 | the mapping loses nothing: equal responses come from equal permissions |
| PermissionUseCase.MapAll | internal/usecase/permission_usecase.go:60-72 | the list loop maps every permission, in order |
| PermissionUseCase.Create | internal/usecase/permission_usecase.go:31-49 | a taken name is refused, then a taken id; otherwise the permission is appended and answered; unique names stay unique |
| PermissionUseCase.PermissionById | internal/usecase/permission_usecase.go:51-58 | not found exactly when no permission has the id; otherwise the response of that stored permission |
| PermissionUseCase.GetAll | internal/usecase/permission_usecase.go:60-72 | exactly the responses of the page's rows in order, at most size of them, and the row count |
| PermissionUseCase.Merge | internal/usecase/permission_usecase.go:81-92 | each non-empty request field replaces the stored one |
| PermissionUseCase.MergeLaws | internal/usecase/permission_usecase.go:81-92 | an empty request changes nothing, and a request applied twice changes nothing more |
| PermissionUseCase.Update | internal/usecase/permission_usecase.go:74-99 | an unknown id, then a name the use case's lookup refuses, then one the unique column refuses, are errors with nothing written; otherwise the merged row is saved and answered; with unique names a request that passes that lookup succeeds |
| PermissionUseCase.Delete | internal/usecase/permission_usecase.go:101-103 | the permission's row is removed |
| MenuUseCase.SimpleResponse | internal/usecase/menu_usecase.go:168-183 | the row's own fields, with no parent and no children |
| MenuUseCase.ResponseOf | internal/usecase/menu_usecase.go:185-220 | the row's fields, the parent exactly when one was loaded, and one entry per child in order |
| MenuUseCase.MapToMenuResponse | internal/usecase/menu_usecase.go:185-220 | the mapping loop builds that response |
| MenuUseCase.NewMenu | internal/usecase/menu_usecase.go:39-47 | the request's fields, active and not visible |
| MenuUseCase.Create | internal/usecase/menu_usecase.go:32-61 | corrected reload: a taken name is refused, then a taken id, then a parent that is not stored, each with nothing written; otherwise the new menu is appended and answered with its parent and children loaded; unique names and stored parents are kept |
| MenuUseCase.MenuById | internal/usecase/menu_usecase.go:63-70 | corrected lookup: not found exactly when no menu has the id; otherwise the response of that stored menu with its parent and children loaded |
| MenuUseCase.GetByID | internal/usecase/menu_usecase.go:63-70 | corrected lookup: the method answers what MenuById gives |
| MenuUseCase.MapAll | internal/usecase/menu_usecase.go:72-84 | the list loop maps every menu, in order |
| MenuUseCase.GetAll | internal/usecase/menu_usecase.go:72-84 | the simple responses of the page and the row count |
| MenuUseCase.GetAllActive | internal/usecase/menu_usecase.go:86-98 | only active menus, in sequence order, every active menu included |
| MenuUseCase.Merge | internal/usecase/menu_usecase.go:107-137 | each provided field replaces the stored one; visibility and id are kept |
| MenuUseCase.EmptyRequestKeepsMenu | internal/usecase/menu_usecase.go:107-137 | a request with every field empty changes nothing |
| MenuUseCase.MergeIdempotent | internal/usecase/menu_usecase.go:107-137 | applying a request twice equals applying it once |
| MenuUseCase.ApplyRequest | internal/usecase/menu_usecase.go:107-137 | the field-by-field assignments compute Merge |
| MenuUseCase.ApplyTexts | internal/usecase/menu_usecase.go:112-125 | each non-empty name, url, icon and description replaces the stored one |
| MenuUseCase.ApplyChoices | internal/usecase/menu_usecase.go:127-137 | a given parent, sequence and active flag replace the stored ones |
| MenuUseCase.Update | internal/usecase/menu_usecase.go:100-151 | corrected reload: an unknown id, then a name the use case's lookup refuses, then one the unique column refuses, then a parent not stored, are errors with nothing written; otherwise the merged menu is saved and answered as MenuById then gives; unique names and stored parents are kept |
| MenuUseCase.InsertKeepsParents | domain/entities/menu.go:16-18 | an insert whose parent is stored keeps every menu's parent stored |
| MenuUseCase.SaveKeepsParents | domain/entities/menu.go:16-18 | a save whose parent is stored afterwards keeps every menu's parent stored |
| MenuUseCase.SaveAndReload | internal/usecase/menu_usecase.go:139-150 | the save meets the unique name, then the parent key; otherwise the row is saved and reloaded; with unique names no duplicate-key error |
| MenuUseCase.DeleteAsWritten | internal/usecase/menu_usecase.go:153-166 | as written: a missing menu is not-found, and any stored menu is removed, children or not |
| MenuUseCase.DeleteOrphansAsWritten | internal/usecase/menu_usecase.go:159-162 | as written, a menu with a child passes the children check and deleting it leaves the child's parent missing; the corrected lookup sees the child |
| MenuUseCase.Delete | internal/usecase/menu_usecase.go:153-166 | corrected: a missing menu and a menu with children are refused with nothing deleted; otherwise the row is removed; every parent a menu names stays stored |
| AuthUseCase.RoleList | internal/usecase/auth_usecase.go:101-108 | a user without roles gets a nil list; otherwise one (id, name) per role, in order |
| AuthUseCase.LoginUser | internal/usecase/auth_usecase.go:89-98 | the user's own fields and roles; no name, avatar or privileges; the superuser flag not copied |
| AuthUseCase.Login | internal/usecase/auth_usecase.go:59-114 | an unknown username, then a deactivated user, then a wrong password are refused; otherwise a token pair for that user |
| AuthUseCase.LoginSucceedsExactly | internal/usecase/auth_usecase.go:61-74 | with unique usernames, login succeeds exactly when an active user of that name has a password the check accepts |
| AuthUseCase.LoginTokenAuthenticates | internal/usecase/auth_usecase.go:59-114 | the access token of a login passes RequireAuth as that user before it expires, and the refresh token validates exactly before its exp |
| AuthUseCase.NewUser | internal/usecase/auth_usecase.go:134-141 | the request's fields and the hash, active and not a superuser |
| AuthUseCase.RegisteredResponse | internal/usecase/auth_usecase.go:148-157 | the new row's fields with no roles list, name or avatar |
| AuthUseCase.Register | internal/usecase/auth_usecase.go:116-158 | a taken email before a taken username, then a hash error, then a taken id, with no user written; otherwise the user is appended; no roles or links are touched; logins stay unique |
| AuthUseCase.GetUserPermissions | internal/usecase/auth_usecase.go:160-180 | exactly the stored permissions linked to one of the user's roles, each once |
| AuthUseCase.RoleIdsReach | internal/usecase/auth_usecase.go:167-172 | a permission is granted to one of the collected role ids exactly when one of the user's roles links to it |
| AuthUseCase.GrantOf | internal/usecase/auth_usecase.go:184-188 | the grant row carries the request's model type, instance and permission |
| AuthUseCase.GrantResponse | internal/usecase/auth_usecase.go:201-211 | the answer carries the grant's fields and its permission's id and name |
| AuthUseCase.CreateModelPermissionAsWritten | internal/usecase/auth_usecase.go:182-213 | as written the row gets the zero uuid: a stored zero-id row makes it a duplicate-key error, an unknown permission a foreign-key error; otherwise the zero-id grant is appended |
| AuthUseCase.TwoGrantsAsWritten | internal/usecase/auth_usecase.go:182-213 | once the first grant created as written succeeds (or a zero-id row was stored), the second is a duplicate-key error |
| AuthUseCase.CreateModelPermission | internal/usecase/auth_usecase.go:182-213 | corrected: a taken fresh id is a duplicate-key error, an unknown permission a foreign-key error; otherwise the grant is stored and answered and CheckPermission then finds it |
| AuthUseCase.TwoGrants | internal/usecase/auth_usecase.go:182-213 | corrected: with fresh distinct ids and stored permissions both grants are stored and both found |
| AuthUseCase.GetModelPermissions | internal/usecase/auth_usecase.go:215-239 | one answer per grant on the model instance in order, and every such grant is answered |
| AuthUseCase.GrantResponsesCover | internal/usecase/auth_usecase.go:215-239 | every answer is on the model instance, and every stored grant on it is answered |
| AuthUseCase.ReachedIdsMembers | internal/usecase/auth_usecase.go:329-342 | an id is collected exactly when it is a menu of one of the roles whose query succeeds |
| AuthUseCase.ReachedMenuIdsExactly | internal/usecase/auth_usecase.go:322-342 | without failures a user reaches a menu id exactly when a listed menu of that id is granted to a permission of one of the user's roles |
| AuthUseCase.ReachedSound | internal/usecase/auth_usecase.go:322-342 | every collected id is of a listed menu granted to one of the user's roles |
| AuthUseCase.ReachedComplete | internal/usecase/auth_usecase.go:322-342 | every such menu has its id collected |
| AuthUseCase.RoleMenuIdSound | internal/usecase/auth_usecase.go:334-341 | every id of one role's menus is of a listed menu granted to that role |
| AuthUseCase.RoleMenuIdComplete | internal/usecase/auth_usecase.go:334-341 | with unique ids, every listed menu granted to the role has its id among them |
| AuthUseCase.GetPrivilegesForUser | internal/usecase/auth_usecase.go:291-375 | an unknown user and a failing query are errors; a superuser gets the superuser menus; any other user gets each reached menu once, in some order |
| AuthUseCase.PrivilegesOfMenus | internal/usecase/auth_usecase.go:300-320 | the superuser loop yields one entry per menu, in order |
| AuthUseCase.CollectMenuIds | internal/usecase/auth_usecase.go:329-342 | the role loop collects every menu id of every role whose query succeeds |
| AuthUseCase.AppendMenuIds | internal/usecase/auth_usecase.go:339-341 | the inner loop appends the ids of a role's menus in order |
| AuthUseCase.PrivilegeListSkip | internal/usecase/auth_usecase.go:351-372 | an id with no stored menu adds nothing |
| AuthUseCase.PrivilegeListAdd | internal/usecase/auth_usecase.go:351-372 | a found menu adds its single entry |
| AuthUseCase.PrivilegesOfIds | internal/usecase/auth_usecase.go:345-372 | the map loop gives one entry per id whose lookup succeeds, each once |
| AuthUseCase.TakeId | internal/usecase/auth_usecase.go:351-372 | one map entry keeps the list one entry per id visited whose lookup succeeds |
| AuthUseCase.ProfileOf | internal/usecase/auth_usecase.go:252-274 | the login answer with the display name and gravatar address filled in |
| AuthUseCase.GetUser | internal/usecase/auth_usecase.go:245-289 | an unknown user is refused; otherwise the profile, the given token with an empty refresh token, and the privileges, empty when their lookup fails |
| AuthUseCase.CreateMetaData | internal/usecase/auth_usecase.go:377-403 | an error exactly when the lookup or the write fails, with nothing written; otherwise the pair's row takes the value or a row is created |
| AuthUseCase.CreateMetaDataReadsBack | internal/usecase/auth_usecase.go:377-403 | afterwards the user's map binds the key to the value |
| AuthUseCase.GetMetaData | internal/usecase/auth_usecase.go:405-420 | one answer per row of the user, in order, or the query error |
| UserUseCase.Written | internal/usecase/user_usecase.go:185-214 | the values of the visited keys whose writes succeed |
| UserUseCase.MetaStepProps | internal/usecase/user_usecase.go:187-212 | one loop step binds the key to its value unless its write fails, and no other user's rows change |
| UserUseCase.MetaStepsReadBack | internal/usecase/user_usecase.go:185-214 | the whole loop adds exactly the successfully written values to the user's map |
| UserUseCase.MetaStepsSound | internal/usecase/user_usecase.go:185-214 | the loop keeps row ids sound and never touches another user's rows |
| UserUseCase.EmptyValueDuplicates | internal/usecase/user_usecase.go:194 | a stored empty value counts as absent, so the loop adds a second row for the pair |
| UserUseCase.KeptValues | internal/usecase/user_usecase.go:78-90 | the request's values whose writes succeed |
| UserUseCase.SaveMetaData | internal/usecase/user_usecase.go:78-90 | the meta loop visits every key once, in an order left open, and its result is MetaOutcome for that order |
| UserUseCase.CreateMetaData | internal/usecase/user_usecase.go:78-90 | the metadata of a new user: every key visited once, ending in MetaOutcome |
| UserUseCase.SaveMetaKey | internal/usecase/user_usecase.go:187-212 | one pass of the loop body is one step |
| UserUseCase.LoopOutcome | internal/usecase/user_usecase.go:185-214 | a loop that visits every key once ends in MetaOutcome |
| UserUseCase.UserResponseOf | internal/usecase/user_usecase.go:245-273 | the user's fields, a roles list present even when empty, no privileges, the gravatar address |
| UserUseCase.MapToUserResponse | internal/usecase/user_usecase.go:245-273 | the mapping loop builds that response |
| UserUseCase.NewUser | internal/usecase/user_usecase.go:57-64 | the request's fields and the hash, active and not a superuser |
| UserUseCase.Create | internal/usecase/user_usecase.go:39-100 | a taken email, then username, then a hash error, then a taken id, then a role id the stubs leave unresolved are errors with nothing written; otherwise the user is appended, the role stubs saved, its links appended and every metadata key written; logins stay unique |
| UserUseCase.Merge | internal/usecase/user_usecase.go:132-166 | each non-empty field replaces the stored one, a password gives the new hash, and active applies when given |
| UserUseCase.MergeIdempotent | internal/usecase/user_usecase.go:132-166 | applying a request twice equals applying it once |
| UserUseCase.MergeEmpty | internal/usecase/user_usecase.go:132-166 | an empty request leaves the user as stored |
| UserUseCase.ExistingMeta | internal/usecase/user_usecase.go:186-190 | the user's map, or nothing when that query fails |
| UserUseCase.MergeRequest | internal/usecase/user_usecase.go:132-166 | a username held by another user is refused, then an email, then a failing hash; otherwise the merged user |
| UserUseCase.SaveUpdate | internal/usecase/user_usecase.go:169-214 | the row is saved; listed roles replace the user's links with the role stubs saved, and a failure there (fault or foreign key) is reported after the save with no role or link changed; then the meta loop |
| UserUseCase.ReplaceRoles | internal/usecase/user_usecase.go:173-183 | an error exactly when the list is non-empty and a step fails or a foreign key is unresolved, with no role or link changed; otherwise the stubs are saved, the links replaced and the user reloaded |
| UserUseCase.Update | internal/usecase/user_usecase.go:125-218 | the user must exist and pass the login and hash checks with nothing written, then the row, roles (stubs and links) and metadata are written as SaveUpdate states; logins stay unique |
| UserUseCase.SavedLoginsUnique | internal/usecase/user_usecase.go:132-169 | saving a merged user whose new username and email nobody else holds keeps logins unique |
| UserUseCase.Delete | internal/usecase/user_usecase.go:220-222 | the user's row is removed |
| UserUseCase.DeleteForgets | internal/usecase/user_usecase.go:220-222 | afterwards the user is not found and every other user is found as before |
| UserUseCase.AssignRoles | internal/usecase/user_usecase.go:224-243 | the user must exist; a fault or an unresolved foreign key is an error with nothing written; otherwise the stubs are saved, the links replaced, and the answer carries exactly the listed roles of the table, one for every listed id |
| UserUseCase.GetByID | internal/usecase/user_usecase.go:102-109 | the stored user with its roles, found exactly when a user has the id |
| UserUseCase.GetAll | internal/usecase/user_usecase.go:111-123 | the answers for the page's users in order, and the row count |
| UserUseCase.ResponsesOf | internal/usecase/user_usecase.go:117-120 | one answer per user, in order |
| UserUseCase.GetUserWithMeta | internal/usecase/user_usecase.go:275-292 | the user's answer with its metadata map, empty when that query fails |
| UserMetaUseCase.MetaCacheKey | internal/usecase/user_meta_usecase.go:149-151 | "user_meta:" followed by the 36-character UUID text |
| UserMetaUseCase.MetaCacheKeyInjective | internal/usecase/user_meta_usecase.go:149-151 | distinct users get distinct cache keys |
| UserMetaUseCase.MetaCacheKeyNotSettings | internal/usecase/user_meta_usecase.go:149-151 | no user's key is the settings key |
| UserMetaUseCase.FlushedWriteCoherent | internal/usecase/user_meta_usecase.go:62-65 | a write for one user followed by removing that user's copy keeps every copy coherent |
| UserMetaUseCase.CreateOrUpdate | internal/usecase/user_meta_usecase.go:37-68 | a failing lookup or write is reported with nothing changed; otherwise the value is saved and the user's copy removed; coherence is kept unless that removal fails |
| UserMetaUseCase.UpdateUserMetaCache | internal/usecase/user_meta_usecase.go:153-161 | the user's map is cached unless a call fails; coherence is kept |
| UserMetaUseCase.CachedCopyCoherent | internal/usecase/user_meta_usecase.go:153-161 | caching a user's map keeps every copy coherent |
| UserMetaUseCase.GetByKey | internal/usecase/user_meta_usecase.go:70-104 | a cached hit answers with id 0 and the nil user; otherwise the pair's row or not-found, and a refresh; with a single row and a coherent copy the answer is the map's value |
| UserMetaUseCase.GetAllByUserID | internal/usecase/user_meta_usecase.go:106-129 | the cached copy, or the user's map, which is then cached; with a coherent copy the answer is the table's map |
| UserMetaUseCase.Delete | internal/usecase/user_meta_usecase.go:131-147 | no row is not-found with nothing changed; otherwise the row is removed, the key leaves the map, and the user's copy is removed |
| UserMetaUseCase.RemoveRowKeepsOthers | internal/usecase/user_meta_usecase.go:131-147 | removing a row never changes another user's rows |
| UserMetaUseCase.Expire | internal/usecase/user_meta_usecase.go:126 | an expiring copy keeps every copy coherent |
| UserMetaUseCase.UnflushedWriteIsStale | internal/usecase/auth_usecase.go:377-403 | a save that changes a value without removing the user's copy leaves a coherent copy stale |
| UserMetaUseCase.DuplicateRowsDisagree | internal/usecase/user_meta_usecase.go:70-104 | with two rows for a key the table answers the first value and the cached map the last |
| SettingUseCase.CreateOrUpdate | internal/usecase/setting_usecase.go:34-49 | the setting is saved and the copy removed; the map binds the key to the value; coherence is kept unless the removal fails |
| SettingUseCase.UpdateSettingsCache | internal/usecase/setting_usecase.go:122-133 | the table's map is cached unless a call fails; coherence is kept |
| SettingUseCase.MapOfSettings | internal/usecase/setting_usecase.go:99-102 | the loop builds the settings map |
| SettingUseCase.GetByKey | internal/usecase/setting_usecase.go:51-80 | a cached hit answers, otherwise the table and a refresh; with a coherent copy and unique keys it succeeds exactly for a stored key, with its value |
| SettingUseCase.GetAll | internal/usecase/setting_usecase.go:82-108 | the cached copy, or the table's map, which is then cached; with a coherent copy the answer is the table's map |
| SettingUseCase.Delete | internal/usecase/setting_usecase.go:110-120 | the row is removed and the copy too; the key leaves the map; coherence is kept unless the removal fails |
| SettingUseCase.Expire | internal/usecase/setting_usecase.go:105 | an expiring copy keeps the cache coherent |
| SettingUseCase.StaleAfterFailedRemoval | internal/usecase/setting_usecase.go:44-46 | a save that changes a value and whose cache removal fails leaves the copy stale |
| AuthMiddleware.BearerTokenShape | internal/delivery/http/middleware/auth_middleware.go:54-60 | a header yields a token exactly when it is "Bearer " and one space-free token |
| AuthMiddleware.Admit | internal/delivery/http/middleware/auth_middleware.go:72-117 | passing requires a stored active user; the context then holds the token, the user's id and exactly its roles, with no permissions preloaded |
| AuthMiddleware.LoadContext | internal/delivery/http/middleware/auth_middleware.go:87-117 | a failed role or permission query is 500 with its message; otherwise the context holds the token, the id and exactly the user's roles |
| AuthMiddleware.Authenticate | internal/delivery/http/middleware/auth_middleware.go:43-121 | passing requires "Bearer " and a valid access token of an active stored user; no refusal is "token expired" |
| AuthMiddleware.RequireAuth | internal/delivery/http/middleware/auth_middleware.go:43-121 | the method's outcome is Authenticate's |
| AuthMiddleware.AdmitUser | internal/delivery/http/middleware/auth_middleware.go:87-117 | the role-id loop computes Admit |
| AuthMiddleware.LoadUserContext | internal/delivery/http/middleware/auth_middleware.go:87-117 | the role-id loop computes LoadContext |
| AuthMiddleware.MalformedHeaderRefused | internal/delivery/http/middleware/auth_middleware.go:45-59 | any other header is 401: "token missing" when empty, "invalid token" otherwise |
| AuthMiddleware.IssuedTokenPasses | internal/delivery/http/middleware/auth_middleware.go:43-121 | a freshly issued access token of an active user passes with that user's id, roles and role permissions |
| AuthMiddleware.ExpiredTokenInvalid | internal/delivery/http/middleware/auth_middleware.go:64-69 | an expired token is refused as "invalid token" |
| AuthMiddleware.RefreshTokenRefused | internal/delivery/http/middleware/auth_middleware.go:64-69 | a refresh token is refused when the secrets differ |
| AuthMiddleware.InactiveUserForbidden | internal/delivery/http/middleware/auth_middleware.go:72-84 | a valid token of an inactive user is 403 |
| AuthMiddleware.ContextUser | internal/delivery/http/middleware/auth_middleware.go:126-144 | the guard's user is a stored user named by a uuid under "userID" |
| AuthMiddleware.Authorize | internal/delivery/http/middleware/auth_middleware.go:123-205 | no user is 401, a superuser passes, a missing roles value is 401, an unknown permission is 403 for any other user, a refusal is 401 or 403, and passing keeps the context |
| AuthMiddleware.RequirePermission | internal/delivery/http/middleware/auth_middleware.go:123-205 | the method with its two loops computes Authorize |
| AuthMiddleware.CheckEachRole | internal/delivery/http/middleware/auth_middleware.go:171-177 | the model-grant loop passes exactly when a role's CheckPermission succeeds and finds a grant |
| AuthMiddleware.HasDirectGrant | internal/delivery/http/middleware/auth_middleware.go:181-195 | the nested loop finds the permission exactly when one of the roles carries it |
| AuthMiddleware.AuthorizeWithoutLoadedPermissions | internal/delivery/http/middleware/auth_middleware.go:123-205 | with roles loaded without permissions, only a superuser or a model grant can pass |
| AuthMiddleware.DirectGrantUnusedAfterAuth | internal/delivery/http/middleware/auth_middleware.go:123-205 | behind RequireAuth a non-superuser passes exactly when the permission exists, a grant on the instance exists and a role check succeeds |
| AuthMiddleware.GrantIgnoresWhichRoles | internal/delivery/http/middleware/auth_middleware.go:169-178 | model grants are not tied to the user's roles: any two non-empty role lists answer alike |
| AuthMiddleware.AuthorizeRole | internal/delivery/http/middleware/auth_middleware.go:207-268 | no user is 401, a superuser passes, and any other user passes exactly when a role name matches a required one |
| AuthMiddleware.RequireRole | internal/delivery/http/middleware/auth_middleware.go:207-268 | the nested loops compute AuthorizeRole |
| AuthMiddleware.RoleGuardAfterAuth | internal/delivery/http/middleware/auth_middleware.go:207-268 | behind RequireAuth it passes exactly superusers and users joined to a stored role whose name matches up to case |
| AuthMiddleware.LinkedRoleMatches | internal/delivery/http/middleware/auth_middleware.go:245-258 | a list of exactly the user's roles matches exactly when one of the stored linked roles does |
| AuthMiddleware.RoleGuardIgnoresCase | internal/delivery/http/middleware/auth_middleware.go:250 | lower-casing the required names changes nothing |
| AuthMiddleware.RequireSuperuserAsWritten | internal/delivery/http/middleware/auth_middleware.go:270-291 | the type assertion panics on the uuid RequireAuth stores |
| AuthMiddleware.RequireSuperuser | internal/delivery/http/middleware/auth_middleware.go:270-291 | corrected: passes exactly a stored superuser, 401 without a user, 403 otherwise |
| AuthMiddleware.SuperuserGuardPanicsAfterAuth | internal/delivery/http/middleware/auth_middleware.go:280 | behind RequireAuth the guard as written always panics |
| AuthMiddleware.SuperuserGuardAfterAuth | internal/delivery/http/middleware/auth_middleware.go:283-287 | behind RequireAuth the corrected guard passes exactly the stored superusers |
| Handlers.Create | internal/delivery/http/handlers/role_handler.go:35-49 | a binding error or use-case error is 400 with its text; otherwise 201 with the created resource (menu and permission alike) |
| Handlers.Get | internal/delivery/http/handlers/role_handler.go:64-78 | a non-UUID id is 400 "invalid <resource> id", a failed lookup 404 "<resource> not found", otherwise 200 |
| Handlers.GetAll | internal/delivery/http/handlers/role_handler.go:92-121 | a use-case error is 500; otherwise 200 with the page's items, page, size, total and a total_page that is the ceiling (and the expression as written wherever it does not overflow) |
| Handlers.GetActive | internal/delivery/http/handlers/menu_handler.go:133-141 | 500 with the error or 200 with the menus |
| Handlers.Update | internal/delivery/http/handlers/role_handler.go:137-157 | the id is checked, then the body, then the use case, all 400; otherwise 200 with the result |
| Handlers.AssignPermissions | internal/delivery/http/handlers/role_handler.go:200-220 | 400 "invalid role id" for a bad id, 400 for any failure, 200 exactly when the id, body and use case succeed |
| Handlers.Delete | internal/delivery/http/handlers/role_handler.go:171-184 | 400 for a bad id or a use-case error; 204 with no body exactly when the id parses and the use case succeeds |
| Handlers.CanonicalIdReachesUseCase | internal/delivery/http/handlers/role_handler.go:65 | a path id in canonical UUID form reaches the use case with exactly that UUID |
| Handlers.RoleIdGuards | internal/delivery/http/handlers/role_handler.go:65-68 | the role handler's id checks answer "invalid role id" |
| Handlers.MenuIdGuards | internal/delivery/http/handlers/menu_handler.go:65-68 | the menu handler's id checks answer "invalid menu id" |
| Handlers.PermissionIdGuards | internal/delivery/http/handlers/permission_handler.go:54-57 | the permission handler's id checks answer "invalid permission id" |
| Handlers.DefaultListing | internal/delivery/http/handlers/role_handler.go:93-104 | without query values the answer is page 1 of 10 rows |
| AuthHandler.UserGuard | internal/delivery/http/handlers/auth_handler.go:79-90 | passes exactly a uuid under "userID"; no value is 401 "unauthorized", any other value 401 "invalid userID format" |
| AuthHandler.StripBearer | internal/delivery/http/handlers/auth_handler.go:189-193 | the token is what follows "Bearer " in a longer header, and empty exactly otherwise |
| AuthHandler.StripBearerOfToken | internal/delivery/http/handlers/auth_handler.go:189-193 | "Bearer " then a token yields that token |
| AuthHandler.StripBearerAgrees | internal/delivery/http/handlers/auth_handler.go:189-193 | wherever the middleware takes a token, GetUser takes the same |
| AuthHandler.StripBearerKeepsSpaces | internal/delivery/http/handlers/auth_handler.go:189-193 | for a token with a space in it, the middleware refuses "Bearer " + token while GetUser passes the token on |
| AuthHandler.AuthenticatedRequestPassesGuard | internal/delivery/http/handlers/auth_handler.go:177-193 | a request RequireAuth let through passes the user guard with an active user's id, and GetUser sees the checked token |
| AuthHandler.Login | internal/delivery/http/handlers/auth_handler.go:26-40 | a binding or use-case error is 400 with its text; otherwise 200 "Login Success" with the answer |
| AuthHandler.Register | internal/delivery/http/handlers/auth_handler.go:52-66 | 201 exactly when binding and use case succeed; otherwise 400 |
| AuthHandler.CreateModelPermission | internal/delivery/http/handlers/auth_handler.go:120-134 | 201 exactly when binding and use case succeed; otherwise 400 |
| AuthHandler.SimpleList | internal/delivery/http/handlers/auth_handler.go:97-103 | one (id, name) per permission in order; no permissions is a nil list |
| AuthHandler.AppendSimples | internal/delivery/http/handlers/auth_handler.go:97-103 | the append loop builds that list |
| AuthHandler.GetUserPermissions | internal/delivery/http/handlers/auth_handler.go:78-106 | the guard's 401, then 500 on a use-case error, otherwise 200 with the list |
| AuthHandler.GetModelPermissions | internal/delivery/http/handlers/auth_handler.go:149-172 | both query values required (400), a UUID model id (400), 500 on a use-case error, otherwise 200 |
| AuthHandler.GetUser | internal/delivery/http/handlers/auth_handler.go:175-201 | the guard's 401, then the use case with the stripped token: 500 on error, otherwise 200 "Get User <first name>" |
| AuthHandler.CreateMeta | internal/delivery/http/handlers/auth_handler.go:203-228 | the guard's 401 before the body's 400; use-case errors are 400; otherwise 200 "Create Meta Success" |
| AuthHandler.MissingUserRefused | internal/delivery/http/handlers/auth_handler.go:79-84 | without a user id every guarded handler answers 401 before anything else |
| AuthHandler.AuthenticatedGetUser | internal/delivery/http/handlers/auth_handler.go:175-201 | after RequireAuth, GetUser asks the use case with the authenticated id and the checked token |

## Left out

- Concurrency: the goroutines that refresh the caches run to completion before the answer, and no two requests interleave.
- Redis: the time to live is modelled only as an entry that may expire (`Expire`). Serialisation to JSON is idealised: a cached map reads back as the map stored.
- `Cache.Clear` (pkg/cache/cache.go:51-53) is not modelled. No core operation calls it.
- The menu entity (domain/entities/menu.go) names its columns Path, Order and Active, while its repository queries and every use case use Url, Sequence, IsActive and IsVisible. The model follows the use cases' names. `FindAllActive` orders by the Order column, which is modelled as `sequence`.
- Timestamps (`created_at`, `updated_at`, their RFC 3339 text) and logging are left out; neither decides any branch.
- GORM soft delete: roles, permissions, menus and model permissions carry `DeletedAt`, but the model's delete removes the row. A soft-deleted row keeps its id and unique name, so in the source it can still clash with a later insert, satisfy a foreign key (a join row, a menu's parent), or make a stub with its id be skipped. None of this is modelled.
- UserMetaRepository.Create and UserMetaRepository.Update: the user_metas.user_id foreign key is not checked against the users table. The `fails` parameter of the metadata writes stands for that failure, along with every other one.
- domain/entities/user.go is not part of this model. The users table is taken to have only its primary key unique. The use cases refuse a taken email or username before any write.
- Foreign keys: the model checks those AutoMigrate creates (pkg/database/postgres.go:59-67) for role_permissions, user_roles, menus.parent_id and model_permissions.permission_id. When both a unique and a foreign key fail, the duplicate-key error is the one reported.
- Failed existence lookups: the use cases treat any error of a name, email or username lookup as "not found" and go on to write (internal/usecase/user_usecase.go:41,46,134,142, auth_usecase.go:118,123, role_usecase.go:37,87, permission_usecase.go:33,83, menu_usecase.go:34,109). The model has no failure parameter on these lookups, so it does not capture a transient failure letting a taken name through. For roles, permissions and menus the unique column would still refuse the insert; for users, whose email and username are not unique in the model, the duplicate would be stored. This concerns RoleUseCase.Create and Update, PermissionUseCase.Create and Update, MenuUseCase.Create and Update, AuthUseCase.Register and UserUseCase.Create and Update. The permission guard's lookup (auth_middleware.go:161-166) answers 403 on any error, which the model's 403 for an unknown permission already gives.
- AuthMiddleware.AuthorizeRole: role names are compared with ASCII-only case folding. Go's strings.EqualFold also applies Unicode simple folding (the Kelvin sign K matches k, and non-ASCII letters fold to one another), which is not modelled.
- AuthMiddleware.RoleGuardAfterAuth: it inherits the ASCII-only folding of AuthorizeRole, so names that match only under Unicode folding are not covered.
- Jwt.GenerateTokenPair: the model reads the clock once and uses that instant for every claim. The source calls time.Now() once per claim (pkg/auth/jwt.go:40,46,58,64), so a pair's issue and expiry instants can differ by the time between those calls.
- GORM `Save` upserting the loaded associations of a struct is not modelled. `Save` writes only the row itself.
- The JWT text format (base64url JSON, HMAC-SHA256) is an injective encoding with the secret inside it. Forging a signature without the secret is outside the model.
- `uuid.Parse` is modelled on its hyphenated and bare 32-digit forms only. The `urn:uuid:` and braced forms count as refused.
- Environment variables, the clock, `uuid.New`, bcrypt hashing and checking, and the range order of a Go map are parameters.
- AuthUseCase.CheckPermission (internal/usecase/auth_usecase.go:241-243) passes straight through to ModelPermissionRepository.CheckPermission, so it has no member of its own.
- AuthHandler.GetUser: after a use-case error the source writes 500 and then goes on to dereference a nil answer (auth_handler.go:196-199). The model stops at the 500. Its body is `gin.H{"error": err}` with the error value itself, which encoding/json writes as `{}`; the model keeps the error text instead.
- AuthMiddleware.Authenticate: `constants.ErrTokenExpired` is never produced, because the source answers every token error with "invalid token".
- UserUseCase.Update: the check `existingUser.ID != id` at internal/usecase/user_usecase.go:133 and 141 is always true for the row found by id. It is modelled as "held by another user".
- SettingUseCase.SettingsCacheKey: `constants.SettingsCacheKey` is not declared in internal/constants/contranst.go. The model uses "settings", which is not of the form "user_meta:…".
- The notification, FCM, CORS and user/setting/user-meta HTTP handlers, the older `internal/user`, `repository`, `services` and `domain/handlers` packages, configuration, database setup and the dependency container are not part of this model.

## Findings

| source | as written | input that shows it | evidently intended | confidence | as-written member | corrected member |
|---|---|---|---|---|---|---|
| internal/delivery/http/handlers/role_handler.go:118 | `total_page` is `(total + pageSize - 1) / pageSize` in int64, which wraps for large page sizes | total 5, page_size 9223372036854775807: total_page 0 | the ceiling of total / page_size | not executed | Pagination.TotalPageOverflows | Pagination.TotalPage |
| internal/usecase/auth_usecase.go:184-188 | the new grant's `ID` is never set and the column has no default, so it is inserted with the zero UUID | two CreateModelPermission calls for a stored permission: the second is a duplicate-key error | each grant gets a fresh id | not executed | AuthUseCase.TwoGrantsAsWritten | AuthUseCase.TwoGrants |
| domain/repositories/menu_repository.go:36-42 | `FindByID` preloads neither `Parent` nor `Children`, so the use case's check for children at internal/usecase/menu_usecase.go:159-162 never refuses | a menu with one child: Delete removes it and the child's parent id names no menu | load the parent and children, as the reloads' comments say (Create, GetByID and Update then answer them), and refuse to delete a menu with children | not executed | MenuUseCase.DeleteOrphansAsWritten | MenuUseCase.Delete, MenuUseCase.Create, MenuUseCase.GetByID, MenuUseCase.Update |
| internal/delivery/http/middleware/auth_middleware.go:280 | `RequireSuperuser` asserts the "userID" value to a user, but RequireAuth stores a uuid there | any request that passed RequireAuth: the assertion panics | look the user up by id and check `IsSuperuser` | not executed | AuthMiddleware.SuperuserGuardPanicsAfterAuth | AuthMiddleware.SuperuserGuardAfterAuth |
