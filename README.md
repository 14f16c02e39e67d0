# Eldraxis skin cache engine in Dafny

Eldraxis is a caching proxy in front of the Minecraft identity and texture
services. For a player handle or an account id, it resolves the account, then
serves the skin (and cape) from its `file` table while the row is fresh. When
the row is missing, expired or bypassed, it fetches the textures again,
renders a 36x36 head thumbnail and upserts the row. Before serving, it
repairs rows whose stored display name collides with the resolved one. A
separate search endpoint lists cached names by substring, page by page.

The model has five modules:

- `Types`: the `file` row (`Record`), the resolved `Profile`, and the
  upstream services as lookup tables (`Upstream`). In the identity tables a
  missing key stands for a non-200 answer; in the texture table it stands
  for a failed GET. Also the constants, ASCII `str.lower()` and `int()` of a
  float as Python computes it.
- `Identity`: `getUserData`'s choice between the id and handle lookups, and
  `uuidToDashed` as four list inserts.
- `Head`: `generateHead` over `array2<Pixel>` images. Crop and
  nearest-neighbour resize are loops that fill a fresh image; the masked paste
  is a loop that updates the canvas in place. Each is proved against the pixel
  function it computes.
- `Cache`: the table as a value (`Table`) for the specification functions
  `ResolveAll` and `Serve`. The class `FileStore` holds the same table as
  fields; its methods `ResolveCollisions` and `UpdateSkinCache` update them in
  place and are proved equal to those functions. The lemmas state what a
  request and a collision pass promise.
- `Search`: the search endpoint's filter, ordering, window and counters, as
  functions over the table's rows.

Where the code behaves differently from what one might expect, the model
follows the code:

- The id pattern is matched against the raw input. An id written with dashes
  therefore never matches it and is looked up as a handle (`Identity.Classify`,
  `Identity.DashedIdIsHandle`). Python's `$` also accepts a 32-digit id
  followed by one newline.
- In a collision pass, a record that no longer resolves does not delete its
  row. The branch reads `data["id"]` of `None` and raises, so the pass stops,
  earlier repairs stay and the request fails (`Reply.Crash`). An `update`
  whose id has no row is different: Prisma's `update` then returns `None`
  without raising, so the table stays as it was and the pass goes on
  (`Cache.RepairOne`, `Cache.PassCompletes`).
- A request whose identifier does not resolve deletes nothing
  (`Cache.NotFoundLeavesStore`).
- The search fragment is not lower-cased. Where the store's `contains` is
  case-sensitive, as the model takes it, a fragment holding an upper-case
  letter finds nothing in the lower-case `nickname` column
  (`Search.UpperCaseFragmentFindsNothing`).
- A row the upsert creates gets no `valid` value from the code. It takes the
  column default, modelled as `true`; an updated row keeps its flag.

## Model

| member | source | states |
|---|---|---|
| Types.Lower | main.py:96-97 | same length; each ASCII upper-case letter becomes its lower-case letter (code + 32) and every other character is kept |
| Types.LowerIdempotent | main.py:97 | lower-casing twice equals lower-casing once |
| Types.Trunc | main.py:143 | `int()` of a float truncates toward zero: floor for non-negative input, ceiling for negative |
| Identity.IdPatternShape | main.py:74-77 | the pattern accepts exactly 32 hex digits, optionally followed by a single newline (`MatchesIdPattern`) |
| Identity.StripDashes | main.py:75 | the result holds no dash, and every other character as often as the input holds it |
| Identity.StripDashesAppend | main.py:75 | stripping a concatenation concatenates the stripped pieces, so the kept characters stay in order |
| Identity.StripDashesNoDash | main.py:75 | removing dashes from a dash-free string returns it unchanged |
| Identity.Classify | main.py:74-77 | an id lookup exactly when the raw input matches the 32-hex pattern, using the input itself; every input with a dash goes to the handle lookup |
| Identity.GetUserData | main.py:73-86 | a pattern match gives the profile of that id; otherwise a profile exists iff the handle endpoint answers and its id has a profile, and it is that profile |
| Identity.IdInputIgnoresHandles | main.py:77-83 | an input matching the pattern resolves the same under any handle endpoint |
| Identity.DashedIdIsHandle | main.py:74-78 | a 36-character dashed id is classified as a handle and resolves only through the handle endpoint |
| Identity.InsertAt | main.py:65-68 | `list.insert` puts the character at the index, or at the end past it, and removing it there gives the list back |
| Identity.DashedShape | main.py:63-70 | the four inserts cut the input at 8, 12, 16 and 20 and put a dash after each cut, clamped past the end as `list.insert` does |
| Identity.DashedFull | main.py:62-70 | on a 32-character id the dashes sit at 8, 13, 18 and 23, and removing them gives the id back |
| Identity.UuidToDashed | main.py:62-70 | the result is 4 characters longer and has the cut-and-dash shape; for 32 characters, dashes at 8/13/18/23 and undashing gives the input back |
| Head.OverIsMaskBlend | main.py:57-58 | on binary alpha, the paste of a pixel equals the per-channel blend `(over*m + under*(255-m)) / 255` with the pasted alpha as mask `m` |
| Head.NearestInRange | main.py:55-56 | every destination index of a NEAREST resize samples a source index inside the source |
| Head.Crop | main.py:55-56 | a fresh w x h image whose (x, y) is the skin's (left+x, top+y), transparent outside the skin |
| Head.ResizeNearest | main.py:55-56 | a fresh w x h image whose (x, y) is the source at the nearest centre index on each axis |
| Head.Paste | main.py:57-58 | inside the pasted box each pixel becomes Over(old, layer); outside the box nothing changes |
| Head.MakeFaceLayer | main.py:55 | the 32x32 face layer is the skin's (8,8)-(16,16) block scaled by nearest sampling, with binary alpha |
| Head.MakeHatLayer | main.py:56 | the 36x36 hat layer is the skin's (40,8)-(48,16) block scaled by nearest sampling, with binary alpha |
| Head.GenerateHead | main.py:53-59 | a fresh 36x36 image: the hat layer over the face layer pasted at (2,2) over transparency |
| Head.FaceNearest | main.py:55 | the 8-to-32 scaling maps each 4-pixel run to one source pixel |
| Head.FaceBlock | main.py:55-57 | face pixel (8+i, 8+j) fills the 4x4 block at (2+4i, 2+4j) wherever the hat is transparent |
| Head.HatOnTop | main.py:58 | wherever the hat layer is opaque, the head shows the hat |
| Head.TransparentHatLeavesFace | main.py:54-58 | with a transparent overlay the head is the face layer with a transparent 2-pixel border |
| Cache.NamedIn | main.py:105 | a row is found iff it is stored under a scanned key with that `default_nick`, and nothing else is found |
| Cache.NamedCount | main.py:105 | each row with that `default_nick` is found exactly once: the result is as long as the set of such rows |
| Cache.RepairOne | main.py:90-97 | an iteration raises iff the uuid no longer resolves; otherwise keys and scan order stay, only the resolved id's row can change, and nothing changes when that id has no row |
| Cache.ResolveAll | main.py:89-97 | a pass adds and removes no row and changes no uuid, expiry, payload or `valid` flag |
| Cache.Collide | main.py:105-107 | keys and order stay; with at most one row of the name nothing happens |
| Cache.CollideRaises | main.py:92-107 | the collision step raises exactly when more than one row has the name and one of those rows' uuids no longer resolves |
| Cache.Refetch | main.py:118-136 | succeeds iff the SKIN URL is readable, the head renders and a CAPE entry, when present, is readable; the cape is empty without a CAPE entry |
| Cache.Written | main.py:138-155 | the `create` and `update` data write the same row, except that an updated row keeps its `valid` flag |
| Cache.Upsert | main.py:138-155 | keeps the table well formed and replaces exactly the row of that uuid |
| Cache.FreshHit | main.py:110-116 | serves the stored bytes; only the resolved row's two name fields can change, and nothing changes when the name is unchanged |
| Cache.Refresh | main.py:118-161 | a failed fetch answers 500 and writes nothing; otherwise exactly the resolved row is rewritten with every field and `expires = int(now + ttl)`, and the fetched skin is served |
| Cache.Serve | main.py:100-161 | a request keeps the table well formed and never removes a row |
| Cache.CoherentNames | main.py:91-97 | under a coherent service, two records resolving to one id get one name |
| Cache.ResolveAllRenames | main.py:89-97 | after a completed pass, every record's resolved id that has a row holds it renamed to the current name, payload unchanged |
| Cache.ResolveAllUntouched | main.py:89-97 | a pass leaves every row that no record resolves to exactly as it was |
| Cache.PassCompletes | main.py:89-97 | a pass completes exactly when every record still resolves, whatever the table holds |
| Cache.ResolveAllSnoc | main.py:90 | a pass over one more record is the shorter pass followed by one repair |
| Cache.RepairTwice | main.py:95-97 | repairing to the same id twice is the second repair alone |
| Cache.RepairCommutes | main.py:95-97 | repairs to different ids commute |
| Cache.RepairAbsorbed | main.py:89-97 | a repair made before a pass and made again after it is the repair after the pass alone |
| Cache.ResolveAllIdempotent | main.py:89-97 | running a completed pass again on its own result changes nothing |
| Cache.CollisionsLeaveOneOwner | main.py:105-107 | after a completed collision step, at most one row keeps the name, given a coherent service with unique names and self-resolving rows |
| Cache.ServeStatus | main.py:100-161 | 404 exactly when the identifier does not resolve; an escaping exception exactly when the collision pass raises; the handler's 500 only after a failed fetch; 200 only with a row for the resolved id |
| Cache.NotFoundLeavesStore | main.py:101-103 | an unresolved identifier answers 404 and leaves the table as it was |
| Cache.ResolveAllKeepsNicknames | main.py:95-97 | a pass keeps `nickname` the lower-case form of `default_nick` |
| Cache.FreshHitGuardSkipsNoOp | main.py:111-113 | with lower-case nicknames, the guarded name patch leaves the same table as an unconditional rename (`Rename`) |
| Cache.FreshHitKeepsNicknames | main.py:111-113 | the fresh-hit name patch keeps `nickname` the lower-case form of `default_nick` |
| Cache.RefreshKeepsNicknames | main.py:138-155 | the upsert keeps `nickname` the lower-case form of `default_nick` |
| Cache.ServeKeepsNicknames | main.py:100-155 | every write of a request keeps `nickname` the lower-case form of `default_nick` |
| Cache.SkinReplyIsStored | main.py:110-158 | a 200 reply carries exactly the skin (and cape) the resolved account's row holds afterwards |
| Cache.ServedTwiceWithinTtl | main.py:109-116 | a repeat request while the row is fresh serves the same skin (or fails in the collision step) without reading textures or rendering |
| Cache.SameResolutionSamePass | main.py:91 | a pass uses only the identity endpoints |
| Cache.ExpiryIsFloorPlusTtl | main.py:143 | for a non-negative time, `Expiry(now) = int(now + ttl)` is `floor(now) + 10800` |
| Cache.WrittenRowFreshUntil | main.py:143 | a row written at `now` passes the freshness test `IsFresh` of main.py:110 (`expires > time`) exactly before `floor(now) + ttl` |
| Cache.RefreshLeavesOneRow | main.py:138-155 | after a refresh exactly one row carries the resolved uuid |
| Cache.LastCached | main.py:224 | a cache time exists iff the uuid's row exists and is valid |
| Cache.LastCachedAfterRefresh | main.py:243 | after a refresh at `now`, a valid row reports `floor(now) * 1000` as `last_cached` |
| Cache.FileStore.FindManyByDefaultNick | main.py:105 | returns the rows with that `default_nick` in scan order, all of them and only them |
| Cache.FileStore.SetName | main.py:95-97 | renames the row when the uuid has one, and otherwise changes nothing, as Prisma's `update` returning `None` |
| Cache.FileStore.UpsertRow | main.py:138-155 | the new table is `Upsert` of the old one, still well formed |
| Cache.FileStore.ResolveCollisions | main.py:89-97 | the new table and the completion flag are those of `ResolveAll` on the old table |
| Cache.FileStore.UpdateSkinCache | main.py:100-161 | the reply and the new table are those of `Serve` on the old table |
| Search.ContainsIffOccurs | main.py:253 | the `contains` scan (`Contains`) holds exactly when the fragment occurs as a contiguous piece |
| Search.NickLeTotal | main.py:253 | any two names are comparable in the `default_nick` order (`NickLe`) |
| Search.NickLeTransitive | main.py:253 | the `default_nick` order is transitive |
| Search.NickLeAntisymmetric | main.py:253 | names that sort both ways are equal |
| Search.Insert | main.py:253 | inserting a row adds exactly that row |
| Search.InsertSorted | main.py:253 | inserting into a sorted sequence keeps it sorted |
| Search.SortByNick | main.py:253 | the ordering is a permutation of the matches |
| Search.SortByNickSorted | main.py:253 | the ordering ascends by `default_nick` |
| Search.RowsIn | main.py:253 | lists the row of each key, key by key in order |
| Search.Scan | main.py:253 | the scan lists every row of the table exactly once (as many entries as rows), and only rows stored under their own uuid |
| Search.Matches | main.py:253-254 | a row matches iff it is scanned, valid and its `nickname` contains the fragment |
| Search.MatchesMultiplicity | main.py:253-254 | each valid row containing the fragment is kept as often as the scan holds it, and no other row |
| Search.MatchesAppend | main.py:253-254 | filtering a concatenation concatenates the filtered pieces, so matches keep their scan order |
| Search.MatchCount | main.py:254 | the matches are as many as the valid rows whose nickname holds the fragment |
| Search.Window | main.py:253 | `take`/`skip` keep at most `take` rows starting at `skip`, in order |
| Search.Search | main.py:249-264 | a fragment under 3 characters gives 204; a found page echoes the fragment, has 1 to `take` entries, counts every match and reports `page + 1` |
| Search.TotalCountIsMatchingRows | main.py:254-262 | a found page's `total_count` is the number of valid rows whose nickname holds the fragment |
| Search.SearchHitsAreMatches | main.py:253-261 | every listed entry is a valid row whose nickname contains the fragment, with its name, uuid and head |
| Search.SearchHitsAscend | main.py:253 | the entries of a page ascend by `default_nick` |
| Search.EveryMatchIsOnSomePage | main.py:253 | with a positive page size, every valid matching row is listed on some page |
| Search.FirstPageFound | main.py:250-256 | the first page answers 204 iff the fragment is short, `take` is 0 or nothing matches |
| Search.FirstPageHoldsAll | main.py:249-264 | when every match fits, the first page lists all of them, with `total_count` equal to their number and `next_page` 1 |
| Search.PastTheEndNoContent | main.py:253-256 | a page starting past the last match answers 204 |
| Search.UpperCaseFragmentFindsNothing | main.py:253 | under the case-sensitive `contains` the model takes, on lower-cased nicknames a fragment with an upper-case letter matches nothing and answers 204 |

## Left out

- FastAPI routing, CORS, the per-IP rate limiter, the lifespan connect/disconnect and `uvicorn.run` (main.py:27-50, 164-175, 267-268). These are transport glue.
- aiohttp and Prisma I/O. The identity and texture services are lookup tables (`Upstream`), the table is an in-memory map, and nothing runs concurrently.
- `time.time()` is the parameter `now`.
- Base64 and JSON decoding of the texture property. The model starts from the decoded texture map, and stored fields are the bytes themselves.
- PNG decoding and encoding. The head renderer is the parameter `render`, where None means the image cannot be opened (a 500). Its pixel content is modelled separately by `Head.GenerateHead`.
- Head.Over: PIL's blending for alpha values strictly between 0 and 255 is not modelled; only binary alpha is, where `Head.OverIsMaskBlend` ties it to the masked blend.
- Head.GenerateHead: PIL's NEAREST index is taken as floor((x + 0.5) * src / dst). This is an assumption about the imaging library, not proved.
- The `head3d` endpoint's 3D render (main.py:178-191). It is a foreign library.
- The `head`, `cape` and `profile` response shaping beyond the `last_cached` arithmetic, including their `find_first` lookups by `nickname.lower()`.
- Search.Search: `take` and `page` are natural numbers. The store's behaviour for negative values is not modelled.
- Search.SortByNick: the store's collation is taken as code-point order, with ties in scan order. The database's own collation and tie order are not modelled.
- Types.Lower: only ASCII letters are lower-cased. Python's Unicode case mapping is not modelled.
- The database provider and its collation are not part of this model. They are taken as PostgreSQL with its default collation, and that assumption underlies three members: the `default_nick` equality of `Cache.NamedIn` (main.py:105), the `contains` filter of `Search.Contains` and the ordering of `Search.SortByNick` (main.py:253-254).
- Search.Contains: the fragment is matched literally. The source hands it to `contains` unescaped (main.py:253-254), and a store that runs the filter as SQL `LIKE '%' || fragment || '%'` without escaping reads `_` as any one character, `%` as any run and, on PostgreSQL, `\` as an escape; the fragment "ab_" would then match the nickname "abc", which the model does not. Whether the client escapes these characters is an assumption about the client and provider, and the same assumption carries over to `Search.Matches`, `Search.MatchCount`, `Search.TotalCountIsMatchingRows`, `Search.FirstPageFound` and `Search.Search`.
- Search.Contains: the store's `contains` is taken as case-sensitive, as Prisma's `contains` is on PostgreSQL by default; the database provider is not part of this model. On a provider or collation that compares case-insensitively, an upper-case fragment would match, and `Search.UpperCaseFragmentFindsNothing` would not describe it.
- Cache.NamedIn: `find_many` without `order` promises no order; the model takes the table's insertion order (`Table.order`). Which repairs are kept before a pass raises depends on that order.
- Cache.Serve: one `now` stands for every `time.time()` of a request. The source reads the clock again for the freshness test (main.py:110) and for each written expiry (main.py:143, 151), after the fetches, so the stored expiry can be later by the time the fetches took.
- `valid` on a created row is taken as true. The column default lives in the database schema, which is not part of this model.
- A profile whose texture blob is malformed is not modelled. A present SKIN entry without a readable URL counts as a failed fetch.
