# Star Wars GraphQL resolvers in Dafny

This project models the resolver layer of the Star Wars GraphQL example
server (`src/data/swapiSchema.js`). That layer is a small in-memory data
engine, and the model covers each part of it:

- **Store** (`store.dfy`): the seed tables of humans, droids and starships,
  and the id-to-record index that `mockTableIndex` builds over each table
  (later rows with the same id win). It also holds the lookups `getHuman`,
  `getDroid`, `getStarship` and `getCharacter` (humans before droids), the
  fixed `getHero` rule, the `friends` and `starships` field resolvers, and the
  two `__resolveType` discriminators of `Character` and `SearchResult`.
- **Cursors**: `toCursor` is the standard base64 (section 4 of RFC 4648,
  `base64.dfy`) of the ASCII text `"cursor"` followed by the decimal position
  (`decimal.dfy`). `fromCursor` decodes the base64, drops the first six
  characters without looking at them, and is followed by a base-10 parse
  (`cursor.dfy`).
- **friendsConnection** (`connection.dfy`): modelled once, because the Human
  and Droid resolvers run the same code. It gives every friend an edge whose
  cursor encodes its 1-based position, takes JavaScript's
  `slice(after, first + after)` of those edges, and computes `pageInfo` and
  `totalCount` from the whole list.
- **search** (`search.dfy`): the rows of humans, droids and starships, in that
  order, whose name contains the text, ignoring the case of ASCII letters.
- **Reviews** (`reviews.dfy`): the only mutable state.
  - `ReviewBoard` is a class that holds the per-episode review lists and the
    log of events published on the `"new_review"` topic.
  - `createReview` appends the review to its episode's list, tags it with
    the episode and publishes it.
  - The `reviewAdded` subscription filter is a predicate over the payload and
    the subscription's arguments.

The seed data (`data.json`) is a parameter: `Store.Load` takes the three
tables and builds the indexes the way the module does at start-up.

Three behaviours of the code are easy to misread, and the model keeps each
one as written:

- A cursor that does not read back as a number makes `parseInt` return NaN.
  `slice(NaN, first + NaN)` then takes nothing, and `first + NaN < length` is
  false. The result is an empty page with null cursors, no next page and the
  full `totalCount` (`Connection.NaNPage`, `Connection.FriendsConnection`).
- `fromCursor` drops any first six characters without comparing them with
  `"cursor"` (`Cursor.OffsetIgnoresPrefix`).
- With four friends, `first = 2` and `after = toCursor(1)`, `hasNextPage` is
  `2 + 1 < 4`, which is true (`Connection.FourFriendsExample`).

## Model

| member | source | states |
|---|---|---|
| Store.TableIndex | src/data/swapiSchema.js:38-44 | every id in the index maps to a record carrying that id |
| Store.TableIndexKeys | src/data/swapiSchema.js:38-44 | the index's keys are exactly the ids in the table |
| Store.TableIndexLastWins | src/data/swapiSchema.js:38-44 | each id maps to the last row of the table with that id |
| Store.MockTableIndex | src/data/swapiSchema.js:38-44 | the forEach loop builds the index: keys are exactly the table's ids, and each maps to its last row |
| Store.Load | src/data/swapiSchema.js:46-48 | the three tables are kept and each index is the one mockTableIndex builds from its table |
| Store.LookupFindsLastRow | src/data/swapiSchema.js:93-106 | getHuman/getDroid/getStarship find a record iff the id is in the table, and it is the table's last row with that id |
| Store.CharacterLookup | src/data/swapiSchema.js:59-62 | getCharacter finds a record iff the id is a human or droid id; humans win on collisions, otherwise the droid; the record carries the id |
| Store.HeroIsFixed | src/data/swapiSchema.js:74-81 | EMPIRE gives human "1000" and every other or no episode gives droid "2001"; absent only when the seed lacks that row |
| Store.FriendsResolve | src/data/swapiSchema.js:175 | friend i resolves iff friends[i] is a human or droid id, then to the record with that id; a dangling id gives null; same length as the list |
| Store.StarshipsResolve | src/data/swapiSchema.js:197 | starship i resolves iff starships[i] is a starship id, then to the last starship row with that id; same length as the list |
| Store.CharacterTypeOfLookup | src/data/swapiSchema.js:157-165 | any character getCharacter returns resolves to a type: Human iff its id is a human id, Droid iff it is only a droid id |
| Store.SearchResultTypeOfRow | src/data/swapiSchema.js:248-259 | every seed row resolves to a search-result type: Human iff its id is a human id, else Droid for droid rows, else Starship |
| Base64.EncodeLength | src/data/swapiSchema.js:109 | the encoding of n bytes is 4 * ceil(n / 3) characters long |
| Base64.DecodeQuantum | src/data/swapiSchema.js:113 | a decoded quantum is one to three bytes, and exactly three unless it ends the input |
| Base64.DecodeEncode | src/data/swapiSchema.js:113 | decoding undoes encoding for every byte string |
| Base64.EncodeDecode | src/data/swapiSchema.js:113 | every text that decodes is the encoding of what it decodes to |
| Base64.DecodeIffEncode | src/data/swapiSchema.js:108-116 | decode(s) = b iff s = encode(b): a bijection between byte strings and well-formed texts |
| Decimal.ShowDigits | src/data/swapiSchema.js:109 | the decimal spelling of a position is digits only, with no leading zero |
| Decimal.ParseCanonical | src/data/swapiSchema.js:178 | a digit string without a leading zero is the spelling of the number it parses to |
| Decimal.ParseIffShow | src/data/swapiSchema.js:178 | s parses to n with no leading zero iff s is the decimal spelling of n |
| Decimal.ParseShow | src/data/swapiSchema.js:178 | parsing the spelling of n gives n |
| Cursor.AsciiText | src/data/swapiSchema.js:114 | bytes read as text succeed iff every byte is below 128, and then the text's bytes are those bytes |
| Cursor.AsciiTextOfBytes | src/data/swapiSchema.js:109-114 | the bytes of an ASCII text read back as that text |
| Cursor.OffsetIgnoresPrefix | src/data/swapiSchema.js:112-116 | any six ASCII characters before the number are dropped unchecked; the number reads back |
| Cursor.OffsetOfCursor | src/data/swapiSchema.js:108-116 | fromCursor(toCursor(n)) is the decimal spelling of n, and it parses back to n |
| Cursor.CursorInjective | src/data/swapiSchema.js:108-110 | distinct positions get distinct cursors |
| Connection.StartOffsetOfCursor | src/data/swapiSchema.js:178 | an after cursor handed out for position n gives offset n |
| Connection.AllEdges | src/data/swapiSchema.js:179-183 | there is one edge per friend |
| Connection.AllEdgesAt | src/data/swapiSchema.js:179-183 | edge i carries the cursor of position i + 1 and getCharacter(friends[i]) |
| Connection.SliceBound | src/data/swapiSchema.js:184 | a slice bound lies within the list, and a non-negative bound is clipped to the length |
| Connection.WindowEdges | src/data/swapiSchema.js:179-184 | the page has min(first, max(0, len - after)) edges; edge j has the cursor of after + j + 1 and the node getCharacter(friends[after + j]) |
| Connection.NextPageIffMore | src/data/swapiSchema.js:191 | hasNextPage holds iff the page has edges, after reads back, and after + the number of edges is below the list length |
| Connection.PageEndCursors | src/data/swapiSchema.js:190-192 | on a non-empty page, startCursor is the cursor of after + 1 and endCursor that of after + the number of edges |
| Connection.FriendsConnection | src/data/swapiSchema.js:176-196 | totalCount is always the list length; an unreadable after gives no edges, no friends, null cursors and no next page |
| Connection.WholeList | src/data/swapiSchema.js:177-184 | with no after and no or zero first, the edges are all the edges and the friends are the friends field, with no next page |
| Connection.EdgeCursorResumes | src/data/swapiSchema.js:178-184 | the cursor of edge j, passed as the next after, gives offset after + j + 1 |
| Connection.PageOfTwo | src/data/swapiSchema.js:179-195 | a page of two at offset a holds the friends at a and a + 1, with cursors a + 1 and a + 2 |
| Connection.FourFriendsExample | src/data/swapiSchema.js:176-196 | four friends, first 2, after toCursor(1): edges 1 and 2 with cursors 2 and 3, hasNextPage true, totalCount 4 |
| Search.MatchesIff | src/data/swapiSchema.js:127 | the match holds iff the text occurs at some position of the name, ignoring ASCII case |
| Search.EmptyTextMatches | src/data/swapiSchema.js:127 | the empty text matches every name |
| Search.FilterByName | src/data/swapiSchema.js:131 | the filter never adds rows |
| Search.FilterCounts | src/data/swapiSchema.js:131 | a matching row is kept as often as it occurs and any other row is dropped |
| Search.FilterAppend | src/data/swapiSchema.js:129-131 | filtering a concatenation filters each part in order |
| Search.SearchInStoreOrder | src/data/swapiSchema.js:126-132 | the results are matching humans, then droids, then starships; a row is a result iff it is a seed row whose name matches |
| Search.SearchResultsResolve | src/data/swapiSchema.js:248-259 | every search result resolves to a SearchResult type |
| Reviews.ReviewBoard.constructor | src/data/swapiSchema.js:50-54 | the three episode lists start empty and nothing is published |
| Reviews.ReviewBoard.GetReviews | src/data/swapiSchema.js:86-88 | the list of an episode is exactly the published reviews tagged with it, oldest first |
| Reviews.ReviewBoard.CreateReview | src/data/swapiSchema.js:135-140 | the tagged review is appended to its episode's list, other lists are unchanged, exactly one event carrying it is published and it is returned |
| Reviews.AcceptsPublished | src/data/swapiSchema.js:147-151 | the filter as written passes a published review iff the argument is null or names its episode; an omitted argument passes nothing |
| Reviews.IntendedAgreesWhenGiven | src/data/swapiSchema.js:147-151 | the corrected filter agrees with the written one whenever the argument is null or given |
| Reviews.DeliveredGiven | src/data/swapiSchema.js:144-151 | under either filter, a subscriber to episode E receives exactly the reviews published for E, in order |
| Reviews.DeliveredNull | src/data/swapiSchema.js:144-151 | under either filter, a subscriber with a null episode receives every published review, in order |
| Reviews.DeliveredOmittedAsWritten | src/data/swapiSchema.js:144-151 | under the filter as written, a subscriber that leaves the episode out receives nothing from reviews createReview has tagged |
| Reviews.DeliveredUnfiltered | src/data/swapiSchema.js:144-151 | with the corrected filter, a subscriber without an episode receives every published review, in order |
| Reviews.ReceivedAfterPublish | src/data/swapiSchema.js:138 | under either filter, one publish delivers its review to a subscription once, exactly when that filter passes it |
| Reviews.CreateThenRead | src/data/swapiSchema.js:135-151 | after createReview the review ends its episode's list and other lists are unchanged; as written, a subscriber receives it iff its episode argument is null or that episode; with the corrected filter, also when the argument is left out |

## Left out

- `server.js` is not part of this model: it holds Express routing, CORS, the GraphQL HTTP endpoint and tracing, all I/O over libraries.
- The `height` and `length` conversion to feet (lines 168-174 and 236-242) multiplies by 3.28084 in floating point, which is not modelled.
- PubSub delivery through `asyncIterator` and `withFilter` is asynchronous library code. The model keeps an append-only log of published events; a subscription is its arguments plus the log position where it started, and `Reviews.Received` gives what it has received under the filter as written or under the corrected one.
- The Promise around `getCharacter`'s result is not modelled: the value it resolves to is returned directly.
- Schema construction (`makeExecutableSchema`, `schema.graphql`) and loading `data.json` are not modelled; the seed tables are parameters of `Store.Load`.
- Search.Matches: the text is matched literally. `new RegExp(text, "i")` would read regular-expression metacharacters in the text as operators, and would fold the case of non-ASCII letters too.
- Cursor.FromCursor: base64 decoding is strict, and a malformed cursor counts as unreadable. Node's `Buffer` skips characters outside the alphabet and accepts missing padding, so some malformed cursors give it a text where the model gives none.
- Cursor.FromCursor: decoded bytes must all be ASCII. `toString()` would turn other bytes into UTF-8 text with replacement characters; a cursor the resolver hands out is always ASCII.
- Decimal.Parse: accepts only a non-empty run of digits. `parseInt` also skips leading whitespace, accepts a sign and stops at the first non-digit ("12abc" gives 12); the model treats those texts as NaN, which gives the empty page.
- Store.GetCharacter and the other lookups: an id that names a property every JavaScript object inherits (such as "constructor") would find that property in the source; the model's indexes hold only the table's rows.
- Record keeps only id, name, friends and starships. The fields that are passed through unchanged (appearsIn, homePlanet, height, mass, primaryFunction, length), the constant `coordinates` and the pass-through resolvers of FriendsConnection and FriendsEdge carry no logic.
- Episode is an enumeration, so `getReviews` and `createReview` on an episode outside NEWHOPE, EMPIRE and JEDI cannot be expressed.
- Reviews.ReviewBoard.CreateReview: a review is a value. The source pushes the review object, then sets its `episode`, and the published payload holds that same object. The model stores and publishes the tagged value, which matches what every reader of the object sees afterwards; aliasing by other holders of the input object is not modelled.
- Connection.EdgeCursorResumes, Connection.NextPageIffMore and Connection.WindowEdges: stated for a non-negative `first`. A negative `first` is modelled, through JavaScript's negative slice bounds, but the window lemmas are not stated for it.

## Findings

| source | as written | input that shows it | evidently intended | confidence | as-written member | corrected member |
|---|---|---|---|---|---|---|
| src/data/swapiSchema.js:147-151 | an omitted `episode` argument is `undefined`, and `undefined === null` is false, so only a review without an episode would pass; createReview always tags one, so the subscriber receives nothing | subscribe to reviewAdded without an `episode` argument, then createReview(EMPIRE, review) | no argument means every episode, as with an explicit null | medium, not executed | Reviews.DeliveredOmittedAsWritten | Reviews.DeliveredUnfiltered |
