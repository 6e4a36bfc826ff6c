# Paging cursor model

A Dafny model of the logic of a one-screen Android app that shows a
catalog list fetched from a REST API page by page. The app's own logic,
in `MainActivity.java`, consists of three parts:

- **the page-key parser** of the page-keyed data source. A page key is the full URL that the API
  returned as `previous` or `next`. `loadBefore` and `loadAfter` take the text between the
  first `?` and the next one, split it on `&`, split each piece on `=` and `put` name and value into a
  `HashMap`, then read `offset` and `limit` from it;
- **the cursor-direction rule**: `loadInitial` hands the callback both cursors of the response,
  `loadBefore` only `previous`, `loadAfter` only `next`;
- **the diff callbacks** of the list adapter: same item when the names agree, same contents when
  names and URLs agree.

Modules:

- `JavaStrings` (java_strings.dfy): Java's `String.split` with limit 0, for a separator that
  matches one literal character. `Pieces` are all pieces between separators. `Split` returns the
  whole string when there is no separator, and otherwise the pieces with the trailing empty ones
  dropped; a leading empty piece is kept. An index past the end of the result is the
  `ArrayIndexOutOfBoundsException` of the source.
- `PageCursor` (page_cursor.dfy): `ParseCursor`, the pure specification of the parser, returns
  `None` where the source throws. `BuildQueryMap` is the imperative loop of the source, proved
  equal to it. Lemmas state when parsing throws, what each piece contributes, and which keys and
  values the map holds.
- `PageCursorExamples` (page_cursor.dfy): worked page keys of the shape the API returns.
- `PagingSource` (paging_source.dfy): the three load operations over an abstract response, and
  the cursor-direction rule.
- `ItemDiff` (item_diff.dfy): `areItemsTheSame` and `areContentsTheSame`.
- `Api` (api.dfy) and `Wrappers` (wrappers.dfy): the `Result` and `Response` records (only the
  fields the code reads), and `Option` for Java's `null`.

Behaviour of the code worth knowing, all proved in the model:

- A piece `name==rest`, where `rest` starts with a character other than `=`, does not throw.
  Its value is the empty string between the two `=`s (`EmptyValueBetweenEquals`). A piece has
  no `[1]` exactly when it has no `=` at all (such as `limit` or the empty piece) or nothing but
  `=`s after its first `=` (such as `name=` or `=`) (`HasValueIff`).
- A non-empty query made only of `&`s, as in `url?&&`, splits to no pieces at all, since every
  piece is a trailing empty one. It parses to the empty map (`OnlyAmpersandsEmptyMap`), so that
  by `RequestFor` both request arguments are `null`. An empty query, as in `url??x`, is a
  single empty piece and throws (`EmptyQueryThrows`).
- An empty piece between two `&`s, as in `a=1&&b=2` or `offset=20&limit=20&&x=1`, is not
  trailing and makes the parse throw (`DoubledAmpersandFails`).

## Model

| member | source | states |
|---|---|---|
| JavaStrings.SplitShape | app/src/main/java/com/example/paging/MainActivity.java:68-69 | Splitting gives the whole string when it has no separator. Otherwise it gives a prefix of the pieces that does not end in an empty string, and only empty pieces are dropped. No resulting string contains the separator. |
| JavaStrings.Split | app/src/main/java/com/example/paging/MainActivity.java:68-69 | The limit-0 `split`: when the separator occurs, the result is a prefix of the pieces between separators. `SplitShape` pins down which prefix: the one that drops exactly the trailing empty pieces. |
| JavaStrings.JoinPieces | app/src/main/java/com/example/paging/MainActivity.java:69 | Joining the pieces with the separator gives back the original string, so no text is lost. |
| JavaStrings.PiecesJoin | app/src/main/java/com/example/paging/MainActivity.java:69 | Separator-free pieces are recovered exactly from their join. |
| JavaStrings.PiecesConcat | app/src/main/java/com/example/paging/MainActivity.java:69 | The pieces of `x`, a separator, then `y` are the pieces of `x` followed by those of `y`. |
| JavaStrings.SplitHasSecond | app/src/main/java/com/example/paging/MainActivity.java:68 | The split has a string at index 1 exactly when the input contains the separator and some other character after the first separator. |
| JavaStrings.SplitFirstTwo | app/src/main/java/com/example/paging/MainActivity.java:68 | When index 1 exists, index 0 is the text before the first separator and index 1 the text between the first separator and the next one. |
| JavaStrings.LeadingSeparator | app/src/main/java/com/example/paging/MainActivity.java:72 | A separator at position 0 yields a leading empty piece. `Split` keeps it as its first string whenever some non-separator follows; otherwise every piece is trailing and dropped. |
| JavaStrings.DoubledSeparator | app/src/main/java/com/example/paging/MainActivity.java:69 | Two separators in a row followed somewhere by a non-separator leave an empty string in the split, right after the pieces of the text in front. When that text `a` has no separator, the split starts with `[a, ""]`. |
| PageCursor.QueryPart | app/src/main/java/com/example/paging/MainActivity.java:68 | The query component is the text between the first `?` and the next `?`. |
| PageCursor.QueryPartExists | app/src/main/java/com/example/paging/MainActivity.java:68 | `split("\\?")[1]` succeeds exactly when the key has a `?` followed somewhere by a character that is not `?`. |
| PageCursor.HasValueIff | app/src/main/java/com/example/paging/MainActivity.java:72-73 | `split("=")[1]` succeeds on a piece exactly when the piece has `=` followed somewhere by a character that is not `=`. |
| PageCursor.ParamOf | app/src/main/java/com/example/paging/MainActivity.java:72-73 | A piece yields a parameter exactly when `split("=")[1]` succeeds on it. Its name is the text before the first `=`, and its value the text between the first `=` and the next one; anything after a second `=` is discarded. |
| PageCursor.ParamsOf | app/src/main/java/com/example/paging/MainActivity.java:71-73 | The pieces yield parameters exactly when every piece has a value, and then one parameter per piece, in order. |
| PageCursor.ParsedUnique | app/src/main/java/com/example/paging/MainActivity.java:71-73 | The parameters are determined by the pieces: any list that matches them one for one is the one `ParamsOf` returns. |
| PageCursor.MapOf | app/src/main/java/com/example/paging/MainActivity.java:70-74 | The map after `put`ting every parameter in order: its key set is exactly the set of the parameters' names. |
| PageCursor.ParseCursor | app/src/main/java/com/example/paging/MainActivity.java:68-74 | The parse returns `None` (the source throws) exactly when there is no query component or some `&`-piece of it has no value. Otherwise the map's keys are exactly the parameters' names. `ParsedMap` adds the last-occurrence values. |
| PageCursor.BuildQueryMap | app/src/main/java/com/example/paging/MainActivity.java:68-74 | The imperative split-and-put loop returns exactly `ParseCursor(key)`, and throws exactly when it does. |
| PageCursor.MapOfLast | app/src/main/java/com/example/paging/MainActivity.java:71-74 | A name maps to the value of its last occurrence, because a later `put` overwrites an earlier one. |
| PageCursor.ParsedMap | app/src/main/java/com/example/paging/MainActivity.java:68-74 | Parsing succeeds exactly when there is a query whose pieces all have values. The map then holds exactly the parameters' names, each bound to the value of its last occurrence. |
| PageCursor.NoQueryFails | app/src/main/java/com/example/paging/MainActivity.java:68 | A key without `?`, or with only `?`s after its first `?`, throws. |
| PageCursor.PieceWithoutValueFails | app/src/main/java/com/example/paging/MainActivity.java:72-73 | A single piece without a value makes the whole parse throw. |
| PageCursor.DoubledAmpersandFails | app/src/main/java/com/example/paging/MainActivity.java:69-73 | For any `a`, a query `a&&b` in which `b` is not all `&`s throws on the empty piece between the two `&`s. |
| PageCursor.OnlyAmpersandsEmptyMap | app/src/main/java/com/example/paging/MainActivity.java:69-74 | A non-empty query made only of `&`s splits to no pieces and parses to the empty map. |
| PageCursor.EmptyQueryThrows | app/src/main/java/com/example/paging/MainActivity.java:68-73 | A key `url??x`, with no `?` in `url`, has the empty query, which is one empty piece without a value, so it throws. |
| PageCursor.PieceParts | app/src/main/java/com/example/paging/MainActivity.java:72-73 | For `name` and `value` free of `=`, `value` non-empty, and `rest` empty or starting with `=`: `name=value`, `name=value=rest` and `=value` yield the parameter `name` (possibly empty) with `value`. |
| PageCursor.EmptyValueBetweenEquals | app/src/main/java/com/example/paging/MainActivity.java:72-73 | `name==rest`, where `name` has no `=` and `rest` starts with a character other than `=`, does not throw. It stores `name` with an empty value. |
| PageCursor.TrailingEqualsHasNoValue | app/src/main/java/com/example/paging/MainActivity.java:72-73 | `name=` yields no parameter, because the trailing empty piece is dropped. |
| PageCursorExamples.TwoParameterKey | app/src/main/java/com/example/paging/MainActivity.java:68-74 | `url?n1=v1&n2=v2` with plain names and non-empty values parses to `{n1: v1}` updated with `{n2: v2}`. |
| PageCursorExamples.NextKeyOfFirstPage | app/src/main/java/com/example/paging/MainActivity.java:68-76 | The API's `...pokemon?offset=20&limit=20` key parses to offset 20 and limit 20. |
| PageCursorExamples.RepeatedLimitKeepsLast | app/src/main/java/com/example/paging/MainActivity.java:71-74 | `?limit=10&limit=20` keeps only `limit = 20`. |
| PageCursorExamples.BareUrlThrows | app/src/main/java/com/example/paging/MainActivity.java:68 | The bare endpoint URL, which has no query, throws. |
| PagingSource.RequestFor | app/src/main/java/com/example/paging/MainActivity.java:76 | The offset argument is present exactly when the map has `offset`, and is then the stored value; likewise for limit. A missing key gives `null`, not an error. |
| PagingSource.InitialPageOf | app/src/main/java/com/example/paging/MainActivity.java:60 | The initial callback receives the response's entries, its `previous` cursor and its `next` cursor. `CursorDirection` relates it to the other two loads. |
| PagingSource.BeforePageOf | app/src/main/java/com/example/paging/MainActivity.java:77 | `loadBefore`'s callback receives the response's entries and its `previous` cursor. |
| PagingSource.AfterPageOf | app/src/main/java/com/example/paging/MainActivity.java:94 | `loadAfter`'s callback receives the response's entries and its `next` cursor. |
| PagingSource.LoadInitial | app/src/main/java/com/example/paging/MainActivity.java:57-64 | `loadInitial` never throws. It delivers a page exactly when the fetch succeeds, and that page is the response's entries with both of its cursors. |
| PagingSource.LoadBefore | app/src/main/java/com/example/paging/MainActivity.java:67-81 | `loadBefore` throws exactly when the key does not parse, and otherwise sends the request of the parsed map. On a response, it delivers the entries with the `previous` cursor. An I/O failure delivers nothing. |
| PagingSource.LoadAfter | app/src/main/java/com/example/paging/MainActivity.java:84-98 | `loadAfter` does the same parse and sends the same request as `loadBefore`, but delivers the entries with the `next` cursor. |
| PagingSource.CursorDirection | app/src/main/java/com/example/paging/MainActivity.java:60-94 | All three loads pass the entries on unchanged. `loadInitial` forwards both cursors, `loadBefore` only `previous` and `loadAfter` only `next`. Each depends only on the cursor it forwards. |
| PagingSource.AbsentParameterIsNull | app/src/main/java/com/example/paging/MainActivity.java:68-76 | A parseable query that names no `offset` (or no `limit`) still parses, and the request carries `null` for it. |
| ItemDiff.AreItemsTheSame | app/src/main/java/com/example/paging/MainActivity.java:120-122 | Two entries are the same item exactly when the new one is the old one with, at most, its URL changed. |
| ItemDiff.AreContentsTheSame | app/src/main/java/com/example/paging/MainActivity.java:124-127 | Same contents implies same item, and holds exactly when the two records are equal. |
| ItemDiff.DiffCallbackLaws | app/src/main/java/com/example/paging/MainActivity.java:120-127 | Both predicates are reflexive, symmetric and transitive, and same contents implies same item. |
| ItemDiff.SameItemChangedContents | app/src/main/java/com/example/paging/MainActivity.java:120-127 | An entry with the same name and a different URL is the same item with changed contents. |
| Wrappers.Lookup | app/src/main/java/com/example/paging/MainActivity.java:76 | `Map.get`: a value exactly when the key is present, and then the stored one; `null` otherwise. |

## Left out

- Activity lifecycle, view inflation, `RecyclerView` and layout-manager setup, and view-holder binding are not modelled. They are UI framework plumbing with no logic of their own.
- Retrofit and Gson setup and the `listPokemons(...).execute()` HTTP calls are not modelled. The call is the parameter `fetch` (for `loadInitial`, its result `fetched`), and its `None` stands for an `IOException`.
- The stack trace printed on an `IOException` is not modelled. The model records only that no page reaches the callback (`IoFailed`).
- `LiveData`, `LivePagedListBuilder` and the `PagedList.Config` sizes (20, 20, 10) are not modelled. When and on which thread the loads run is decided inside the Android paging library, which is not part of this model.
- A `null` response body (an unsuccessful HTTP status) and the `NullPointerException` it causes at `body.results` are not modelled: `fetch` always returns a response or an I/O failure. A `null` `name` or `url` in `equals`, and a `null` page key, are not modelled either.
- `PokeAPI`, `Response` and `Result` are not part of this model. Only the fields the code reads are modelled: `results`, `previous`, `next`, `name` and `url`.
- `String.split` is modelled only for separators that match one literal character, the only kind the code uses. Java's general regular-expression splitting is not modelled.
- The query loop, which the source writes twice (:68-74 and :85-91), is modelled once, as `BuildQueryMap`, and both load methods call it. The two copies in the source are identical.
