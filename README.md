# Calendar events: local store and RSS feed, modelled in Dafny

This project models the two parts of the calendar manager whose behaviour can be stated.

- **The browser-local event store** (`src/lib/storage.ts`). One storage key holds the whole collection of calendar events. `loadEvents` reads it, with nothing stored reading as `[]`. `saveEvents` overwrites it. `addEvent`, `updateEvent` and `deleteEvent` each load the collection, change it and write it back. The model is the class `EventStore.LocalEventStore`. Its field `slot: Option<seq<CalendarEvent>>` stands for the storage slot, and `None` means nothing is stored under the key. The pure functions `IndexOf` (the `findIndex` search), `Updated` and `Without` (the `filter`) specify the methods, and the lemmas about them state what the operations promise.
- **The RSS 2.0 feed** built in the `GET` handler of `src/api/feed.rss.ts` (the template at lines 12-29). `RssFeed.Feed` is a pure function from the fetched rows and the base URL to the document text, and it reproduces the template character for character. It writes one `<item>` per row in the given order and copies text verbatim. A null description prints as `null`. The location element appears only for a non-empty location. When no row list came back, the text `undefined` stands where the items would be. `CompactDate.Format` is the `yyyyMMdd'T'HHmmss` formatter, which is the local DATE-TIME form of section 3.3.5 of RFC 5545. `RssFeed.ParseFeed` is a reader for such documents and serves as the serializer's partner. `RssFeed.FeedRoundTrip` proves that this reader recovers the link and every row's fields in order, provided the row text contains no `<` and no `&` and the times have era years from 1 to 9999.

Modules: `Wrappers` (Option), `CompactDate`, `EventStore`, `RssFeed`.

Behaviour of the code that the model keeps as it is:
- The code does not escape XML text. `RssFeed.MarkupTitleNotRecovered` and `RssFeed.ClosingTagInTitle` show the cost: a title containing `<` or `&` is never read back as itself, and a title containing `</title>` ends the title element early.
- A null description prints as `null`.
- A failed query prints `undefined` in place of the items.
- `updateEvent` without a match writes nothing. `deleteEvent` always writes, so with nothing stored it leaves `[]` under the key.

`src/types` (the `CalendarEvent` type that `storage.ts` imports) is not part of this model. The record's fields are inferred from their uses in `src/App.tsx` and `src/components/EventForm.tsx`. The feed's row follows `src/lib/database.types.ts:13-22`.

## Model

| member | source | states |
|---|---|---|
| `EventStore.LocalEventStore.constructor` | src/lib/storage.ts:6 | a new store has nothing under the key |
| `EventStore.LocalEventStore.LoadEvents` | src/lib/storage.ts:5-8 | returns `[]` when nothing is stored, otherwise the stored collection (JSON decoding taken as the identity) |
| `EventStore.LoadFresh` | src/lib/storage.ts:6-7 | loading from a store that was never written gives the empty collection |
| `EventStore.LocalEventStore.SaveEvents` | src/lib/storage.ts:10-12 | the slot afterwards holds exactly the given collection |
| `EventStore.SaveThenLoad` | src/lib/storage.ts:5-12 | `saveEvents(s)` then `loadEvents()` returns `s` |
| `EventStore.WithId` | src/lib/storage.ts:16-19 | the new event has the generated id and exactly the input's other fields |
| `EventStore.LocalEventStore.AddEvent` | src/lib/storage.ts:14-23 | the stored collection becomes the old one plus exactly one event at the end; the length grows by one and earlier events keep their order and values; the returned event has the input's fields and the generated id and equals the last stored element; a fresh id keeps ids distinct |
| `EventStore.AppendFreshKeepsUniqueIds` | src/lib/storage.ts:16-21 | appending an event whose id is not stored keeps all ids distinct |
| `EventStore.IndexOf` | src/lib/storage.ts:27 | `findIndex`: -1 exactly when no event has the id, otherwise the first index holding it |
| `EventStore.FindIndex` | src/lib/storage.ts:27 | the front-to-back search returns the first index holding the id, or -1 exactly when there is none |
| `EventStore.LocalEventStore.UpdateEvent` | src/lib/storage.ts:25-32 | with a match, the slot holds the collection with only the first matching index replaced; without a match the slot is left exactly as it was (nothing is written); the length is kept and distinct ids stay distinct |
| `EventStore.UpdatedReplacesFirstMatch` | src/lib/storage.ts:27-30 | with a match, the length is kept, the first matching index holds the new event, no earlier index has the id, and every other index is unchanged |
| `EventStore.UpdatedAbsent` | src/lib/storage.ts:28-31 | without a match, the collection is unchanged |
| `EventStore.UpdatedIdempotent` | src/lib/storage.ts:25-31 | updating twice with the same event equals updating once |
| `EventStore.UpdatedKeepsUniqueIds` | src/lib/storage.ts:29 | replacing an event by one with the same id keeps ids distinct |
| `EventStore.LocalEventStore.DeleteEvent` | src/lib/storage.ts:34-38 | the slot holds the filtered collection; no stored event has the id afterwards; an absent id leaves the same collection (rewritten); distinct ids stay distinct |
| `EventStore.WithoutMembers` | src/lib/storage.ts:36 | an event survives the filter if and only if it was stored and has another id |
| `EventStore.WithoutRemovesId` | src/lib/storage.ts:36-37 | after filtering, no event has the id |
| `EventStore.WithoutAppend` | src/lib/storage.ts:36 | filtering distributes over concatenation, so kept events stay in their original relative order |
| `EventStore.WithoutLength` | src/lib/storage.ts:36 | the filter removes exactly the events carrying the id, and no others |
| `EventStore.WithoutAbsent` | src/lib/storage.ts:36-37 | filtering out an id that is not stored gives back the same collection |
| `EventStore.WithoutIdempotent` | src/lib/storage.ts:36-37 | deleting the same id twice equals deleting it once |
| `EventStore.WithoutKeepsUniqueIds` | src/lib/storage.ts:36 | filtering keeps the remaining ids distinct |
| `CompactDate.PaddedValue` | src/api/feed.rss.ts:22-23 | a zero-padded number reads back as the number, whatever the padding |
| `CompactDate.PaddedLength` | src/api/feed.rss.ts:22-23 | a number below 10^w is padded to exactly w digits |
| `CompactDate.FormatShape` | src/api/feed.rss.ts:22-23 | for era years 1-9999 and in-range fields, the text is 15 characters: 8 digits (year, month, day), `T`, then 6 digits (24-hour hour, minute, second) |
| `CompactDate.FormatParse` | src/api/feed.rss.ts:22-23 | parsing the formatted text gives back every field |
| `CompactDate.FormatInjective` | src/api/feed.rss.ts:22-23 | distinct in-range date-times are written differently |
| `RssFeed.CompactText` | src/api/feed.rss.ts:22-23 | a formatted `dtstart`/`dtend` value contains neither `<` nor `&` and reads back as its date-time |
| `RssFeed.ParseLocationOf` | src/api/feed.rss.ts:24 | the location element reads back as the location exactly when it is non-null and non-empty, and as absent otherwise |
| `RssFeed.ParseItemOf` | src/api/feed.rss.ts:19-26 | one item reads back as the row's title, description text, start, end, location and id (as the guid) |
| `RssFeed.ParseItemsOf` | src/api/feed.rss.ts:18-27 | the joined items read back as exactly one item per row, in the rows' order |
| `RssFeed.ItemsAppend` | src/api/feed.rss.ts:18-27 | the items of `a + b` are the items of `a` followed by those of `b`; the serializer does not reorder |
| `RssFeed.FeedRoundTrip` | src/api/feed.rss.ts:12-29 | for text without `<` or `&` and in-range times, the document parses back with the fixed channel title and description, the base URL as `<link>`, and one item per row in order with each row's fields; a missing row list reads back as missing |
| `RssFeed.EmptyFeed` | src/api/feed.rss.ts:12-29 | no rows give the bare channel envelope, which reads back with zero items |
| `RssFeed.UndefinedFeed` | src/api/feed.rss.ts:18 | a missing row list puts the text `undefined` where the items would be |
| `RssFeed.FeedItemFields` | src/api/feed.rss.ts:20-25 | the k-th item: title verbatim, description verbatim or `null`, start and end, a location if and only if the row's is non-empty (then verbatim), guid equal to the row id; the link equals the base URL |
| `RssFeed.MarkupTitleNotRecovered` | src/api/feed.rss.ts:20 | without escaping, a title containing `<` or `&` is never read back as itself |
| `RssFeed.ClosingTagInTitle` | src/api/feed.rss.ts:20 | in the written text, a title containing `</title>` ends the title element early: its character data is only the part before that tag, and the closing tag follows |
| `RssFeed.Feed` | src/api/feed.rss.ts:12-29 | no contract; properties in `RssFeed.FeedRoundTrip`, `RssFeed.EmptyFeed`, `RssFeed.UndefinedFeed` and `RssFeed.FeedItemFields` |
| `RssFeed.Item` | src/api/feed.rss.ts:19-26 | no contract; properties in `RssFeed.ParseItemOf` and `RssFeed.ClosingTagInTitle` |
| `RssFeed.Items` | src/api/feed.rss.ts:18-27 | no contract (`map` then `join('')`); properties in `RssFeed.ParseItemsOf` and `RssFeed.ItemsAppend` |
| `RssFeed.Body` | src/api/feed.rss.ts:18 | no contract (the `?.` chain); properties in `RssFeed.UndefinedFeed` and `RssFeed.FeedRoundTrip` |
| `RssFeed.DescriptionText` | src/api/feed.rss.ts:21 | no contract; properties in `RssFeed.FeedItemFields` |
| `RssFeed.Truthy` | src/api/feed.rss.ts:24 | no contract; properties in `RssFeed.ParseLocationOf` and `RssFeed.FeedItemFields` |
| `RssFeed.LocationElement` | src/api/feed.rss.ts:24 | no contract; properties in `RssFeed.ParseLocationOf` |
| `CompactDate.Format` | src/api/feed.rss.ts:22-23 | no contract; properties in `CompactDate.FormatShape`, `CompactDate.FormatParse` and `CompactDate.FormatInjective` |
| `CompactDate.Padded` | src/api/feed.rss.ts:22-23 | no contract; properties in `CompactDate.PaddedValue` and `CompactDate.PaddedLength` |
| `EventStore.Updated` | src/lib/storage.ts:27-30 | no contract; properties in `EventStore.UpdatedReplacesFirstMatch`, `EventStore.UpdatedAbsent`, `EventStore.UpdatedIdempotent` and `EventStore.UpdatedKeepsUniqueIds` |
| `EventStore.Without` | src/lib/storage.ts:36 | no contract (the `filter`); properties in `EventStore.WithoutMembers`, `EventStore.WithoutLength`, `EventStore.WithoutAppend` and the other `Without` lemmas |

## Left out

- `localStorage` itself is left out, along with its exceptions (quota, disabled storage). The slot is a field of the class.
- JSON encoding and decoding are taken to be the identity. A corrupt stored value, which would make `JSON.parse` throw, is not modelled. The empty string is also falsy for `loadEvents`, but `saveEvents` never writes it, so it is not modelled either.
- `crypto.randomUUID` is left out. `AddEvent` takes the generated id as a parameter. Freshness is not required, because the source does not check it. Freshness appears only as the hypothesis of the distinct-ids results.
- Two tabs writing the same key at the same time can lose updates. This concurrency is not modelled.
- The Supabase query (`src/api/feed.rss.ts:5-8`), the origin extraction from the request URL (line 10) and the `Response` with its Content-Type (lines 31-35) are left out. The rows and the base URL are parameters.
- `new Date(...)` parsing of ISO-8601 strings and the conversion to the server's local time are left out. They are the parameter `localTime`. An unparseable timestamp, for which date-fns `format` throws, is not modelled.
- `CompactDate.FormatShape`: the 15-character shape is proved only for era years 1-9999 and in-range fields. Years above 9999 are formatted with more digits. `DateTime.year` is the era year date-fns prints, so the years before the common era are not told apart from those after it; the conversion that produces them belongs to `localTime`, which is not modelled.
- `RssFeed.FeedRoundTrip`: the round trip is stated only for row text without `<` or `&` and for in-range times. Because the serializer does not escape, other text cannot be recovered in general: `<` opens a tag, a bare `&` makes the document ill-formed, and an entity such as `&amp;` would be read as `&`. A `description` of text `null` and a null description read back alike.
- `RssFeed.ParseFeed` is the serializer's own inverse, not a general XML parser. It accepts only this template's layout and does not check the rest of XML well-formedness: the `]]>` sequence in text and characters XML forbids are not excluded.
- The `userId` and `createdAt` columns are carried by `EventRow` but never written to the feed, as in the source.
- `src/App.tsx`, `src/components/EventForm.tsx` and `src/components/EventList.tsx` are not modelled. They are view code and calls to the hosted backend.
