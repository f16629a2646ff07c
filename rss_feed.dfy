/**
 * The RSS 2.0 document built by the `GET` handler of src/api/feed.rss.ts,
 * separated from the database query and the HTTP response: a pure function
 * from the fetched rows and the site's base URL to the document text.
 *
 * The text is a fixed channel envelope around one `<item>` per row, in the
 * rows' order. Row text is interpolated verbatim (no XML escaping), a null
 * description prints as `null`, and the location element is written only for
 * a non-empty location. When the query yields no row list at all, the
 * optional chain interpolates the text `undefined` in place of the items.
 *
 * `ParseFeed` reads such a document back; the round-trip lemma at the end
 * says what a reader recovers and under which conditions.
 */
module RssFeed {
  import opened Wrappers
  import CompactDate

  /** A row of the `events` table (snake_case columns in the database). */
  datatype EventRow = EventRow(
    id: string,
    title: string,
    description: Option<string>,
    startDate: string,
    endDate: string,
    location: Option<string>,
    userId: string,
    createdAt: Option<string>)

  // The fixed text of the template, split around the interpolated values.

  const Prolog: string :=
    "<?xml version=\"1.0\" encoding=\"UTF-8\" ?>\n"
    + "<rss version=\"2.0\" xmlns:ical=\"http://www.w3.org/2002/12/cal/ical#\">\n"
    + "  <channel>\n"
    + "    <title>RSS Kalender</title>\n"
    + "    <link>"
  const ChannelTail: string :=
    "</link>\n"
    + "    <description>Kalendereinträge als RSS Feed</description>\n"
    + "    "
  const Footer: string := "\n  </channel>\n</rss>"
  const Undefined: string := "undefined"

  const ItemOpen: string := "\n    <item>\n      <title>"
  const AfterTitle: string := "</title>\n      <description>"
  const AfterDescription: string := "</description>\n      <ical:dtstart>"
  const AfterStart: string := "</ical:dtstart>\n      <ical:dtend>"
  const AfterEnd: string := "</ical:dtend>\n      "
  const LocationOpen: string := "<ical:location>"
  const LocationClose: string := "</ical:location>"
  const BeforeGuid: string := "\n      <guid>"
  const ItemClose: string := "</guid>\n    </item>\n    "

  /** `${event.description}`: JavaScript prints a null description as `null`. */
  function DescriptionText(description: Option<string>): string
  {
    match description
    case None => "null"
    case Some(text) => text
  }

  /** `event.location ? ... : ''`: null and the empty string are falsy. */
  predicate Truthy(location: Option<string>)
  {
    location.Some? && location.value != ""
  }

  function LocationElement(location: Option<string>): string
  {
    if Truthy(location) then LocationOpen + location.value + LocationClose else ""
  }

  /**
   * One `<item>` block. `localTime` stands for `new Date(...)` read in the
   * server's time zone, which is not modelled.
   */
  function Item(row: EventRow, localTime: string -> CompactDate.DateTime): string
  {
    ItemOpen + (row.title
    + (AfterTitle + (DescriptionText(row.description)
    + (AfterDescription + (CompactDate.Format(localTime(row.startDate))
    + (AfterStart + (CompactDate.Format(localTime(row.endDate))
    + (AfterEnd + (LocationElement(row.location)
    + (BeforeGuid + (row.id
    + ItemClose)))))))))))
  }

  /** `events.map(...).join('')`. */
  function Items(rows: seq<EventRow>, localTime: string -> CompactDate.DateTime): string
  {
    if rows == [] then "" else Item(rows[0], localTime) + Items(rows[1..], localTime)
  }

  /** `${events?.map(...).join('')}`: the items, or `undefined` when there is no row list. */
  function Body(rows: Option<seq<EventRow>>, localTime: string -> CompactDate.DateTime): string
  {
    match rows
    case None => Undefined
    case Some(rs) => Items(rs, localTime)
  }

  /** The whole document; `rows == None` is the query yielding no list. */
  function Feed(rows: Option<seq<EventRow>>, baseUrl: string, localTime: string -> CompactDate.DateTime): string
  {
    Prolog + baseUrl + ChannelTail + Body(rows, localTime) + Footer
  }

  // ---------------------------------------------------------------------
  // Reading a document back
  // ---------------------------------------------------------------------

  /** What a reader of one item sees. */
  datatype ItemView = ItemView(
    title: string,
    description: string,
    start: CompactDate.DateTime,
    end: CompactDate.DateTime,
    location: Option<string>,
    guid: string)

  /** What a reader of the document sees besides the fixed channel title and description. */
  datatype FeedView = FeedView(link: string, items: Option<seq<ItemView>>)

  /**
   * Text that an XML reader returns verbatim as character data: no `<`, which
   * opens a tag, and no `&`, which opens an entity reference (a bare `&` makes
   * the document ill-formed; `&amp;` would be read as `&`).
   */
  predicate PlainText(s: string)
  {
    forall i :: 0 <= i < |s| ==> s[i] != '<' && s[i] != '&'
  }

  function StripPrefix(prefix: string, s: string): (r: Option<string>)
    ensures r.Some? <==> |prefix| <= |s| && s[..|prefix|] == prefix
    ensures r.Some? ==> s == prefix + r.value
  {
    if |prefix| <= |s| && s[..|prefix|] == prefix then Some(s[|prefix|..]) else None
  }

  /**
   * Splits off the longest leading run of plain text. The run ends at a tag or
   * at an `&`; the reader accepts no entity references, so a field holding one
   * fails to parse at the closing tag that should follow.
   */
  function TakeText(s: string): (r: (string, string))
    ensures s == r.0 + r.1
    ensures PlainText(r.0) && (r.1 == [] || r.1[0] == '<' || r.1[0] == '&')
  {
    if s == [] || s[0] == '<' || s[0] == '&' then ([], s)
    else
      var (text, rest) := TakeText(s[1..]);
      ([s[0]] + text, rest)
  }

  /** A parsed value and the text after it. */
  datatype Parsed<T> = Parsed(value: T, rest: string)

  /** A fixed prefix followed by a run of plain text. */
  function Field(open: string, s: string): (r: Option<Parsed<string>>)
    ensures r.Some? ==> |r.value.rest| <= |s| - |open|
    ensures r.Some? ==> PlainText(r.value.value)
  {
    var a :- StripPrefix(open, s);
    var (text, rest) := TakeText(a);
    Some(Parsed(text, rest))
  }

  /** A fixed prefix followed by a compact date-time. */
  function TimeField(open: string, s: string): (r: Option<Parsed<CompactDate.DateTime>>)
    ensures r.Some? ==> |r.value.rest| <= |s| - |open|
  {
    var text :- Field(open, s);
    var time :- CompactDate.Parse(text.value);
    Some(Parsed(time, text.rest))
  }

  /** The optional `<ical:location>` element. */
  function ParseLocation(s: string): (r: Option<Parsed<Option<string>>>)
    ensures r.Some? ==> |r.value.rest| <= |s|
  {
    match Field(LocationOpen, s)
    case None => Some(Parsed(None, s))
    case Some(location) =>
      var rest :- StripPrefix(LocationClose, location.rest);
      Some(Parsed(Some(location.value), rest))
  }

  function ParseItem(s: string): (r: Option<Parsed<ItemView>>)
    ensures r.Some? ==> |r.value.rest| < |s|
    ensures r.Some? ==> PlainText(r.value.value.title) && PlainText(r.value.value.guid)
  {
    var title :- Field(ItemOpen, s);
    var description :- Field(AfterTitle, title.rest);
    var start :- TimeField(AfterDescription, description.rest);
    var end :- TimeField(AfterStart, start.rest);
    var a :- StripPrefix(AfterEnd, end.rest);
    var location :- ParseLocation(a);
    var guid :- Field(BeforeGuid, location.rest);
    var rest :- StripPrefix(ItemClose, guid.rest);
    Some(Parsed(ItemView(title.value, description.value, start.value, end.value, location.value, guid.value), rest))
  }

  function ParseItems(s: string): (r: (seq<ItemView>, string))
    decreases |s|
  {
    match ParseItem(s)
    case None => ([], s)
    case Some(item) =>
      var (items, rest) := ParseItems(item.rest);
      ([item.value] + items, rest)
  }

  function ParseFeed(s: string): Option<FeedView>
  {
    var link :- Field(Prolog, s);
    var body :- StripPrefix(ChannelTail, link.rest);
    var items :- ParseBody(body);
    Some(FeedView(link.value, items))
  }

  /** What follows the channel description: `undefined` or the items, then the closing tags. */
  function ParseBody(s: string): Option<Option<seq<ItemView>>>
  {
    if s == Undefined + Footer then Some(None)
    else
      var (items, rest) := ParseItems(s);
      if rest == Footer then Some(Some(items)) else None
  }

  // ---------------------------------------------------------------------
  // What a reader recovers
  // ---------------------------------------------------------------------

  /** The item a reader should see for a row. */
  function View(row: EventRow, localTime: string -> CompactDate.DateTime): ItemView
  {
    ItemView(row.title, DescriptionText(row.description),
             localTime(row.startDate), localTime(row.endDate),
             if Truthy(row.location) then Some(row.location.value) else None,
             row.id)
  }

  function Views(rows: seq<EventRow>, localTime: string -> CompactDate.DateTime): (vs: seq<ItemView>)
    ensures |vs| == |rows|
    ensures forall k :: 0 <= k < |rows| ==> vs[k] == View(rows[k], localTime)
  {
    if rows == [] then [] else [View(rows[0], localTime)] + Views(rows[1..], localTime)
  }

  /** A row whose text survives verbatim interpolation and whose times fit the compact form. */
  predicate Renderable(row: EventRow, localTime: string -> CompactDate.DateTime)
  {
    && PlainText(row.title)
    && PlainText(DescriptionText(row.description))
    && CompactDate.InRange(localTime(row.startDate))
    && CompactDate.InRange(localTime(row.endDate))
    && (row.location.Some? ==> PlainText(row.location.value))
    && PlainText(row.id)
  }

  lemma StripPrefixOf(prefix: string, rest: string)
    ensures StripPrefix(prefix, prefix + rest) == Some(rest)
  {
    assert (prefix + rest)[..|prefix|] == prefix;
    assert (prefix + rest)[|prefix|..] == rest;
  }

  /** Plain text followed by `<` (or by nothing) is split off exactly. */
  lemma TakeTextOf(text: string, rest: string)
    requires PlainText(text) && (rest == [] || rest[0] == '<')
    ensures TakeText(text + rest) == (text, rest)
  {
    var s := text + rest;
    var (t, r) := TakeText(s);
    assert t == s[..|t|] && text == s[..|text|];
  }

  lemma FieldOf(open: string, text: string, rest: string)
    requires PlainText(text) && (rest == [] || rest[0] == '<')
    ensures Field(open, open + (text + rest)) == Some(Parsed(text, rest))
  {
    StripPrefixOf(open, text + rest);
    TakeTextOf(text, rest);
  }

  /** The compact form of an in-range date-time is plain text and parses back to it. */
  lemma CompactText(d: CompactDate.DateTime)
    requires CompactDate.InRange(d)
    ensures PlainText(CompactDate.Format(d))
    ensures CompactDate.Parse(CompactDate.Format(d)) == Some(d)
  {
    var text := CompactDate.Format(d);
    CompactDate.FormatShape(d);
    CompactDate.FormatParse(d);
    forall i | 0 <= i < |text|
      ensures text[i] != '<'
    {
      if i < 8 {
        assert text[..8][i] == text[i];
      } else if i > 8 {
        assert text[9..][i - 9] == text[i];
      }
    }
  }

  lemma TimeFieldOf(open: string, text: string, d: CompactDate.DateTime, rest: string)
    requires PlainText(text) && CompactDate.Parse(text) == Some(d)
    requires rest != [] && rest[0] == '<'
    ensures TimeField(open, open + (text + rest)) == Some(Parsed(d, rest))
  {
    FieldOf(open, text, rest);
  }

  lemma ParseLocationOf(location: Option<string>, rest: string)
    requires location.Some? ==> PlainText(location.value)
    requires rest != [] && rest[0] == '\n'
    ensures ParseLocation(LocationElement(location) + rest)
         == Some(Parsed(if Truthy(location) then Some(location.value) else None, rest))
  {
    if Truthy(location) {
      var l := location.value;
      assert LocationElement(location) + rest == LocationOpen + (l + (LocationClose + rest));
      assert LocationClose[0] == '<';
      FieldOf(LocationOpen, l, LocationClose + rest);
      StripPrefixOf(LocationClose, rest);
    } else {
      assert LocationElement(location) + rest == rest;
      assert StripPrefix(LocationOpen, rest) == None by {
        assert LocationOpen[0] != rest[0];
      }
    }
  }

  lemma Assoc(a: string, b: string, c: string)
    ensures (a + b) + c == a + (b + c)
  {
  }

  /** The item followed by more text, regrouped the way the parser consumes it. */
  lemma ItemAppend(row: EventRow, localTime: string -> CompactDate.DateTime, rest: string)
    ensures Item(row, localTime) + rest
         == ItemOpen + (row.title + (AfterTitle + (DescriptionText(row.description)
            + (AfterDescription + (CompactDate.Format(localTime(row.startDate))
            + (AfterStart + (CompactDate.Format(localTime(row.endDate))
            + (AfterEnd + (LocationElement(row.location)
            + (BeforeGuid + (row.id + (ItemClose + rest))))))))))))
  {
    var x11 := row.id + ItemClose;
    var x10 := BeforeGuid + x11;
    var x9 := LocationElement(row.location) + x10;
    var x8 := AfterEnd + x9;
    var x7 := CompactDate.Format(localTime(row.endDate)) + x8;
    var x6 := AfterStart + x7;
    var x5 := CompactDate.Format(localTime(row.startDate)) + x6;
    var x4 := AfterDescription + x5;
    var x3 := DescriptionText(row.description) + x4;
    var x2 := AfterTitle + x3;
    var x1 := row.title + x2;
    assert Item(row, localTime) == ItemOpen + x1;
    Assoc(ItemOpen, x1, rest);
    Assoc(row.title, x2, rest);
    Assoc(AfterTitle, x3, rest);
    Assoc(DescriptionText(row.description), x4, rest);
    Assoc(AfterDescription, x5, rest);
    Assoc(CompactDate.Format(localTime(row.startDate)), x6, rest);
    Assoc(AfterStart, x7, rest);
    Assoc(CompactDate.Format(localTime(row.endDate)), x8, rest);
    Assoc(AfterEnd, x9, rest);
    Assoc(LocationElement(row.location), x10, rest);
    Assoc(BeforeGuid, x11, rest);
    Assoc(row.id, ItemClose, rest);
  }

  /** An item assembled from its parts reads back part by part. */
  lemma ParseItemOfParts(title: string, description: string,
                         startText: string, start: CompactDate.DateTime,
                         endText: string, end: CompactDate.DateTime,
                         location: Option<string>, guid: string, rest: string)
    requires PlainText(title) && PlainText(description) && PlainText(guid)
    requires PlainText(startText) && CompactDate.Parse(startText) == Some(start)
    requires PlainText(endText) && CompactDate.Parse(endText) == Some(end)
    requires location.Some? ==> PlainText(location.value)
    ensures ParseItem(ItemOpen + (title + (AfterTitle + (description
              + (AfterDescription + (startText + (AfterStart + (endText
              + (AfterEnd + (LocationElement(location)
              + (BeforeGuid + (guid + (ItemClose + rest)))))))))))))
         == Some(Parsed(ItemView(title, description, start, end,
                                 if Truthy(location) then Some(location.value) else None, guid), rest))
  {
    var g := ItemClose + rest;
    var f := BeforeGuid + (guid + g);
    var e := LocationElement(location) + f;
    var d := AfterEnd + e;
    var c := AfterStart + (endText + d);
    var b := AfterDescription + (startText + c);
    var a := AfterTitle + (description + b);
    assert a[0] == '<' && b[0] == '<' && c[0] == '<' && d[0] == '<' && g[0] == '<';
    FieldOf(ItemOpen, title, a);
    FieldOf(AfterTitle, description, b);
    TimeFieldOf(AfterDescription, startText, start, c);
    TimeFieldOf(AfterStart, endText, end, d);
    StripPrefixOf(AfterEnd, e);
    assert f[0] == '\n';
    ParseLocationOf(location, f);
    FieldOf(BeforeGuid, guid, g);
    StripPrefixOf(ItemClose, rest);
  }

  /** One item reads back as the row's view, leaving what follows it untouched. */
  lemma ParseItemOf(row: EventRow, localTime: string -> CompactDate.DateTime, rest: string)
    requires Renderable(row, localTime)
    ensures ParseItem(Item(row, localTime) + rest) == Some(Parsed(View(row, localTime), rest))
  {
    var start, end := localTime(row.startDate), localTime(row.endDate);
    CompactText(start);
    CompactText(end);
    ItemAppend(row, localTime, rest);
    ParseItemOfParts(row.title, DescriptionText(row.description),
                     CompactDate.Format(start), start, CompactDate.Format(end), end,
                     row.location, row.id, rest);
  }

  lemma ParseItemsStop(s: string)
    requires StripPrefix(ItemOpen, s) == None
    ensures ParseItems(s) == ([], s)
  {
    assert Field(ItemOpen, s) == None;
  }

  lemma ParseItemsStep(s: string, item: ItemView, tail: string)
    requires ParseItem(s) == Some(Parsed(item, tail))
    ensures ParseItems(s) == ([item] + ParseItems(tail).0, ParseItems(tail).1)
  {
  }

  /** The items read back one per row, in the rows' order. */
  lemma {:induction false} ParseItemsOf(rows: seq<EventRow>, localTime: string -> CompactDate.DateTime, rest: string)
    requires forall k :: 0 <= k < |rows| ==> Renderable(rows[k], localTime)
    requires StripPrefix(ItemOpen, rest) == None
    ensures ParseItems(Items(rows, localTime) + rest) == (Views(rows, localTime), rest)
  {
    if rows == [] {
      assert Items(rows, localTime) + rest == rest;
      ParseItemsStop(rest);
    } else {
      var more := rows[1..];
      assert forall k :: 0 <= k < |more| ==> more[k] == rows[k + 1];
      ParseItemsCons(rows, localTime, rest);
      ParseItemsOf(more, localTime, rest);
      assert Views(rows, localTime) == [View(rows[0], localTime)] + Views(more, localTime);
    }
  }

  /** The first row's item is read, then the reader carries on with the remaining rows' items. */
  lemma ParseItemsCons(rows: seq<EventRow>, localTime: string -> CompactDate.DateTime, rest: string)
    requires rows != [] && Renderable(rows[0], localTime)
    ensures var tail := ParseItems(Items(rows[1..], localTime) + rest);
      ParseItems(Items(rows, localTime) + rest) == ([View(rows[0], localTime)] + tail.0, tail.1)
  {
    var item := Item(rows[0], localTime);
    var tail := Items(rows[1..], localTime) + rest;
    Assoc(item, Items(rows[1..], localTime), rest);
    ParseItemOf(rows[0], localTime, tail);
    ParseItemsStep(item + tail, View(rows[0], localTime), tail);
  }

  lemma ItemsStart(rows: seq<EventRow>, localTime: string -> CompactDate.DateTime)
    ensures rows == [] ==> Items(rows, localTime) == ""
    ensures rows != [] ==> |Items(rows, localTime)| > 0 && Items(rows, localTime)[0] == '\n'
  {
    if rows != [] {
      var item := Item(rows[0], localTime);
      assert item[0] == ItemOpen[0];
      assert (item + Items(rows[1..], localTime))[0] == item[0];
    }
  }

  /** Items followed by the closing tags are never mistaken for `undefined`. */
  lemma ItemsNotUndefined(rows: seq<EventRow>, localTime: string -> CompactDate.DateTime)
    ensures Items(rows, localTime) + Footer != Undefined + Footer
  {
    var c := Items(rows, localTime) + Footer;
    ItemsStart(rows, localTime);
    if rows == [] {
      assert c == Footer;
      assert |c| != |Undefined + Footer|;
    } else {
      assert c[0] == '\n' && (Undefined + Footer)[0] == 'u';
    }
  }

  lemma FooterNotItem()
    ensures StripPrefix(ItemOpen, Footer) == None
  {
    assert Footer[3] != ItemOpen[3];
  }

  lemma ParseBodyOf(rows: Option<seq<EventRow>>, localTime: string -> CompactDate.DateTime)
    requires rows.Some? ==> forall k :: 0 <= k < |rows.value| ==> Renderable(rows.value[k], localTime)
    ensures rows.None? ==> ParseBody(Body(rows, localTime) + Footer) == Some(None)
    ensures rows.Some? ==> ParseBody(Body(rows, localTime) + Footer) == Some(Some(Views(rows.value, localTime)))
  {
    if rows.Some? {
      var rs := rows.value;
      var c := Items(rs, localTime) + Footer;
      assert Body(rows, localTime) + Footer == c;
      ItemsNotUndefined(rs, localTime);
      FooterNotItem();
      ParseItemsOf(rs, localTime, Footer);
      assert ParseItems(c) == (Views(rs, localTime), Footer);
    }
  }

  /**
   * Round trip: for plain text and in-range times, a reader recovers
   * the base URL as the channel link and, for every row in order, its title,
   * its description text, its start and end, its location exactly when that
   * is non-empty, and its id as the guid; a missing row list reads back as
   * missing.
   */
  lemma FeedRoundTrip(rows: Option<seq<EventRow>>, baseUrl: string, localTime: string -> CompactDate.DateTime)
    requires PlainText(baseUrl)
    requires rows.Some? ==> forall k :: 0 <= k < |rows.value| ==> Renderable(rows.value[k], localTime)
    ensures ParseFeed(Feed(rows, baseUrl, localTime))
         == Some(FeedView(baseUrl, match rows
              case None => None
              case Some(rs) => Some(Views(rs, localTime))))
  {
    var body := Body(rows, localTime);
    var c := body + Footer;
    var b := ChannelTail + c;
    Assoc(Prolog + baseUrl + ChannelTail, body, Footer);
    Assoc(Prolog + baseUrl, ChannelTail, c);
    Assoc(Prolog, baseUrl, b);
    assert b[0] == '<';
    FieldOf(Prolog, baseUrl, b);
    StripPrefixOf(ChannelTail, c);
    ParseBodyOf(rows, localTime);
  }

  /**
   * The items of two row lists are the items of the first followed by those
   * of the second: each row's item stays at its row's place, nothing is sorted.
   */
  lemma {:induction false} ItemsAppend(a: seq<EventRow>, b: seq<EventRow>, localTime: string -> CompactDate.DateTime)
    ensures Items(a + b, localTime) == Items(a, localTime) + Items(b, localTime)
  {
    if a == [] {
      assert a + b == b;
    } else {
      var head := Item(a[0], localTime);
      assert (a + b)[0] == a[0];
      assert (a + b)[1..] == a[1..] + b;
      assert Items(a + b, localTime) == head + Items(a[1..] + b, localTime);
      ItemsAppend(a[1..], b, localTime);
      Assoc(head, Items(a[1..], localTime), Items(b, localTime));
    }
  }

  /** An empty row list gives the bare channel, which reads back with zero items. */
  lemma EmptyFeed(baseUrl: string, localTime: string -> CompactDate.DateTime)
    requires PlainText(baseUrl)
    ensures Feed(Some([]), baseUrl, localTime) == Prolog + baseUrl + ChannelTail + Footer
    ensures ParseFeed(Feed(Some([]), baseUrl, localTime)) == Some(FeedView(baseUrl, Some([])))
  {
    assert Body(Some([]), localTime) == "";
    var envelope := Prolog + baseUrl + ChannelTail;
    assert envelope + "" == envelope;
    FeedRoundTrip(Some([]), baseUrl, localTime);
  }

  /** A missing row list prints `undefined` where the items would be, and reads back as no list. */
  lemma UndefinedFeed(baseUrl: string, localTime: string -> CompactDate.DateTime)
    requires PlainText(baseUrl)
    ensures Feed(None, baseUrl, localTime) == Prolog + baseUrl + ChannelTail + "undefined" + Footer
    ensures ParseFeed(Feed(None, baseUrl, localTime)) == Some(FeedView(baseUrl, None))
  {
    assert Body(None, localTime) == "undefined";
    FeedRoundTrip(None, baseUrl, localTime);
  }

  /**
   * Field by field, what a reader finds in the k-th item of a feed of
   * renderable rows.
   */
  lemma FeedItemFields(rows: seq<EventRow>, baseUrl: string, localTime: string -> CompactDate.DateTime, k: nat)
    requires PlainText(baseUrl)
    requires forall j :: 0 <= j < |rows| ==> Renderable(rows[j], localTime)
    requires k < |rows|
    ensures var view := ParseFeed(Feed(Some(rows), baseUrl, localTime));
      && view.Some? && view.value.link == baseUrl
      && view.value.items.Some? && |view.value.items.value| == |rows|
      && view.value.items.value[k].title == rows[k].title
      && view.value.items.value[k].description
         == (if rows[k].description.Some? then rows[k].description.value else "null")
      && view.value.items.value[k].start == localTime(rows[k].startDate)
      && view.value.items.value[k].end == localTime(rows[k].endDate)
      && (view.value.items.value[k].location.Some?
          <==> rows[k].location.Some? && rows[k].location.value != "")
      && (view.value.items.value[k].location.Some?
          ==> view.value.items.value[k].location.value == rows[k].location.value)
      && view.value.items.value[k].guid == rows[k].id
  {
    FeedRoundTrip(Some(rows), baseUrl, localTime);
    var views := Views(rows, localTime);
    assert views[k] == View(rows[k], localTime);
  }

  /** Text containing `<` or `&` is never read back as itself: the serializer does not escape. */
  lemma MarkupTitleNotRecovered(row: EventRow, localTime: string -> CompactDate.DateTime, rest: string)
    requires !PlainText(row.title)
    ensures ParseItem(Item(row, localTime) + rest) != Some(Parsed(View(row, localTime), rest))
  {
  }

  /**
   * A title that contains the closing tag `</title>` ends the title element
   * early in the written text: the element's character data is only the part
   * before the tag, and the closing tag follows it directly.
   */
  lemma ClosingTagInTitle(row: EventRow, localTime: string -> CompactDate.DateTime, rest: string,
                          before: string, after: string)
    requires row.title == before + "</title>" + after && PlainText(before)
    ensures var r := Field(ItemOpen, Item(row, localTime) + rest);
      && r.Some? && r.value.value == before && r.value.value != row.title
      && StripPrefix("</title>", r.value.rest).Some?
  {
    var x := AfterTitle + (DescriptionText(row.description)
            + (AfterDescription + (CompactDate.Format(localTime(row.startDate))
            + (AfterStart + (CompactDate.Format(localTime(row.endDate))
            + (AfterEnd + (LocationElement(row.location)
            + (BeforeGuid + (row.id + (ItemClose + rest))))))))));
    ItemAppend(row, localTime, rest);
    var tail := after + x;
    Assoc(before + "</title>", after, x);
    Assoc(before, "</title>", tail);
    FieldOf(ItemOpen, before, "</title>" + tail);
    StripPrefixOf("</title>", tail);
  }
}
