/** Building the event shown on the detail page from one parsed CSV row. */
module EventDetail {
  import opened EventFields
  import opened EventCategory

  /** `PerformanceEvent`. */
  datatype EventRecord = EventRecord(
    seqId: string,  // the source field `seq`
    title: string,
    startDate: string,
    endDate: string,
    place: string,
    realmName: string,
    area: string,
    thumbnail: string,
    gpsX: string,
    gpsY: string,
    category: string,
    content: string,
    organizer: string,
    phone: string,
    website: string,
    fee: string)

  /** The `complete` callback's record construction for the row `row` and
      the route parameter `id` (`""` when the route has none). */
  method BuildEvent(row: Row, id: string) returns (e: EventRecord)
    ensures e.seqId == (if id == "" then "0" else id)
    ensures e.content == FirstNonEmpty(row, ContentAliases, "")
    ensures e.category == CategoryOf(e.content) && e.category in CategoryNames
    ensures e.thumbnail == Thumbnail(e.category)
    ensures e.title == FirstNonEmpty(row, TitleAliases, "")
    ensures e.startDate == FirstNonEmpty(row, StartDateAliases, "")
    ensures e.endDate == FirstNonEmpty(row, EndDateAliases, "")
    ensures e.place == FirstNonEmpty(row, PlaceAliases, "")
    ensures e.realmName == FirstNonEmpty(row, RealmAliases, "")
    ensures e.area == FirstNonEmpty(row, AreaAliases, "")
    ensures e.gpsX == FirstNonEmpty(row, LongitudeAliases, "")
    ensures e.gpsY == FirstNonEmpty(row, LatitudeAliases, "")
    ensures e.organizer == FirstNonEmpty(row, OrganizerAliases, "")
    ensures e.phone == FirstNonEmpty(row, PhoneAliases, "")
    ensures e.website == FirstNonEmpty(row, WebsiteAliases, "")
    ensures e.fee == FirstNonEmpty(row, FeeAliases, FreeOfCharge) && e.fee != ""
  {
    var content := FirstNonEmpty(row, ContentAliases, "");
    var category := Categorize(CategoryTable, content);
    NonEmptyFallbackGivesNonEmpty(row, FeeAliases, FreeOfCharge);
    e := EventRecord(
      seqId := if id == "" then "0" else id,
      title := FirstNonEmpty(row, TitleAliases, ""),
      startDate := FirstNonEmpty(row, StartDateAliases, ""),
      endDate := FirstNonEmpty(row, EndDateAliases, ""),
      place := FirstNonEmpty(row, PlaceAliases, ""),
      realmName := FirstNonEmpty(row, RealmAliases, ""),
      area := FirstNonEmpty(row, AreaAliases, ""),
      thumbnail := Thumbnail(category),
      gpsX := FirstNonEmpty(row, LongitudeAliases, ""),
      gpsY := FirstNonEmpty(row, LatitudeAliases, ""),
      category := category,
      content := content,
      organizer := FirstNonEmpty(row, OrganizerAliases, ""),
      phone := FirstNonEmpty(row, PhoneAliases, ""),
      website := FirstNonEmpty(row, WebsiteAliases, ""),
      fee := FirstNonEmpty(row, FeeAliases, FreeOfCharge));
  }
}
