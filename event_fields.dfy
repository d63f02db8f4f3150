/** Field resolution of the event detail page: every record field is read
    from the first of its source columns that holds a non-empty value
    (`item["a"] || item["b"] || default`). */
module EventFields {

  /** One parsed CSV row: normalised column name to cell text. */
  type Row = map<string, string>

  /** `item[key]`, where a missing column reads as the falsy `undefined`,
      which `||` treats like the empty string. */
  function Cell(row: Row, key: string): (cell: string)
    ensures cell == "" <==> key !in row || row[key] == ""
    ensures cell != "" ==> key in row && cell == row[key]
  {
    if key in row then row[key] else ""
  }

  /** `item[aliases[0]] || item[aliases[1]] || ... || fallback`. */
  function FirstNonEmpty(row: Row, aliases: seq<string>, fallback: string): (r: string)
    ensures (forall i :: 0 <= i < |aliases| ==> Cell(row, aliases[i]) == "") ==> r == fallback
    ensures forall i :: 0 <= i < |aliases| && Cell(row, aliases[i]) != ""
                        && (forall j :: 0 <= j < i ==> Cell(row, aliases[j]) == "")
                        ==> r == Cell(row, aliases[i])
  {
    if aliases == [] then fallback
    else if Cell(row, aliases[0]) != "" then Cell(row, aliases[0])
    else
      var r := FirstNonEmpty(row, aliases[1..], fallback);
      assert forall i :: 1 <= i < |aliases| ==> aliases[i] == aliases[1..][i - 1];
      r
  }

  /** A non-empty fallback can never give an empty field. */
  lemma {:induction false} NonEmptyFallbackGivesNonEmpty(row: Row, aliases: seq<string>, fallback: string)
    requires fallback != ""
    ensures FirstNonEmpty(row, aliases, fallback) != ""
  {
    if aliases != [] && Cell(row, aliases[0]) == "" {
      NonEmptyFallbackGivesNonEmpty(row, aliases[1..], fallback);
    }
  }

  /** Only the column names listed matter: rows that agree on them give
      the same field. */
  lemma {:induction false} OnlyAliasesMatter(row: Row, other: Row, aliases: seq<string>, fallback: string)
    requires forall i :: 0 <= i < |aliases| ==> Cell(row, aliases[i]) == Cell(other, aliases[i])
    ensures FirstNonEmpty(row, aliases, fallback) == FirstNonEmpty(other, aliases, fallback)
  {
    if aliases != [] {
      assert Cell(row, aliases[0]) == Cell(other, aliases[0]);
      OnlyAliasesMatter(row, other, aliases[1..], fallback);
    }
  }

  const ContentAliases: seq<string> := ["행사내용", "내용", "설명"]
  const TitleAliases: seq<string> := ["행사명", "공연명"]
  const StartDateAliases: seq<string> := ["행사시작일자", "공연시작일"]
  const EndDateAliases: seq<string> := ["행사종료일자", "공연종료일"]
  const PlaceAliases: seq<string> := ["개최장소", "공연장소"]
  const RealmAliases: seq<string> := ["문화행사구분명"]
  const AreaAliases: seq<string> := ["소재지도로명주소", "소재지지번주소"]
  const LongitudeAliases: seq<string> := ["경도"]
  const LatitudeAliases: seq<string> := ["위도"]
  const OrganizerAliases: seq<string> := ["주최기관", "주관기관"]
  const PhoneAliases: seq<string> := ["전화번호"]
  const WebsiteAliases: seq<string> := ["홈페이지주소", "URL"]
  const FeeAliases: seq<string> := ["이용요금", "관람료"]

  /** The fee shown when neither fee column is filled in. */
  const FreeOfCharge: string := "무료"

  /** The title is the event-name column when it is filled in, and the
      performance-name column only otherwise. */
  lemma TitlePrefersEventName(row: Row)
    ensures Cell(row, "행사명") != "" ==> FirstNonEmpty(row, TitleAliases, "") == Cell(row, "행사명")
    ensures Cell(row, "행사명") == "" ==> FirstNonEmpty(row, TitleAliases, "") == Cell(row, "공연명")
  {
    assert TitleAliases[0] == "행사명" && TitleAliases[1] == "공연명";
  }

  /** The content is the first filled-in of event content, content and
      description, and empty when none is. */
  lemma ContentOrder(row: Row)
    ensures Cell(row, "행사내용") != "" ==> FirstNonEmpty(row, ContentAliases, "") == Cell(row, "행사내용")
    ensures Cell(row, "행사내용") == "" && Cell(row, "내용") != ""
            ==> FirstNonEmpty(row, ContentAliases, "") == Cell(row, "내용")
    ensures Cell(row, "행사내용") == "" && Cell(row, "내용") == ""
            ==> FirstNonEmpty(row, ContentAliases, "") == Cell(row, "설명")
  {
    assert ContentAliases[0] == "행사내용" && ContentAliases[1] == "내용" && ContentAliases[2] == "설명";
  }

  /** A row with neither fee column filled in is free of charge. */
  lemma FeeDefaultsToFree(row: Row)
    requires Cell(row, "이용요금") == "" && Cell(row, "관람료") == ""
    ensures FirstNonEmpty(row, FeeAliases, FreeOfCharge) == FreeOfCharge
  {
    assert FeeAliases[0] == "이용요금" && FeeAliases[1] == "관람료";
  }
}
