/** Keyword categorisation of an event and the category's thumbnail. */
module EventCategory {
  import opened Text

  /** The category nothing matched; it is skipped while matching. */
  const Etc: string := "기타"

  /** `categoryKeywords`, in the order `Object.entries` visits it. */
  const CategoryTable: seq<(string, seq<string>)> := [
    ("대중음악", ["대중음악", "콘서트", "밴드", "가요", "힙합", "재즈", "록", "팝", "인디"]),
    ("클래식", ["클래식", "오케스트라", "심포니", "실내악", "독주회", "협주곡"]),
    ("무용", ["무용", "댄스", "발레", "현대무용", "한국무용", "춤"]),
    ("뮤지컬", ["뮤지컬", "오페라", "음악극"]),
    ("영화", ["영화", "상영", "시네마", "필름"]),
    ("개그쇼", ["개그", "코미디", "개그쇼", "토크쇼"]),
    (Etc, [])
  ]

  /** The seven categories an event can have. */
  const CategoryNames: set<string> := {"대중음악", "클래식", "무용", "뮤지컬", "영화", "개그쇼", Etc}

  /** `lowerContent.includes(keyword.toLowerCase())`. */
  predicate Hit(lowered: string, keyword: string) {
    Contains(lowered, ToLower(keyword))
  }

  /** Some keyword of the list is found in the lowered content. */
  function AnyHit(lowered: string, keywords: seq<string>): (found: bool)
    ensures found <==> exists i :: 0 <= i < |keywords| && Hit(lowered, keywords[i])
  {
    if keywords == [] then false
    else if Hit(lowered, keywords[0]) then true
    else
      var found := AnyHit(lowered, keywords[1..]);
      assert forall i :: 1 <= i < |keywords| ==> keywords[i] == keywords[1..][i - 1];
      found
  }

  /** A keyword table: category names with their keywords, in the order
      they are tried. */
  type Table = seq<(string, seq<string>)>

  /** The first entry of `table` at index `c` or later, other than the
      default one, with a keyword hit; the default category when there is
      none. */
  function MatchFrom(table: Table, lowered: string, c: nat): (category: string)
    requires c <= |table|
    decreases |table| - c
    ensures category == Etc || exists k :: c <= k < |table| && category == table[k].0
                                           && table[k].0 != Etc && AnyHit(lowered, table[k].1)
  {
    if c == |table| then Etc
    else if table[c].0 != Etc && AnyHit(lowered, table[c].1) then table[c].0
    else MatchFrom(table, lowered, c + 1)
  }

  /** The default category comes out exactly when no other entry from `c`
      on has a hit. */
  lemma {:induction false} MatchFromEtcIff(table: Table, lowered: string, c: nat)
    requires c <= |table|
    decreases |table| - c
    ensures MatchFrom(table, lowered, c) == Etc <==>
              forall k :: c <= k < |table| && table[k].0 != Etc ==> !AnyHit(lowered, table[k].1)
  {
    if c < |table| {
      MatchFromEtcIff(table, lowered, c + 1);
    }
  }

  /** The first entry with a hit wins, whatever later entries match. */
  lemma {:induction false} MatchFromFirstHit(table: Table, lowered: string, c: nat, k: nat)
    requires c <= k < |table|
    requires table[k].0 != Etc && AnyHit(lowered, table[k].1)
    requires forall j :: c <= j < k && table[j].0 != Etc ==> !AnyHit(lowered, table[j].1)
    decreases k - c
    ensures MatchFrom(table, lowered, c) == table[k].0
  {
    if c < k {
      MatchFromFirstHit(table, lowered, c + 1, k);
    }
  }

  /** The category `table` assigns to event content. */
  function CategoryIn(table: Table, content: string): string {
    MatchFrom(table, ToLower(content), 0)
  }

  /** The category the page assigns to event content: always one of the
      seven names, and any other than the default only through a keyword
      of that category. */
  function CategoryOf(content: string): (category: string)
    ensures category in CategoryNames
    ensures category != Etc ==>
              exists k :: 0 <= k < |CategoryTable| - 1 && category == CategoryTable[k].0
                          && AnyHit(ToLower(content), CategoryTable[k].1)
  {
    assert forall k :: 0 <= k < |CategoryTable| ==> CategoryTable[k].0 in CategoryNames;
    CategoryIn(CategoryTable, content)
  }

  /** The categoriser as written: a nested loop over the table that skips
      the default entry and stops at the first keyword hit. */
  method Categorize(table: Table, content: string) returns (category: string)
    ensures category == CategoryIn(table, content)
  {
    category := Etc;
    var lowered := ToLower(content);
    var c := 0;
    while c < |table|
      invariant 0 <= c <= |table|
      invariant category == Etc
      invariant MatchFrom(table, lowered, c) == MatchFrom(table, lowered, 0)
    {
      var (cat, keywords) := table[c];
      if cat == Etc {
        assert MatchFrom(table, lowered, c) == MatchFrom(table, lowered, c + 1);
        c := c + 1;
        continue;
      }
      var k := 0;
      while k < |keywords|
        invariant 0 <= k <= |keywords|
        invariant category == Etc
        invariant forall j :: 0 <= j < k ==> !Hit(lowered, keywords[j])
      {
        if Contains(lowered, ToLower(keywords[k])) {
          category := cat;
          break;
        }
        k := k + 1;
      }
      if category != Etc {
        assert AnyHit(lowered, keywords);
        assert category == MatchFrom(table, lowered, c);
        break;
      }
      assert !AnyHit(lowered, keywords);
      assert MatchFrom(table, lowered, c) == MatchFrom(table, lowered, c + 1);
      c := c + 1;
    }
  }

  /** The default category is given exactly when no keyword of any other
      category is found. */
  lemma EtcIffNoKeyword(content: string)
    ensures CategoryOf(content) == Etc <==>
              forall k, i :: 0 <= k < |CategoryTable| - 1 && 0 <= i < |CategoryTable[k].1|
                             ==> !Hit(ToLower(content), CategoryTable[k].1[i])
  {
    MatchFromEtcIff(CategoryTable, ToLower(content), 0);
    assert forall k :: 0 <= k < |CategoryTable| - 1 ==> CategoryTable[k].0 != Etc;
    assert CategoryTable[|CategoryTable| - 1].0 == Etc;
  }

  /** Table order breaks ties: a category with a hit wins when no earlier
      category has one, whatever later categories match. */
  lemma FirstHitWins(content: string, k: nat)
    requires k < |CategoryTable| - 1
    requires AnyHit(ToLower(content), CategoryTable[k].1)
    requires forall j :: 0 <= j < k ==> !AnyHit(ToLower(content), CategoryTable[j].1)
    ensures CategoryOf(content) == CategoryTable[k].0
  {
    assert forall j :: 0 <= j < |CategoryTable| - 1 ==> CategoryTable[j].0 != Etc;
    MatchFromFirstHit(CategoryTable, ToLower(content), 0, k);
  }

  /** A popular-music keyword anywhere in the content, in any ASCII case,
      makes the event popular music. */
  lemma PopularMusicKeywordWins(content: string, i: nat)
    requires i < |CategoryTable[0].1|
    requires Contains(content, CategoryTable[0].1[i])
    ensures CategoryOf(content) == "대중음악"
  {
    ContainsLowered(content, CategoryTable[0].1[i]);
    assert Hit(ToLower(content), CategoryTable[0].1[i]);
    FirstHitWins(content, 0);
  }

  /** "2024 재즈 콘서트" is popular music. */
  lemma JazzConcertIsPopularMusic()
    ensures CategoryOf("2024 재즈 콘서트") == "대중음악"
  {
    var content := "2024 재즈 콘서트";
    assert content[5..7] == "재즈";
    assert OccursAt(content, CategoryTable[0].1[5], 5);
    PopularMusicKeywordWins(content, 5);
  }

  /** The one-syllable keyword 록 is found inside 기록, so a film
      documentary ("기록 영화") is filed as popular music, although the
      film keyword 영화 is found in it too. */
  lemma RecordFilmIsPopularMusic()
    ensures CategoryOf("기록 영화") == "대중음악"
    ensures AnyHit(ToLower("기록 영화"), CategoryTable[4].1)
  {
    var content := "기록 영화";
    assert content[1..2] == "록";
    assert OccursAt(content, CategoryTable[0].1[6], 1);
    PopularMusicKeywordWins(content, 6);
    assert content[3..5] == "영화";
    assert OccursAt(content, CategoryTable[4].1[0], 3);
    ContainsLowered(content, CategoryTable[4].1[0]);
    assert Hit(ToLower(content), CategoryTable[4].1[0]);
  }

  /** `categoryImageMap`. */
  const ImageMap: map<string, string> := map[
    "대중음악" := "pop-music", "클래식" := "classic", "무용" := "dance",
    "뮤지컬" := "musical", "영화" := "movie", "개그쇼" := "comedy", Etc := "etc"
  ]

  /** `categoryImageMap[category] || "etc"`. */
  function ImageName(category: string): (name: string)
    ensures name in ImageMap.Values
    ensures category in ImageMap ==> name == ImageMap[category]
    ensures category !in ImageMap ==> name == "etc"
  {
    assert forall c | c in ImageMap :: ImageMap[c] != "";
    assert Etc in ImageMap && ImageMap[Etc] == "etc";
    if category in ImageMap && ImageMap[category] != "" then ImageMap[category] else "etc"
  }

  /** `/category/${imageName}.svg`: the picture's name can be read back
      from between the fixed prefix and suffix. */
  function Thumbnail(category: string): (path: string)
    ensures |path| == |ImageName(category)| + 14
    ensures path[..10] == "/category/" && path[|path| - 4..] == ".svg"
    ensures path[10..|path| - 4] == ImageName(category)
  {
    "/category/" + ImageName(category) + ".svg"
  }

  /** The seven categories have seven different pictures. */
  lemma ImagesAreDistinct(a: string, b: string)
    requires a in CategoryNames && b in CategoryNames && a != b
    ensures Thumbnail(a) != Thumbnail(b)
  {
    assert ImageName(a) != ImageName(b);
  }

  /** Content with no keyword hit gets the default picture. */
  lemma NoHitGivesEtcThumbnail(content: string)
    requires forall k, i :: 0 <= k < |CategoryTable| - 1 && 0 <= i < |CategoryTable[k].1|
                            ==> !Hit(ToLower(content), CategoryTable[k].1[i])
    ensures Thumbnail(CategoryOf(content)) == "/category/etc.svg"
  {
    EtcIffNoKeyword(content);
  }
}
