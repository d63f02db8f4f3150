/** The home page: the category buttons' selection and the list of events
    it lets through. */
module Home {
  import opened Sequences

  /** One card of the home page's `eventData`. */
  datatype EventCard = EventCard(id: int, title: string, image: string, category: string)

  /** The home page's built-in `eventData`. */
  const EventData: seq<EventCard> := [
    EventCard(1, "신지윤 마술사의 세상에서 가장 재미있는 마술쇼",
              "https://via.placeholder.com/200x250/cccccc/666666?text=Magic+Show", "클래식"),
    EventCard(2, "2022 신년음악회<A New Year Concert>",
              "https://via.placeholder.com/200x250/cccccc/666666?text=Concert", "대중음악"),
    EventCard(3, "[문화가 있는 날-키즈브런치] 아카펠라그룹 제니스와 함께하는 목소리상자",
              "https://via.placeholder.com/200x250/cccccc/666666?text=Acapella", "대중음악"),
    EventCard(4, "[문화가 있는 날] 남경주와 함께하는 올댓스테이지 - 뮤지컬",
              "https://via.placeholder.com/200x250/cccccc/666666?text=Musical", "뮤지컬"),
    EventCard(5, "봉오동전투",
              "https://via.placeholder.com/200x250/cccccc/666666?text=Movie", "영화")
  ]

  /** The selection the page starts with. */
  const InitialSelection: seq<string> := ["클래식", "대중음악"]

  /** No category occurs twice. */
  ghost predicate NoDuplicates(s: seq<string>) {
    forall x :: multiset(s)[x] <= 1
  }

  /** `prev.filter((c) => c !== category)`. */
  function Without(s: seq<string>, category: string): (r: seq<string>)
    ensures multiset(r) == multiset(s)[category := 0]
    ensures IsSubsequence(r, s)
  {
    if s == [] then []
    else
      var rest := Without(s[1..], category);
      assert s == [s[0]] + s[1..];
      assert multiset(s) == multiset{s[0]} + multiset(s[1..]);
      if s[0] == category then
        assert multiset(s)[category := 0] == multiset(s[1..])[category := 0];
        assert rest != [] ==> rest[0] in multiset(rest);
        rest
      else
        assert multiset([s[0]] + rest) == multiset{s[0]} + multiset(rest);
        assert multiset(s)[category := 0] == multiset{s[0]} + multiset(s[1..])[category := 0];
        assert ([s[0]] + rest)[1..] == rest;
        [s[0]] + rest
  }

  /** The selection after `toggleCategory(category)`. */
  function Toggled(prev: seq<string>, category: string): (r: seq<string>)
    ensures category in r <==> category !in prev
    ensures forall x :: x != category ==> multiset(r)[x] == multiset(prev)[x]
    ensures category !in prev ==> r == prev + [category]
    ensures category in prev ==> IsSubsequence(r, prev)
  {
    if category in prev then
      var r := Without(prev, category);
      assert category !in multiset(r);
      r
    else
      assert multiset(prev + [category]) == multiset(prev) + multiset{category};
      prev + [category]
  }

  /** Removing a category that was just appended restores the list. */
  lemma {:induction false} WithoutAppended(s: seq<string>, category: string)
    requires category !in s
    ensures Without(s + [category], category) == s
  {
    if s == [] {
      assert Without([category], category) == [] + Without([], category);
    } else {
      assert (s + [category])[1..] == s[1..] + [category];
      WithoutAppended(s[1..], category);
      assert s == [s[0]] + s[1..];
    }
  }

  /** Toggling an unselected category twice gives back the selection. */
  lemma ToggleTwiceRestores(s: seq<string>, category: string)
    requires category !in s
    ensures Toggled(Toggled(s, category), category) == s
  {
    WithoutAppended(s, category);
  }

  /** A toggle keeps the selection free of duplicates. */
  lemma ToggleKeepsNoDuplicates(s: seq<string>, category: string)
    requires NoDuplicates(s)
    ensures NoDuplicates(Toggled(s, category))
  {
    var r := Toggled(s, category);
    forall x ensures multiset(r)[x] <= 1 {
      if x == category && category !in s {
        assert multiset(s)[category] == 0;
      }
    }
  }

  /** The selection after toggling each of `clicks` in turn. */
  function ToggleAll(s: seq<string>, clicks: seq<string>): seq<string>
    decreases |clicks|
  {
    if clicks == [] then s else ToggleAll(Toggled(s, clicks[0]), clicks[1..])
  }

  /** Any run of toggles from a duplicate-free selection stays
      duplicate-free. */
  lemma {:induction false} TogglesKeepNoDuplicates(s: seq<string>, clicks: seq<string>)
    requires NoDuplicates(s)
    ensures NoDuplicates(ToggleAll(s, clicks))
    decreases |clicks|
  {
    if clicks != [] {
      ToggleKeepsNoDuplicates(s, clicks[0]);
      TogglesKeepNoDuplicates(Toggled(s, clicks[0]), clicks[1..]);
    }
  }

  lemma InitialSelectionHasNoDuplicates()
    ensures NoDuplicates(InitialSelection)
  {
    var s := InitialSelection;
    assert s == ["클래식"] + ["대중음악"];
    assert multiset(s) == multiset{"클래식", "대중음악"};
  }

  /** `eventData.filter((event) => selectedCategories.length === 0 ||
      selectedCategories.includes(event.category))`. */
  function FilterEvents(events: seq<EventCard>, selected: seq<string>): (r: seq<EventCard>)
    ensures selected == [] ==> r == events
    ensures forall e :: multiset(r)[e] ==
              if selected == [] || e.category in selected then multiset(events)[e] else 0
    ensures IsSubsequence(r, events)
  {
    if events == [] then []
    else
      var rest := FilterEvents(events[1..], selected);
      assert events == [events[0]] + events[1..];
      assert multiset(events) == multiset{events[0]} + multiset(events[1..]);
      if selected == [] || events[0].category in selected then
        assert multiset([events[0]] + rest) == multiset{events[0]} + multiset(rest);
        assert ([events[0]] + rest)[1..] == rest;
        [events[0]] + rest
      else
        assert rest != [] ==> rest[0] in multiset(rest);
        rest
  }

  /** Filtering what was already filtered changes nothing. */
  lemma {:induction false} FilterIdempotent(events: seq<EventCard>, selected: seq<string>)
    ensures FilterEvents(FilterEvents(events, selected), selected) == FilterEvents(events, selected)
  {
    if events != [] {
      FilterIdempotent(events[1..], selected);
      var rest := FilterEvents(events[1..], selected);
      if selected == [] || events[0].category in selected {
        assert FilterEvents(events, selected) == [events[0]] + rest;
        assert ([events[0]] + rest)[1..] == rest;
      }
    }
  }

  /** The home page's state: the React state hooks of the component. */
  class HomePage {
    var selectedCategories: seq<string>
    var searchQuery: string

    ghost predicate Valid()
      reads this
    {
      NoDuplicates(selectedCategories)
    }

    constructor()
      ensures Valid()
      ensures selectedCategories == InitialSelection && searchQuery == ""
    {
      selectedCategories := InitialSelection;
      searchQuery := "";
      InitialSelectionHasNoDuplicates();
    }

    /** The events shown: the built-in cards of the selected categories,
        all of them when none is selected, in their order; the search text
        plays no part. */
    function FilteredEvents(): (shown: seq<EventCard>)
      reads this
      ensures forall e :: multiset(shown)[e] ==
                if selectedCategories == [] || e.category in selectedCategories then multiset(EventData)[e] else 0
      ensures IsSubsequence(shown, EventData)
    {
      FilterEvents(EventData, selectedCategories)
    }

    /** `toggleCategory`. */
    method ToggleCategory(category: string)
      requires Valid()
      modifies this
      ensures Valid()
      ensures selectedCategories == Toggled(old(selectedCategories), category)
      ensures searchQuery == old(searchQuery)
    {
      ToggleKeepsNoDuplicates(selectedCategories, category);
      selectedCategories := Toggled(selectedCategories, category);
    }

    /** The search box's `onChange`. */
    method SetSearchQuery(query: string)
      modifies this
      ensures searchQuery == query
      ensures selectedCategories == old(selectedCategories)
      ensures FilteredEvents() == old(FilteredEvents())
    {
      searchQuery := query;
    }
  }
}
