/** The form for a new journal entry: the song search, the mood tag
    dropdown, the mood emoji, the journal text and the save request. */
module CreateVibe {
  import opened Common

  /** A search result as the form reads it. */
  datatype Song = Song(id: string, title: string, artist: string, image: string, spotifyUrl: string)

  /** The body of the POST that saves an entry. */
  datatype VibePayload = VibePayload(
    songTitle: string, artist: string, link: string, journalText: string, mood: string, tags: seq<string>, image: string)

  /** How the save request ended: a response with `ok` set and a JSON body,
      one with `ok` set whose body does not parse (the awaited `res.json()`
      throws into the catch before the modal is shown), one without `ok`, or
      a network failure. */
  datatype SaveOutcome = Ok | OkUnreadableBody | NotOk | NetworkError

  // -----------------------------------------------------------------------
  // Mood tags

  function NotEqual(id: string): string -> bool { (x: string) => x != id }

  /** `handleMoodTagToggle`'s update: every occurrence of a selected id is
      removed, an unselected one is appended. */
  function ToggleId(tags: seq<string>, id: string): (r: seq<string>)
    ensures id in r <==> id !in tags
    ensures forall x :: x != id ==> (x in r <==> x in tags)
  {
    if id in tags then
      assert forall x :: x in Filter(tags, NotEqual(id)) <==> x in tags && x != id by {
        forall x ensures x in Filter(tags, NotEqual(id)) <==> x in tags && x != id {
          FilterCount(tags, NotEqual(id), x);
          assert x in tags <==> multiset(tags)[x] > 0;
          assert x in Filter(tags, NotEqual(id)) <==> multiset(Filter(tags, NotEqual(id)))[x] > 0;
        }
      }
      Filter(tags, NotEqual(id))
    else tags + [id]
  }

  /** Removing keeps the other ids in their order; adding appends at the end. */
  lemma ToggleIdOrder(tags: seq<string>, id: string)
    ensures id in tags ==> ToggleId(tags, id) == Filter(tags, NotEqual(id))
    ensures id !in tags ==> ToggleId(tags, id)[..|tags|] == tags && ToggleId(tags, id)[|tags|] == id
  {
  }

  /** A list without repeats stays without repeats. */
  lemma ToggleIdKeepsDistinct(tags: seq<string>, id: string)
    requires Distinct(tags)
    ensures Distinct(ToggleId(tags, id))
  {
    if id in tags {
      FilterKeepsDistinct(tags, NotEqual(id));
    }
  }

  lemma {:induction false} FilterKeepsDistinct(s: seq<string>, p: string -> bool)
    requires Distinct(s)
    ensures Distinct(Filter(s, p))
  {
    if s != [] {
      var rest := Filter(s[1..], p);
      FilterKeepsDistinct(s[1..], p);
      FilterCount(s[1..], p, s[0]);
      assert s[0] !in s[1..];
      assert s[0] !in multiset(s[1..]);
      assert s[0] !in rest by {
        assert multiset(rest)[s[0]] == 0;
      }
      if p(s[0]) {
        var r := [s[0]] + rest;
        forall i, j | 0 <= i < j < |r| ensures r[i] != r[j] {
          if i == 0 {
            assert r[j] == rest[j - 1];
          } else {
            assert r[i] == rest[i - 1] && r[j] == rest[j - 1];
          }
        }
      }
    }
  }

  /** Toggling an unselected id twice gives back the original selection. */
  lemma ToggleIdTwice(tags: seq<string>, id: string)
    requires id !in tags
    ensures ToggleId(ToggleId(tags, id), id) == tags
  {
    FilterSnoc(tags, id, NotEqual(id));
    forall i | 0 <= i < |tags| ensures NotEqual(id)(tags[i]) {
    }
    FilterAll(tags, NotEqual(id));
  }

  /** The dropdown's label: "Select mood", or "n mood selected" with an "s"
      for more than one. */
  function MoodLabel(count: nat): (text: string)
    ensures count == 0 <==> text == "Select mood"
    ensures count == 1 ==> text == "1 mood selected"
    ensures count > 1 ==> text == NatToString(count, 10) + " moods selected"
  {
    if count > 0 then IntToDecimal(count) + " mood" + (if count > 1 then "s" else "") + " selected"
    else "Select mood"
  }

  /** The label's leading digits read back as the number of selected tags. */
  lemma MoodLabelCount(count: nat)
    requires count > 0
    ensures var digits := NatToString(count, 10);
      MoodLabel(count)[..|digits|] == digits && DigitsValue(digits, 10) == count
  {
    NatToStringRoundTrip(count, 10);
  }

  /** The debounce effect depends on `searchQuery` alone, so React runs it
      only when the query text changes, and it returns early on an empty
      query: the search timer is armed by a change to a non-empty query. */
  predicate SchedulesSearch(oldQuery: string, query: string)
    // setting the same text again, or clearing the box, never arms it
    ensures query == oldQuery ==> !SchedulesSearch(oldQuery, query)
    ensures query == "" ==> !SchedulesSearch(oldQuery, query)
  {
    query != oldQuery && query != ""
  }

  class CreateVibeForm {
    var searchQuery: string
    var selectedSong: Option<Song>
    var selectedMoodTags: seq<string>
    var selectedMoodEmoji: string
    var journalEntry: string
    var showSearchResults: bool
    var customImage: Option<string>
    var showModal: bool

    /** The empty form. */
    constructor ()
      ensures searchQuery == "" && selectedSong == None && selectedMoodTags == []
      ensures selectedMoodEmoji == "" && journalEntry == "" && !showSearchResults
      ensures customImage == None && !showModal
    {
      searchQuery := "";
      selectedSong := None;
      selectedMoodTags := [];
      selectedMoodEmoji := "";
      journalEntry := "";
      showSearchResults := false;
      customImage := None;
      showModal := false;
    }

    /** A click on a mood tag in the dropdown or on a selected tag's remove button. */
    method HandleMoodTagToggle(tagId: string)
      modifies this
      ensures selectedMoodTags == ToggleId(old(selectedMoodTags), tagId)
      ensures searchQuery == old(searchQuery) && selectedSong == old(selectedSong)
      ensures selectedMoodEmoji == old(selectedMoodEmoji) && journalEntry == old(journalEntry)
      ensures showSearchResults == old(showSearchResults) && customImage == old(customImage) && showModal == old(showModal)
    {
      selectedMoodTags := ToggleId(selectedMoodTags, tagId);
    }

    /** Typing in the search box; returns whether the debounced search is armed. */
    method OnSearchQueryChange(query: string) returns (scheduled: bool)
      modifies this
      ensures searchQuery == query
      ensures scheduled <==> query != "" && query != old(searchQuery)
      ensures selectedSong == old(selectedSong) && selectedMoodTags == old(selectedMoodTags)
      ensures selectedMoodEmoji == old(selectedMoodEmoji) && journalEntry == old(journalEntry)
      ensures showSearchResults == old(showSearchResults) && customImage == old(customImage) && showModal == old(showModal)
    {
      scheduled := SchedulesSearch(searchQuery, query);
      searchQuery := query;
    }

    /** `handleSongSelect`: remember the song, show "artist - title" in the
        search box and close the results. The new query is never empty, so
        it arms the debounced search exactly when it differs from the text
        already in the box. */
    method HandleSongSelect(song: Song) returns (scheduled: bool)
      modifies this
      ensures scheduled <==> searchQuery != old(searchQuery)
      ensures selectedSong == Some(song)
      ensures searchQuery == song.artist + " - " + song.title
      ensures !showSearchResults
      ensures selectedMoodTags == old(selectedMoodTags) && selectedMoodEmoji == old(selectedMoodEmoji)
      ensures journalEntry == old(journalEntry) && customImage == old(customImage) && showModal == old(showModal)
    {
      var query := song.artist + " - " + song.title;
      scheduled := SchedulesSearch(searchQuery, query);
      selectedSong := Some(song);
      searchQuery := query;
      showSearchResults := false;
    }

    /** Choosing one of the three mood emojis. */
    method SelectMoodEmoji(moodId: string)
      modifies this
      ensures selectedMoodEmoji == moodId
      ensures searchQuery == old(searchQuery) && selectedSong == old(selectedSong) && selectedMoodTags == old(selectedMoodTags)
      ensures journalEntry == old(journalEntry) && showSearchResults == old(showSearchResults)
      ensures customImage == old(customImage) && showModal == old(showModal)
    {
      selectedMoodEmoji := moodId;
    }

    /** `clearSearch`: empties the query, the song, the journal text and the
        mood tags and hides the results; the mood emoji and an uploaded
        image stay. */
    method ClearSearch()
      modifies this
      ensures searchQuery == "" && selectedSong == None && journalEntry == "" && selectedMoodTags == []
      ensures !showSearchResults
      ensures selectedMoodEmoji == old(selectedMoodEmoji) && customImage == old(customImage) && showModal == old(showModal)
    {
      searchQuery := "";
      selectedSong := None;
      journalEntry := "";
      selectedMoodTags := [];
      showSearchResults := false;
    }

    /** The body `handleSaveEntry` posts for the current form. */
    function Payload(song: Song): (p: VibePayload)
      reads this
      ensures p.songTitle == song.title && p.artist == song.artist && p.link == song.spotifyUrl && p.image == song.image
      ensures p.journalText == journalEntry && p.mood == selectedMoodEmoji && p.tags == selectedMoodTags
    {
      VibePayload(song.title, song.artist, song.spotifyUrl, journalEntry, selectedMoodEmoji, selectedMoodTags, song.image)
    }

    /** `handleSaveEntry`. Reading the song's fields with no song selected,
        or the token with no one signed in, throws before any request, so
        nothing is sent. Otherwise the payload is posted, and only an `ok`
        response whose body parses shows the modal and clears the form. Returns the request
        body, if one was sent. */
    method HandleSaveEntry(signedIn: bool, outcome: SaveOutcome) returns (sent: Option<VibePayload>)
      modifies this
      ensures old(selectedSong).None? || !signedIn ==> sent == None
      ensures old(selectedSong).Some? && signedIn ==> sent == Some(old(Payload(selectedSong.value)))
      ensures sent.Some? && outcome == Ok ==>
        && showModal && searchQuery == "" && selectedSong == None && journalEntry == "" && selectedMoodTags == []
        && !showSearchResults && selectedMoodEmoji == old(selectedMoodEmoji) && customImage == old(customImage)
      ensures sent.None? || outcome != Ok ==>
        && searchQuery == old(searchQuery) && selectedSong == old(selectedSong) && selectedMoodTags == old(selectedMoodTags)
        && selectedMoodEmoji == old(selectedMoodEmoji) && journalEntry == old(journalEntry)
        && showSearchResults == old(showSearchResults) && customImage == old(customImage) && showModal == old(showModal)
    {
      if selectedSong.None? || !signedIn {
        return None;
      }
      sent := Some(Payload(selectedSong.value));
      if outcome == Ok {
        showModal := true;
        ClearSearch();
      }
    }
  }
}
