# VibeDeck front end: a verified Dafny model

VibeDeck is a music mood journal. Users pick a song and write a journal
entry about it. They tag the entry with a mood emoji and mood tags. They
then browse their entries by month, and they get song suggestions. This
project models the front end's own rules and proves properties of them.
The rules modelled are:

- the entry organiser: filter by mood and tag, stable sort, group by month;
- the colour maths that tints the suggestion slides;
- the component state machines: carousels, play/pause toggles, the two-press
  delete, clamped seeks and `m:ss` times, tag toggles, labels and the
  greeting.

One Dafny module stands for each source file:

| file | module | source |
|---|---|---|
| `view_entries.dfy` | `ViewEntries` | `src/components/ViewEntries.jsx` |
| `color_extractor.dfy` | `ColorExtractor` | `src/utils/colorExtractor.js` |
| `dashboard.dfy` | `Dashboard` | `src/components/Dashboard.jsx` |
| `suggestions_page.dfy` | `SuggestionsPage` | `src/components/SuggestionsPage.jsx` |
| `create_vibe.dfy` | `CreateVibe` | `src/components/CreateVibe.jsx` |
| `tag_selector.dfy` | `TagSelector` | `src/components/TagSelector.jsx` |
| `entry_details.dfy` | `EntryDetails` | `src/components/EntryDetails.jsx` |
| `mini_player.dfy` | `MiniPlayer` | `src/components/MiniPlayer.tsx` |
| `greetings.dfy` | `Greetings` | `src/components/Greetings.jsx` |

Two more modules hold shared code:

- `Common` (`common.dfy`) holds the JavaScript library behaviour the
  components rely on:
  - `Array.prototype.filter`, `join` and `includes`;
  - `Number.prototype.toString(base)` and its inverse;
  - `padStart`;
  - `Math.round`.
- `Carousel` (`carousel.dfy`) holds the `(i + 1) % n` and
  `(i - 1 + n) % n` index arithmetic that two pages share.

## How the source maps to Dafny

- **React state becomes class fields.** The state a component updates in
  an event handler is a class with the same fields. Each handler is a
  method whose `ensures` gives the whole new state. Examples are
  `DashboardPage`, `SuggestionsPageState`, `CreateVibeForm`,
  `EntryDetailsPage` and `MiniPlayerState`.
- **Pure expressions stay pure.** They become functions, with lemmas that
  relate each function to an inverse or a reference definition.
- **Loops stay loops.** The averaging loop, the colour-map loop and the
  month grouping are methods with loops. Each is proved against a
  specification function. The filter-and-sort is a method that chains
  `Filter` and an insertion-sort function, as the source chains the
  library's `filter` and `sort` calls.
- **Dates are a timestamp plus a key.** A date is an integer timestamp plus
  a `(year, month)` key.
- **`localeCompare` is a fixed order.** It is modelled as lexicographic
  order on code points. Only its antisymmetry and transitivity are used.
- **`Array.prototype.sort` is a stable insertion sort.** That is the
  ordering ECMAScript requires.
- **Numbers are exact reals.** Rounding (`Math.round`) and JavaScript's
  truncating `%` are written out explicitly.

## Model

| member | source | states |
|---|---|---|
| ViewEntries.Keeps | src/components/ViewEntries.jsx:109-117 | with both filters on "all" every entry is kept; a kept entry has the chosen mood and its tags contain the chosen tag, for each filter that is not "all" (FilterThenFilter: one filter by it equals the two filters in turn) |
| ViewEntries.FilterThenFilter | src/components/ViewEntries.jsx:109-117 | the two successive `filter` calls keep exactly the entries that pass both the mood test and the tag test |
| ViewEntries.TagFilterMatchesInsideLongerTag | src/components/ViewEntries.jsx:115-117 | the tag filter tests substring containment on the raw tags string, so "rap" keeps an entry tagged "trap" |
| Common.ContainsAt | src/components/ViewEntries.jsx:116 | `includes` holds whenever the needle occurs at some offset of the string |
| Common.ContainsOffset | src/components/ViewEntries.jsx:116 | conversely, when `includes` holds the needle occurs at some offset, so the tag filter is exactly substring containment |
| ViewEntries.LocaleCompare | src/components/ViewEntries.jsx:126-129 | the result is -1, 0 or 1; the first differing character decides, and a proper prefix sorts first (antisymmetry, transitivity and zero-on-equal in the lemmas below) |
| ViewEntries.LocaleCompareAntisymmetric | src/components/ViewEntries.jsx:126-129 | swapping the strings negates the comparison |
| ViewEntries.LocaleCompareTransitive | src/components/ViewEntries.jsx:126-129 | "not after" is transitive |
| ViewEntries.LocaleCompareZero | src/components/ViewEntries.jsx:126-129 | the comparison is 0 exactly for equal strings |
| ViewEntries.Compare | src/components/ViewEntries.jsx:120-133 | "newest" is negative exactly when `a` is later and "oldest" exactly when `a` is earlier, each zero exactly on equal timestamps; "title" and "artist" give -1, 0 or 1 (zero exactly on equal text by LocaleCompareZero); any other key gives 0 |
| ViewEntries.CompareAntisymmetric | src/components/ViewEntries.jsx:120-133 | the sort comparator is antisymmetric for every sort key |
| ViewEntries.CompareTransitive | src/components/ViewEntries.jsx:120-133 | the sort comparator is transitive for every sort key |
| ViewEntries.InsertPermutes | src/components/ViewEntries.jsx:120-133 | inserting one entry adds exactly that entry to the multiset |
| ViewEntries.InsertSorted | src/components/ViewEntries.jsx:120-133 | inserting into a sorted list keeps it sorted |
| ViewEntries.SortEntries | src/components/ViewEntries.jsx:120-133 | the sorted list is as long as the input (SortEntriesCorrect and SortEntriesStable: a sorted, stable permutation) |
| ViewEntries.SortEntriesCorrect | src/components/ViewEntries.jsx:120-133 | the sort result is a permutation of its input and is ordered by the comparator |
| ViewEntries.SortEntriesStable | src/components/ViewEntries.jsx:120-133 | entries the comparator ranks equal keep their input order |
| ViewEntries.SortUnknownKeyKeepsOrder | src/components/ViewEntries.jsx:130-131 | with a sort key the switch does not know, the comparator returns 0 and the order is unchanged |
| ViewEntries.FilteredAndSortedEntries | src/components/ViewEntries.jsx:106-135 | each entry survives exactly as often as it occurs in the input when it passes the filters, and never otherwise; the result is ordered; newest gives non-increasing timestamps, oldest non-decreasing, title and artist ascending; the sort is stable; an unknown key leaves the filtered order |
| ViewEntries.GroupStep | src/components/ViewEntries.jsx:149-152 | one iteration of the `forEach` extends the month order and groups built so far by one entry |
| ViewEntries.GroupByMonth | src/components/ViewEntries.jsx:141-153 | months are listed in first-seen order; the keys are exactly the listed months; each group is the entries of its month in sorted order |
| ViewEntries.FirstSeen | src/components/ViewEntries.jsx:149-152 | no more months than entries, and at least one month when there is an entry (FirstSeenMembers, FirstSeenDistinct, FirstSeenStartsWithFirstEntry: exactly the months present, each once, the first entry's month first) |
| ViewEntries.FirstSeenMembers | src/components/ViewEntries.jsx:149-151 | a month has a group exactly when some entry falls in it |
| ViewEntries.FirstSeenDistinct | src/components/ViewEntries.jsx:149-151 | no month is listed twice |
| ViewEntries.FirstSeenStartsWithFirstEntry | src/components/ViewEntries.jsx:149-152 | the first group is the month of the first sorted entry |
| ViewEntries.GroupedCountSnoc | src/components/ViewEntries.jsx:152 | pushing an entry adds one to the count exactly when its month is listed |
| ViewEntries.GroupsPartitionCount | src/components/ViewEntries.jsx:141-153 | the groups together hold exactly as many entries as the sorted list |
| ViewEntries.FilterKeepsSorted | src/components/ViewEntries.jsx:152 | each group keeps the sorted relative order |
| ViewEntries.GroupedEntries | src/components/ViewEntries.jsx:137-156 | the list it groups is `filteredAndSortedEntries` (exactly the survivors, sorted by the key, stable); the months appear in the order that list first reaches them, and each month's group is that list's entries of the month, in order; no groups exactly when no entry passes the filters (the empty state at lines 294-296); the group sizes add up to the number of survivors |
| ViewEntries.SurvivorsPermutation | src/components/ViewEntries.jsx:106-117 | a list holding each survivor as often as the input does is a permutation of the filtered input |
| ViewEntries.GroupContents | src/components/ViewEntries.jsx:141-153 | each group holds each entry of its month as often as the input does, provided the entry passes the filters |
| ViewEntries.GroupedCountPermutation | src/components/ViewEntries.jsx:141-153 | group sizes depend only on which entries are present, not on their order |
| ViewEntries.FilterSizeByCount | src/components/ViewEntries.jsx:141-153 | a filter of two permutations of one list has the same size |
| ViewEntries.MoodEmoji | src/components/ViewEntries.jsx:323-334 | happy, sad and neutral map to their own face, and every other mood maps to the question mark |
| ViewEntries.DragEndIndex | src/components/ViewEntries.jsx:348-351 | the index after a drag always names a card of the section |
| ViewEntries.DragEndAtSlideOffset | src/components/ViewEntries.jsx:348-351 | releasing the track at the offset `goToSlide(i)` moves to (line 364) selects card `i` |
| Carousel.Next | src/components/Dashboard.jsx:85-88 | `(i + 1) % n` is in `[0, n)` and steps from the last slide to the first |
| Carousel.Prev | src/components/Dashboard.jsx:90-93 | `(i - 1 + n) % n` is in `[0, n)` and steps from the first slide to the last |
| Carousel.PrevNextInverse | src/components/Dashboard.jsx:85-93 | previous undoes next, and next undoes previous |
| Carousel.Advance | src/components/SuggestionsPage.jsx:57-60 | `k` ticks of the auto-advance stay on a slide |
| Carousel.AdvanceWraps | src/components/SuggestionsPage.jsx:57-60 | up to one full turn, `k` ticks land on `i + k`, wrapped once past the end |
| Carousel.FullTurn | src/components/SuggestionsPage.jsx:57-60 | `n` ticks return to the starting slide |
| Common.Round | src/utils/colorExtractor.js:34-36 | `Math.round` is within half a unit of its argument, with halves rounded up |
| Common.NatToStringRoundTrip | src/utils/colorExtractor.js:145-147 | reading back the digits `toString(base)` prints gives the number |
| Common.PadStart2Value | src/components/EntryDetails.jsx:146 | `padStart(2, "0")` keeps the digit string's value |
| ColorExtractor.ChannelSum | src/utils/colorExtractor.js:27-32 | the sum of one channel over `n` pixels lies between 0 and 255·n |
| ColorExtractor.AverageOf | src/utils/colorExtractor.js:34-36 | `Math.round(sum / count)` is a channel value within half a unit of the true mean |
| ColorExtractor.Average | src/utils/colorExtractor.js:24-36 | the average of a 50×50 RGBA raster is a valid colour |
| ColorExtractor.AverageColor | src/utils/colorExtractor.js:13-36 | the stride-4 loop reads bytes i, i+1 and i+2, skips alpha and counts 2500 pixels; its result is the specified average |
| ColorExtractor.HueFraction | src/utils/colorExtractor.js:95-100 | the hue before scaling lies in [0, 1] |
| ColorExtractor.SaturationFraction | src/utils/colorExtractor.js:93 | the saturation before scaling lies in [0, 1] |
| ColorExtractor.RgbToHsl | src/utils/colorExtractor.js:80-108 | for valid channels h ∈ [0, 360] and s, l ∈ [0, 100]; a grey input (r = g = b) gives h = 0 and s = 0 |
| ColorExtractor.HueToChannel | src/utils/colorExtractor.js:116-123 | for a grey (p = q) every hue offset gives p (HueToChannelBetween: otherwise the channel lies between p and q) |
| ColorExtractor.HueToChannelBetween | src/utils/colorExtractor.js:116-123 | `hue2rgb` returns a value between p and q |
| ColorExtractor.HslIntermediates | src/utils/colorExtractor.js:130-131 | for s and l in [0, 1], the intermediates satisfy 0 ≤ p ≤ q ≤ 1 |
| ColorExtractor.HslToRgb | src/utils/colorExtractor.js:111-142 | in-range h, s and l give a valid colour; s = 0 gives r = g = b |
| ColorExtractor.Adjust | src/utils/colorExtractor.js:42-46 | hue unchanged; saturation raised but at most 100; lightness lowered but at least 20, and at most 70 for valid input |
| ColorExtractor.RgbToHex | src/utils/colorExtractor.js:145-147 | '#' and exactly six lower-case hex digits whose value is r·65536 + g·256 + b |
| ColorExtractor.SixHexDigits | src/utils/colorExtractor.js:146 | `(1 << 24) + v` prints as '1' followed by the six digits of v |
| ColorExtractor.HexToRgb | src/utils/colorExtractor.js:145-147 | any colour the decoder returns has valid channels |
| ColorExtractor.HexRoundTrip | src/utils/colorExtractor.js:145-147 | decoding `rgbToHex(r, g, b)` gives back (r, g, b) |
| ColorExtractor.FallbackConsistent | src/utils/colorExtractor.js:55-73 | the fallback's rgb string, hex and hsl all describe the same colour (29, 185, 84) |
| ColorExtractor.ColorFromAverage | src/utils/colorExtractor.js:39-54 | the result's hsl is in range with lightness in [20, 70]; its hex decodes to the colour its rgb string names |
| ColorExtractor.DominantColor | src/utils/colorExtractor.js:2-77 | every outcome is a consistent colour with saturation ≤ 100 and lightness ≥ 20 |
| ColorExtractor.ExtractDominantColor | src/utils/colorExtractor.js:2-77 | a load error or a throw while sampling gives the fixed fallback; a sampled raster gives the adjusted average colour |
| Dashboard.DashboardPage.GoToSlide | src/components/Dashboard.jsx:73-83 | sets the slide and nothing else |
| Dashboard.DashboardPage.NextSlide | src/components/Dashboard.jsx:85-88 | the slide becomes `(currentSlide + 1) % 3` |
| Dashboard.DashboardPage.PrevSlide | src/components/Dashboard.jsx:90-93 | the slide becomes `(currentSlide - 1 + 3) % 3` |
| Dashboard.DashboardPage.OnDragEnd | src/components/Dashboard.jsx:172-178 | the slide becomes the drag target, and the player state is untouched |
| Dashboard.DashboardPage.TogglePlayer | src/components/Dashboard.jsx:97-124 | the new player state and the audio command are the player transition of the old state |
| Dashboard.DragTarget | src/components/Dashboard.jsx:172-178 | past +50 the target is the slide before, so next from it returns; past −50 it is the slide after; otherwise the slide stays |
| Dashboard.PlayerTransition | src/components/Dashboard.jsx:100-122 | on the active vibe only `isPlaying` flips, and the audio follows it; on another vibe that vibe becomes active and plays a track built from its title, artist, image and link |
| Dashboard.HapticPattern | src/components/Dashboard.jsx:35-54 | light → 10, medium → 20, heavy → [30, 10, 30], success → [50, 25, 50], anything else → 10; nothing without `navigator.vibrate` |
| Dashboard.TogglePlayerTwice | src/components/Dashboard.jsx:100-107 | two presses on the active vibe restore the player state |
| Dashboard.NewVibeThenSamePauses | src/components/Dashboard.jsx:100-122 | a press on a new vibe plays it, and a second press pauses it |
| Dashboard.UnknownHapticIsLight | src/components/Dashboard.jsx:50-51 | an unknown kind vibrates like "light" |
| SuggestionsPage.SlideColorsOf | src/components/SuggestionsPage.jsx:30-41 | the last recommendation, when it has an image, has the final say for its id (SlideColorKeys, SlideColorValues: the ids with an image are exactly the keys, each holding the colour of one of them) |
| SuggestionsPage.BuildSlideColors | src/components/SuggestionsPage.jsx:30-41 | the loop builds the specified colour map |
| SuggestionsPage.SlideColorKeys | src/components/SuggestionsPage.jsx:31-35 | an id gets a colour exactly when some recommendation with that id has an image |
| SuggestionsPage.SlideColorValues | src/components/SuggestionsPage.jsx:30-41 | each stored colour is the extraction outcome (average colour or fallback) of the cover of some recommendation with that id |
| SuggestionsPage.TogglePlayEffect | src/components/SuggestionsPage.jsx:67-86 | with no current song nothing changes; playing pauses and rewinds to 0; paused with a preview and an audio element loads that preview (at 0) and starts it; otherwise nothing changes |
| SuggestionsPage.TogglePlayTwice | src/components/SuggestionsPage.jsx:67-86 | two presses start the preview and then stop it at 0 |
| SuggestionsPage.NoPreviewNeverPlays | src/components/SuggestionsPage.jsx:78-84 | a song without `preview_url` never starts |
| SuggestionsPage.KeyActionOf | src/components/SuggestionsPage.jsx:108-126 | ArrowRight and space go next, ArrowLeft goes back, Enter toggles play, Escape stops auto-play, and any other key does nothing |
| SuggestionsPage.IsPrevMeansNextIsCurrent | src/components/SuggestionsPage.jsx:188 | the slide marked `prev` is exactly the one whose next is current |
| SuggestionsPage.SuggestionsPageState.CurrentSong | src/components/SuggestionsPage.jsx:68-69 | there is a current song exactly when the index is in range |
| SuggestionsPage.SuggestionsPageState.LoadRecommendations | src/components/SuggestionsPage.jsx:27-42 | stores the results and the colour map built from them |
| SuggestionsPage.SuggestionsPageState.GoToNext | src/components/SuggestionsPage.jsx:94-96 | the index becomes `(i + 1) % n` (corrected to keep 0 while n = 0, see Findings) |
| SuggestionsPage.SuggestionsPageState.GoToPrevious | src/components/SuggestionsPage.jsx:98-100 | the index becomes `(i - 1 + n) % n` (corrected to keep 0 while n = 0) |
| SuggestionsPage.SuggestionsPageState.GoToSlide | src/components/SuggestionsPage.jsx:102-104 | the index becomes the dot's index |
| SuggestionsPage.SuggestionsPageState.AutoAdvance | src/components/SuggestionsPage.jsx:56-60 | one tick runs only with more than one slide and auto-play on, and steps to the next slide |
| SuggestionsPage.SuggestionsPageState.TogglePlay | src/components/SuggestionsPage.jsx:67-86 | the new `isPlaying` and audio are the toggle effect of the current song and state |
| SuggestionsPage.SuggestionsPageState.HandleAudioEnded | src/components/SuggestionsPage.jsx:89-91 | `isPlaying` is cleared and the element, which stopped by itself, is paused; nothing else changes |
| SuggestionsPage.SuggestionsPageState.ToggleAutoPlay | src/components/SuggestionsPage.jsx:254 | auto-play flips |
| SuggestionsPage.SuggestionsPageState.HandleKey | src/components/SuggestionsPage.jsx:107-131 | each key has the effect of its action on the current state, and any other key changes nothing (corrected to read the current `isPlaying`, see Findings) |
| SuggestionsPage.SuggestionsPageState.SyncKeyListener | src/components/SuggestionsPage.jsx:107-131 | the keyboard effect: the handler is replaced by one closing over the current index, count and `isPlaying` exactly when the index or the count differs from the registered one; otherwise it is kept |
| SuggestionsPage.SuggestionsPageState.HandleKeyAsWritten | src/components/SuggestionsPage.jsx:107-131 | the registered handler: as HandleKey, except that Enter toggles from the `isPlaying` the handler closed over |
| SuggestionsPage.EnterTwiceAsWritten | src/components/SuggestionsPage.jsx:107-131 | on a paused song with a preview, Enter, the effect, Enter: both presses leave the page playing and the element unpaused |
| SuggestionsPage.EnterTwicePauses | src/components/SuggestionsPage.jsx:67-86 | with the handler reading the current state, the first Enter plays and the second pauses and rewinds to 0 |
| SuggestionsPage.NaNIndexSticks | src/components/SuggestionsPage.jsx:94-100 | as written, next with no recommendations makes the index NaN; every later arrow step keeps it NaN, and no slide is active until a progress dot (lines 278-279) sets the index |
| SuggestionsPage.NextAsWritten | src/components/SuggestionsPage.jsx:94-96 | the result is a number exactly when the index is a number and there are slides, and then it is Carousel.Next of the index |
| SuggestionsPage.PrevAsWritten | src/components/SuggestionsPage.jsx:98-100 | the result is a number exactly when the index is a number and there are slides, and then it is Carousel.Prev of the index |
| SuggestionsPage.WalkFromNaN | src/components/SuggestionsPage.jsx:94-100 | NaN stays NaN through any sequence of next and previous steps |
| SuggestionsPage.WalkGuarded | src/components/SuggestionsPage.jsx:94-100 | with the guard, any sequence of steps keeps the index on a slide, or at 0 while there are none |
| SuggestionsPage.GuardedIndexStaysOnSlide | src/components/SuggestionsPage.jsx:94-100 | with the guard, steps taken while loading leave the index at 0, so it names a slide once results arrive |
| CreateVibe.ToggleId | src/components/CreateVibe.jsx:93-95 | the id is selected afterwards exactly when it was not before, and no other id changes membership |
| CreateVibe.ToggleIdOrder | src/components/CreateVibe.jsx:93-95 | a present id is removed everywhere, keeping the others in order; an absent id is appended at the end |
| CreateVibe.ToggleIdKeepsDistinct | src/components/CreateVibe.jsx:93-95 | a duplicate-free selection stays duplicate-free |
| CreateVibe.FilterKeepsDistinct | src/components/CreateVibe.jsx:94 | filtering a duplicate-free list keeps it duplicate-free |
| CreateVibe.ToggleIdTwice | src/components/CreateVibe.jsx:93-95 | toggling an absent id twice restores the list |
| CreateVibe.MoodLabel | src/components/CreateVibe.jsx:174-176 | "Select mood" exactly for 0 tags, "1 mood selected" for 1, "n moods selected" for n > 1 |
| CreateVibe.MoodLabelCount | src/components/CreateVibe.jsx:174-176 | the label's leading digits read back as the number of selected tags |
| CreateVibe.CreateVibeForm.HandleMoodTagToggle | src/components/CreateVibe.jsx:93-95 | the tags become the toggled list, and nothing else changes |
| CreateVibe.SchedulesSearch | src/components/CreateVibe.jsx:69-77 | the debounced search is never armed by setting the same text again or by an empty query |
| CreateVibe.CreateVibeForm.OnSearchQueryChange | src/components/CreateVibe.jsx:69-77 | stores the query; the `[searchQuery]` effect arms the debounced search exactly when the query is non-empty and differs from the previous one |
| CreateVibe.CreateVibeForm.HandleSongSelect | src/components/CreateVibe.jsx:97-101 | selects the song, writes "artist - title" into the box and hides the results; the search is armed exactly when that text differs from the query already in the box |
| CreateVibe.CreateVibeForm.SelectMoodEmoji | src/components/CreateVibe.jsx:275 | sets the mood emoji, and nothing else changes |
| CreateVibe.CreateVibeForm.ClearSearch | src/components/CreateVibe.jsx:112-118 | resets the query, song, journal text, tags and results visibility; keeps the mood emoji and the uploaded image |
| CreateVibe.CreateVibeForm.Payload | src/components/CreateVibe.jsx:121-130 | title → songTitle, artist → artist, spotify_url → link, image → image, journal → journalText, emoji → mood, tags → tags |
| CreateVibe.CreateVibeForm.HandleSaveEntry | src/components/CreateVibe.jsx:120-153 | no song or no signed-in user sends nothing; otherwise the payload is sent; only an ok response whose JSON body parses shows the modal and clears the form, and any other outcome (an unreadable body included) changes nothing |
| TagSelector.RemoveTag | src/components/TagSelector.jsx:13-15 | no tag with the name remains, and every tag with another name keeps its count |
| TagSelector.RemoveTagOrder | src/components/TagSelector.jsx:13-15 | the remaining tags keep their order, and removing a name no tag has changes nothing |
| TagSelector.ToggleTag | src/components/TagSelector.jsx:17-26 | a selected name is removed and a new tag is appended at the end; the name is selected afterwards exactly when it was not before |
| TagSelector.ToggleTagTwice | src/components/TagSelector.jsx:17-26 | toggling an absent tag twice restores the list |
| TagSelector.Names | src/components/TagSelector.jsx:50 | `map(tag => tag.name)` keeps length and order |
| TagSelector.Placeholder | src/components/TagSelector.jsx:48 | the placeholder text appears exactly when no tag is selected |
| TagSelector.DisplayValue | src/components/TagSelector.jsx:50 | no tags give the empty string and one tag gives its name (DisplayValueCommas, DisplayValueEnds: the names, in order, separated by ", ") |
| TagSelector.DisplayValueCommas | src/components/TagSelector.jsx:50 | for comma-free names the value holds one comma fewer than there are tags |
| TagSelector.DisplayValueEnds | src/components/TagSelector.jsx:50 | the value begins with the first name and ends with the last |
| TagSelector.TagSelectorState.ToggleDropdown | src/components/TagSelector.jsx:30 | opens or closes the dropdown and keeps the selection |
| TagSelector.TagSelectorState.OnRemove | src/components/TagSelector.jsx:38-41 | the selection becomes `removeTag`'s result |
| TagSelector.TagSelectorState.OnToggle | src/components/TagSelector.jsx:61 | the selection becomes `toggleTag`'s result |
| EntryDetails.JsRem | src/components/EntryDetails.jsx:145 | for a non-negative time, JavaScript's `%` by 60 lies in [0, 60) |
| EntryDetails.FormatTime | src/components/EntryDetails.jsx:143-147 | for a time that is not negative the text ends in a colon and two characters of seconds (FormatTimeReadsBack: the two fields read back as the whole seconds) |
| EntryDetails.FormatTimeParts | src/components/EntryDetails.jsx:143-147 | for a time ≥ 0 the minutes are ≥ 0, the seconds lie in 0..59, and minutes·60 + seconds is the whole seconds |
| EntryDetails.FormatTimeReadsBack | src/components/EntryDetails.jsx:143-147 | the text is digits, ':' and two digits, which read back as the whole seconds |
| EntryDetails.ProgressPercentage | src/components/EntryDetails.jsx:159 | 0 when duration ≤ 0; otherwise percentage · duration = currentTime · 100 |
| EntryDetails.ProgressBounds | src/components/EntryDetails.jsx:159 | within the track the bar lies in [0, 100], and is full exactly at the end |
| EntryDetails.SkipTarget | src/components/EntryDetails.jsx:101-106 | the new time lies in [0, duration]; it is current + seconds when that is in range, else the nearer end |
| EntryDetails.SkipBackThenForward | src/components/EntryDetails.jsx:101-106 | an unclamped skip back and then forward returns to the same time |
| EntryDetails.EntryDetailsPage.TogglePlayPause | src/components/EntryDetails.jsx:83-99 | does nothing without audio; when playing it pauses; otherwise `isPlaying` becomes whether `play()` succeeded |
| EntryDetails.EntryDetailsPage.SkipTime | src/components/EntryDetails.jsx:101-106 | the audio's time becomes the clamped target; without audio nothing changes |
| EntryDetails.EntryDetailsPage.HandleDelete | src/components/EntryDetails.jsx:119-141 | without a token nothing happens; the DELETE is sent exactly when the confirmation already shows; the first press only shows the confirmation; the page is left only on success |
| EntryDetails.EntryDetailsPage.ConfirmExpired | src/components/EntryDetails.jsx:139 | the 3-second timer hides the confirmation |
| EntryDetails.EntryDetailsPage.OnEnded | src/components/EntryDetails.jsx:53 | `isPlaying` is cleared and the element, which stopped by itself at the end, is paused with its time and duration kept |
| EntryDetails.DeleteNeedsTwoPresses | src/components/EntryDetails.jsx:119-141 | press, timer, press, press: the first two presses send nothing and the third sends the request; the page is left exactly when the delete succeeds |
| MiniPlayer.JsIntRem | src/components/MiniPlayer.tsx:185 | JavaScript's `%` on integers: the result is smaller than the divisor in size, takes the sign of the dividend, and differs from it by a multiple of the divisor |
| MiniPlayer.FormatTimeMs | src/components/MiniPlayer.tsx:183-187 | for a time that is not negative the text ends in a colon and two characters of seconds (FormatTimeAgrees: the same text as the entry page for the time in seconds) |
| MiniPlayer.FormatTimeAgrees | src/components/MiniPlayer.tsx:183-187 | a position in milliseconds prints exactly as the entry page prints the same time in seconds |
| MiniPlayer.MinutesAgree | src/components/MiniPlayer.tsx:184 | `Math.floor(ms / 60000)` equals the minutes of the seconds value |
| MiniPlayer.SecondsAgree | src/components/MiniPlayer.tsx:185 | the seconds part equals the entry page's `floor(t % 60)` |
| MiniPlayer.FloorOfQuotient | src/components/MiniPlayer.tsx:184-185 | `Math.floor(n / d)` is integer division |
| MiniPlayer.FormatTimeMsParts | src/components/MiniPlayer.tsx:183-187 | the seconds lie in 0..59, and minutes·60 + seconds is the whole seconds |
| MiniPlayer.SeekTarget | src/components/MiniPlayer.tsx:178 | the seek position lies in [0, duration]; it is position + seconds·1000 when that is in range, else the nearer end |
| MiniPlayer.SeekAgreesWithEntryPage | src/components/MiniPlayer.tsx:178 | for a non-negative duration, min-outside-max clamps exactly as the entry page's max-outside-min |
| MiniPlayer.MiniPlayerState.PlayTrack | src/components/MiniPlayer.tsx:140-153 | a play request is built exactly when there is a non-empty device id and a track, and it is for that device and carries the track's URI |
| MiniPlayer.MiniPlayerState.TogglePlayPause | src/components/MiniPlayer.tsx:155-170 | does nothing without a player; with no state it sends exactly `playTrack`'s request for this device and track, or nothing without them; otherwise it resumes when paused and pauses when playing |
| MiniPlayer.MiniPlayerState.SkipTime | src/components/MiniPlayer.tsx:172-181 | seeks to the clamped target; without a player or a state nothing changes |
| MiniPlayer.MiniPlayerState.OnStateChanged | src/components/MiniPlayer.tsx:88-93 | `isPlaying` becomes `!state.paused`; a null state is ignored |
| Greetings.TimeGreeting | src/components/Greetings.jsx:4-10 | morning exactly for hours 5–11, afternoon for 12–16, evening for 17–20, and no greeting otherwise |
| Greetings.GreetingBoundaries | src/components/Greetings.jsx:7-9 | hour by hour, the greeting changes only at 5, 12, 17 and 21 o'clock |

## Left out

- HTTP: every `fetch`, plus `authFetch.js`, `Login.jsx`, `Register.jsx` and
  `Callback.jsx`. Their outcomes become parameters (`signedIn`, `outcome`,
  `hasToken`, `deleteOk`, the image events).
- `localStorage`: the user info is reduced to whether a token is present.
- Timers and listeners:
  - the auto-advance interval, the search debounce, the 3-second
    delete-confirm reset and the modal's auto-close;
  - the mini player's one-second polling;
  - DOM listeners.
  Each timer firing is a method the environment calls (`AutoAdvance`,
  `ConfirmExpired`).
- After a song is selected, the armed search would reopen the results when
  it returns. That reopening is not modelled, because it happens in the
  fetch.
- GSAP timelines, ScrollTrigger and Draggable: only the index arithmetic
  around them is modelled. This includes the `carouselRef.current` guard in
  the dashboard's `goToSlide`: the model assumes the carousel is mounted.
- The Spotify Web Playback SDK: the player is the playback state it reports,
  and `resume`, `pause` and `seek` act on that state immediately.
  Script injection and the `ready` event are not modelled.
- Image loading and the canvas: the RGBA raster is an input, and a throw
  while sampling is the `Threw` outcome.
- Floating point: all numbers are exact reals, so rounding at the last bit
  is not modelled.
  - RgbToHsl: the hue and saturation are proved in range for any colour, but
    the exact values are proved only for the achromatic branch and for the
    fallback colour. There is no round trip with HslToRgb.
  - HslToRgb: only the range and the achromatic branch are stated.
  - Adjust: the `* 1.2` and `* 0.7` factors are modelled, but no closer
    bound than the clamps is stated.
- NaN: dates that do not parse, a NaN duration before the metadata loads,
  and `formatTime(NaN)` are not modelled.
  - FormatTimeReadsBack: stated only for non-negative times.
  - ProgressBounds: stated only for a time within the track.
- `toLocaleDateString`: the month key is given with each entry.
- `localeCompare`: modelled as code-point order, not locale collation.
- `new Date(...).getTime()`: a given integer timestamp.
- RgbToHsl, RgbToHex, AverageColor: they require channel values in
  [0, 255] and a 50×50 raster. The canvas always supplies these, and the
  functions are only ever called with them.
- SuggestionsPage.BuildSlideColors: the `catch` at
  SuggestionsPage.jsx:36-39 cannot run, because `extractDominantColor`
  always resolves. It is therefore not modelled; a failed extraction
  stores the full fallback that the promise resolves to.
- CreateVibe.CreateVibeForm.HandleSaveEntry:
  - "not signed in" covers `userInfo` being absent, where reading the token
    throws;
  - stored user info without a token would send "Bearer undefined", which
    is not distinguished.
- SuggestionsPage.TogglePlayEffect: a `play()` that rejects
  (SuggestionsPage.jsx:80-82) is only logged, and `isPlaying` is still set.
  The model always lets the element start. It does not model the
  rejected case, where the element stays paused while the page says it
  is playing.
- SuggestionsPage.SuggestionsPageState.HandleKeyAsWritten: key events are
  taken to arrive after the keyboard effect has run for the latest render,
  as React runs pending effects before it dispatches a new key event.
- EntryDetails.EntryDetailsPage.TogglePlayPause: the `await` is collapsed
  into the `playSucceeds` parameter, so a press that comes before `play()`
  settles is not modelled.
- View-only state is not modelled: dropdown visibility in CreateVibe, the
  image upload's `FileReader`, the progress-bar click (a ratio times the
  duration) and rendering.
- SuggestionsPage.SuggestionsPageState.LoadRecommendations: the load is
  modelled as one step. The source stores the results, then awaits each
  colour, and clears `loading` last (SuggestionsPage.jsx:27-48). Key
  presses that arrive in between, while the listener is live with a
  non-zero count, can move the index, so the carousel may open on a slide
  other than 0. The model does not capture those interleavings.
- TagSelector.TagSelectorState: `selectedTags` and `setSelectedTags` are
  props, defaulting to `[]` and a no-op setter (TagSelector.jsx:11). The
  model keeps the selection as its own field, which assumes a parent that
  stores whatever the setter receives and passes it back.
- `App.jsx` routing is not modelled.
- The ViewEntries `togglePlayer` is the same transition as the dashboard's
  `togglePlayer`, which is modelled.

## Findings

| source | as written | input that shows it | evidently intended | confidence | as-written member | corrected member |
|---|---|---|---|---|---|---|
| src/components/SuggestionsPage.jsx:107-131 | the `keydown` effect depends only on `[currentIndex, recommendations.length]`, so the registered `handleKeyPress` calls a `togglePlay` that reads the `isPlaying` of an older render | a song with a preview, paused; press Enter twice without moving the slide. The first press plays; the listener is not replaced; the second press reads `isPlaying == false` and plays again | Enter toggles: the second press pauses | not executed | SuggestionsPage.EnterTwiceAsWritten | SuggestionsPage.EnterTwicePauses |
| src/components/SuggestionsPage.jsx:94-100 | `goToNext` and `goToPrevious` compute `% recommendations.length` with no guard, and the keyboard listener is active while the page is still loading | press ArrowRight or space before the recommendations arrive: `(0 + 1) % 0` is NaN, every later arrow step keeps NaN, and no slide is active until a progress dot is clicked | the index stays 0 while there are no slides | not executed | SuggestionsPage.NaNIndexSticks | SuggestionsPage.GuardedIndexStaysOnSlide |
