/** The song suggestions page: a carousel of recommendations with a preview
    player, keyboard navigation, auto-advance and a background colour taken
    from each cover. */
module SuggestionsPage {
  import opened Common
  import Carousel
  import ColorExtractor

  /** One recommendation from the server. An absent or empty `image` or
      `preview_url` is falsy in the source's tests. */
  datatype Recommendation = Recommendation(
    id: string, title: string, artist: string, image: Option<string>, previewUrl: Option<string>, reason: string)

  predicate HasImage(rec: Recommendation) { rec.image.Some? && rec.image.value != "" }
  predicate HasPreview(rec: Recommendation) { rec.previewUrl.Some? && rec.previewUrl.value != "" }

  /** The page's `<audio>` element: its source, position and whether it is paused. */
  datatype Audio = Audio(src: string, currentTime: real, paused: bool)

  // -----------------------------------------------------------------------
  // Colour map

  /** Whether the image for a recommendation's cover loaded and could be sampled. */
  predicate ValidEvents(recs: seq<Recommendation>, events: seq<ColorExtractor.ImageEvent>)
  {
    |events| == |recs| &&
    forall i :: 0 <= i < |events| && ColorExtractor.Succeeded(events[i]) ==>
      |events[i].sampling.data| == ColorExtractor.RasterBytes
  }

  /** The `colors` object after the loop has seen `recs`: an entry for each
      recommendation with an image, a later one with the same id replacing
      an earlier one. */
  function SlideColorsOf(recs: seq<Recommendation>, events: seq<ColorExtractor.ImageEvent>): (colors: map<string, ColorExtractor.ColorResult>)
    requires ValidEvents(recs, events)
    // the last recommendation with an image has the final say for its id
    ensures recs != [] && HasImage(recs[|recs| - 1]) ==>
      recs[|recs| - 1].id in colors && colors[recs[|recs| - 1].id] == ColorExtractor.DominantColor(events[|recs| - 1])
  {
    if recs == [] then map[]
    else
      var n := |recs| - 1;
      var before := SlideColorsOf(recs[..n], events[..n]);
      if HasImage(recs[n]) then before[recs[n].id := ColorExtractor.DominantColor(events[n])] else before
  }

  /** The colour loop of the fetch effect. `extractDominantColor` never
      rejects, so its `catch` branch cannot run and every stored value is
      the extracted colour (the fallback included). */
  method BuildSlideColors(recs: seq<Recommendation>, events: seq<ColorExtractor.ImageEvent>)
    returns (colors: map<string, ColorExtractor.ColorResult>)
    requires ValidEvents(recs, events)
    ensures colors == SlideColorsOf(recs, events)
  {
    colors := map[];
    for i := 0 to |recs|
      invariant colors == SlideColorsOf(recs[..i], events[..i])
    {
      assert recs[..i + 1][..i] == recs[..i] && events[..i + 1][..i] == events[..i];
      if HasImage(recs[i]) {
        var color := ColorExtractor.ExtractDominantColor(events[i]);
        colors := colors[recs[i].id := color];
      }
    }
    assert recs[..|recs|] == recs && events[..|events|] == events;
  }

  /** One more recommendation adds its colour, or nothing when it has no image. */
  lemma SlideColorsSnoc(recs: seq<Recommendation>, events: seq<ColorExtractor.ImageEvent>)
    requires ValidEvents(recs, events) && recs != []
    ensures ValidEvents(recs[..|recs| - 1], events[..|recs| - 1])
    ensures var n := |recs| - 1;
      var before := SlideColorsOf(recs[..n], events[..n]);
      SlideColorsOf(recs, events) == if HasImage(recs[n]) then before[recs[n].id := ColorExtractor.DominantColor(events[n])] else before
  {
  }

  /** Exactly the recommendations with an image get a colour. */
  lemma {:induction false} SlideColorKeys(recs: seq<Recommendation>, events: seq<ColorExtractor.ImageEvent>, id: string)
    requires ValidEvents(recs, events)
    ensures id in SlideColorsOf(recs, events) <==> exists i :: 0 <= i < |recs| && HasImage(recs[i]) && recs[i].id == id
  {
    if recs != [] {
      var n := |recs| - 1;
      var init := recs[..n];
      SlideColorsSnoc(recs, events);
      SlideColorKeys(init, events[..n], id);
      if exists i :: 0 <= i < |init| && HasImage(init[i]) && init[i].id == id {
        var i :| 0 <= i < |init| && HasImage(init[i]) && init[i].id == id;
        assert recs[i] == init[i];
      }
      if exists i :: 0 <= i < |recs| && HasImage(recs[i]) && recs[i].id == id {
        var i :| 0 <= i < |recs| && HasImage(recs[i]) && recs[i].id == id;
        if i < n {
          assert init[i] == recs[i];
        }
      }
    }
  }

  /** Each stored colour is the one extracted from the cover of a
      recommendation with that id. */
  lemma {:induction false} SlideColorValues(recs: seq<Recommendation>, events: seq<ColorExtractor.ImageEvent>, id: string)
    requires ValidEvents(recs, events)
    requires id in SlideColorsOf(recs, events)
    ensures exists i :: (0 <= i < |recs| && HasImage(recs[i]) && recs[i].id == id
                         && SlideColorsOf(recs, events)[id] == ColorExtractor.DominantColor(events[i]))
  {
    var n := |recs| - 1;
    var init, initEvents := recs[..n], events[..n];
    SlideColorsSnoc(recs, events);
    var colors, before := SlideColorsOf(recs, events), SlideColorsOf(init, initEvents);
    if HasImage(recs[n]) && recs[n].id == id {
      assert 0 <= n < |recs| && HasImage(recs[n]) && recs[n].id == id
        && colors[id] == ColorExtractor.DominantColor(events[n]);
    } else {
      assert id in before && colors[id] == before[id];
      SlideColorValues(init, initEvents, id);
      var i :| 0 <= i < |init| && HasImage(init[i]) && init[i].id == id
        && before[id] == ColorExtractor.DominantColor(initEvents[i]);
      assert recs[i] == init[i] && events[i] == initEvents[i];
      assert 0 <= i < |recs| && HasImage(recs[i]) && recs[i].id == id
        && colors[id] == ColorExtractor.DominantColor(events[i]);
    }
  }

  // -----------------------------------------------------------------------
  // Play / pause

  /** `togglePlay` on the song at the current index (`None` when there is
      none): a playing preview is paused and rewound; otherwise a song with
      a preview starts, and one without does nothing. The `isPlaying` it
      reads is passed in, since the keyboard handler may read an old one.
      Returns the new `isPlaying` and the new audio element. */
  function TogglePlayEffect(song: Option<Recommendation>, isPlaying: bool, audio: Option<Audio>): (r: (bool, Option<Audio>))
    ensures song.None? ==> r == (isPlaying, audio)
    ensures song.Some? && isPlaying ==> !r.0 && (audio.Some? ==> r.1 == Some(audio.value.(currentTime := 0.0, paused := true)))
    ensures song.Some? && !isPlaying ==>
      if audio.Some? && HasPreview(song.value)
      then r.0 && r.1 == Some(Audio(song.value.previewUrl.value, 0.0, false))
      else r == (isPlaying, audio)
    ensures audio.None? ==> r.1 == None
  {
    match song
    case None => (isPlaying, audio)
    case Some(current) =>
      if isPlaying then
        (false, if audio.Some? then Some(audio.value.(currentTime := 0.0, paused := true)) else audio)
      else if audio.Some? && HasPreview(current) then
        (true, Some(audio.value.(src := current.previewUrl.value, currentTime := 0.0, paused := false)))
      else (isPlaying, audio)
  }

  /** Pressing play twice on a song with a preview starts it and then stops
      it at the beginning. */
  lemma TogglePlayTwice(song: Recommendation, audio: Audio)
    requires HasPreview(song)
    ensures var first := TogglePlayEffect(Some(song), false, Some(audio));
      var second := TogglePlayEffect(Some(song), first.0, first.1);
      first.0 && !second.0 && second.1 == Some(Audio(song.previewUrl.value, 0.0, true))
  {
  }

  /** A song without a preview never starts playing. */
  lemma NoPreviewNeverPlays(song: Recommendation, audio: Option<Audio>)
    requires !HasPreview(song)
    ensures !TogglePlayEffect(Some(song), false, audio).0
  {
  }

  // -----------------------------------------------------------------------
  // Keyboard

  datatype KeyAction = GoNext | GoPrevious | TogglePlayback | StopAutoPlay | Ignore

  /** The `keydown` switch. */
  function KeyActionOf(key: string): (a: KeyAction)
    ensures a == GoNext <==> key == "ArrowRight" || key == " "
    ensures a == GoPrevious <==> key == "ArrowLeft"
    ensures a == TogglePlayback <==> key == "Enter"
    ensures a == StopAutoPlay <==> key == "Escape"
  {
    if key == "ArrowRight" || key == " " then GoNext
    else if key == "ArrowLeft" then GoPrevious
    else if key == "Enter" then TogglePlayback
    else if key == "Escape" then StopAutoPlay
    else Ignore
  }

  // -----------------------------------------------------------------------
  // The page

  /** The `prev` class of the slide before the current one. */
  predicate IsPrev(index: nat, currentIndex: nat, n: nat)
    requires n > 0
  {
    index == Carousel.Prev(currentIndex, n)
  }

  /** The slide marked `prev` is the one the next step leaves; with a single
      recommendation it is the active slide itself. */
  lemma IsPrevMeansNextIsCurrent(index: nat, currentIndex: nat, n: nat)
    requires index < n && currentIndex < n
    ensures IsPrev(index, currentIndex, n) <==> Carousel.Next(index, n) == currentIndex
    ensures n == 1 ==> IsPrev(index, currentIndex, n)
    ensures n > 1 && IsPrev(index, currentIndex, n) ==> index != currentIndex
  {
    Carousel.PrevNextInverse(index, n);
    Carousel.PrevNextInverse(currentIndex, n);
  }

  /** The auto-advance interval is set up only with more than one slide and
      auto-play on. */
  predicate AutoAdvanceActive(n: nat, isAutoPlaying: bool)
  {
    n > 1 && isAutoPlaying
  }

  /** The render a `keydown` handler was registered in: its index, its
      number of recommendations and its `isPlaying`. */
  datatype KeyListener = KeyListener(index: nat, count: nat, isPlaying: bool)

  class SuggestionsPageState {
    var recommendations: seq<Recommendation>
    var currentIndex: nat
    var isPlaying: bool
    var isAutoPlaying: bool
    var audio: Option<Audio>
    var slideColors: map<string, ColorExtractor.ColorResult>
    /** What the registered `keydown` handler closed over. */
    var listener: KeyListener

    /** The current index names a slide, or is 0 while there are none. */
    ghost predicate Valid()
      reads this
    {
      if recommendations == [] then currentIndex == 0 else currentIndex < |recommendations|
    }

    function CurrentSong(): (song: Option<Recommendation>)
      reads this
      ensures song.Some? <==> currentIndex < |recommendations|
    {
      if currentIndex < |recommendations| then Some(recommendations[currentIndex]) else None
    }

    /** The initial state, while loading: no recommendations, index 0,
        nothing playing, auto-play off, no audio element yet. */
    constructor ()
      ensures Valid()
      ensures recommendations == [] && currentIndex == 0 && !isPlaying && !isAutoPlaying
      ensures audio == None && slideColors == map[]
      ensures listener == KeyListener(0, 0, false) && ListenerSynced()
    {
      recommendations := [];
      currentIndex := 0;
      isPlaying := false;
      isAutoPlaying := false;
      audio := None;
      slideColors := map[];
      listener := KeyListener(0, 0, false);
    }

    /** The fetch effect's success path: store the results and their colours.
        Once there are recommendations the `<audio>` element is rendered. */
    method LoadRecommendations(results: seq<Recommendation>, events: seq<ColorExtractor.ImageEvent>)
      requires Valid() && recommendations == [] && ValidEvents(results, events)
      modifies this
      ensures listener == old(listener)
      ensures Valid()
      ensures recommendations == results && slideColors == SlideColorsOf(results, events)
      ensures currentIndex == 0 && isPlaying == old(isPlaying) && isAutoPlaying == old(isAutoPlaying)
      ensures audio == if results == [] then old(audio) else Some(Audio("", 0.0, true))
    {
      recommendations := results;
      slideColors := BuildSlideColors(results, events);
      if results != [] {
        audio := Some(Audio("", 0.0, true));
      }
    }

    /** `goToNext`, guarded so that an empty list leaves the index alone. */
    method GoToNext()
      requires Valid()
      modifies this
      ensures listener == old(listener)
      ensures Valid()
      ensures recommendations != [] ==> currentIndex == Carousel.Next(old(currentIndex), |recommendations|)
      ensures recommendations == [] ==> currentIndex == old(currentIndex)
      ensures recommendations == old(recommendations) && isPlaying == old(isPlaying) && isAutoPlaying == old(isAutoPlaying)
      ensures audio == old(audio) && slideColors == old(slideColors)
    {
      if |recommendations| > 0 {
        currentIndex := Carousel.Next(currentIndex, |recommendations|);
      }
    }

    /** `goToPrevious`, with the same guard. */
    method GoToPrevious()
      requires Valid()
      modifies this
      ensures listener == old(listener)
      ensures Valid()
      ensures recommendations != [] ==> currentIndex == Carousel.Prev(old(currentIndex), |recommendations|)
      ensures recommendations == [] ==> currentIndex == old(currentIndex)
      ensures recommendations == old(recommendations) && isPlaying == old(isPlaying) && isAutoPlaying == old(isAutoPlaying)
      ensures audio == old(audio) && slideColors == old(slideColors)
    {
      if |recommendations| > 0 {
        currentIndex := Carousel.Prev(currentIndex, |recommendations|);
      }
    }

    /** `goToSlide` from a progress dot. */
    method GoToSlide(index: nat)
      requires Valid() && index < |recommendations|
      modifies this
      ensures listener == old(listener)
      ensures Valid()
      ensures currentIndex == index
      ensures recommendations == old(recommendations) && isPlaying == old(isPlaying) && isAutoPlaying == old(isAutoPlaying)
      ensures audio == old(audio) && slideColors == old(slideColors)
    {
      currentIndex := index;
    }

    /** One tick of the auto-advance interval. */
    method AutoAdvance()
      requires Valid() && AutoAdvanceActive(|recommendations|, isAutoPlaying)
      modifies this
      ensures listener == old(listener)
      ensures Valid()
      ensures recommendations == old(recommendations) && isPlaying == old(isPlaying) && isAutoPlaying == old(isAutoPlaying)
      ensures currentIndex == Carousel.Next(old(currentIndex), |recommendations|)
      ensures audio == old(audio) && slideColors == old(slideColors)
    {
      currentIndex := Carousel.Next(currentIndex, |recommendations|);
    }

    /** `togglePlay`, reading the current `isPlaying`. */
    method TogglePlay()
      requires Valid()
      modifies this
      ensures listener == old(listener)
      ensures Valid()
      ensures (isPlaying, audio) == TogglePlayEffect(old(CurrentSong()), old(isPlaying), old(audio))
      ensures recommendations == old(recommendations) && currentIndex == old(currentIndex)
      ensures isAutoPlaying == old(isAutoPlaying) && slideColors == old(slideColors)
    {
      if currentIndex >= |recommendations| {
        return;
      }
      var currentSong := recommendations[currentIndex];
      if isPlaying {
        if audio.Some? {
          audio := Some(audio.value.(currentTime := 0.0, paused := true));
        }
        isPlaying := false;
      } else {
        if audio.Some? && HasPreview(currentSong) {
          audio := Some(audio.value.(src := currentSong.previewUrl.value, currentTime := 0.0, paused := false));
          isPlaying := true;
        }
      }
    }

    /** `handleAudioEnded`. The element has stopped by itself at the end of
        the preview, so its `paused` flag is already set; the handler clears
        `isPlaying`. */
    method HandleAudioEnded()
      requires Valid()
      modifies this
      ensures listener == old(listener)
      ensures Valid()
      ensures !isPlaying
      ensures audio == if old(audio).Some? then Some(old(audio).value.(paused := true)) else None
      ensures recommendations == old(recommendations) && currentIndex == old(currentIndex)
      ensures isAutoPlaying == old(isAutoPlaying) && slideColors == old(slideColors)
    {
      if audio.Some? {
        audio := Some(audio.value.(paused := true));
      }
      isPlaying := false;
    }

    /** The auto-play button. */
    method ToggleAutoPlay()
      requires Valid()
      modifies this
      ensures listener == old(listener)
      ensures Valid()
      ensures isAutoPlaying == !old(isAutoPlaying)
      ensures recommendations == old(recommendations) && currentIndex == old(currentIndex)
      ensures isPlaying == old(isPlaying) && audio == old(audio) && slideColors == old(slideColors)
    {
      isAutoPlaying := !isAutoPlaying;
    }

    /** The `keydown` handler, reading the page's current state (see the
        findings for the handler as registered). */
    method HandleKey(key: string)
      requires Valid()
      modifies this
      ensures listener == old(listener)
      ensures Valid()
      ensures recommendations == old(recommendations) && slideColors == old(slideColors)
      ensures KeyActionOf(key) == GoNext ==>
        currentIndex == (if recommendations == [] then old(currentIndex) else Carousel.Next(old(currentIndex), |recommendations|))
      ensures KeyActionOf(key) == GoPrevious ==>
        currentIndex == (if recommendations == [] then old(currentIndex) else Carousel.Prev(old(currentIndex), |recommendations|))
      ensures KeyActionOf(key) == TogglePlayback ==>
        (isPlaying, audio) == TogglePlayEffect(old(CurrentSong()), old(isPlaying), old(audio))
      ensures KeyActionOf(key) == StopAutoPlay ==> !isAutoPlaying
      ensures KeyActionOf(key) != StopAutoPlay ==> isAutoPlaying == old(isAutoPlaying)
      ensures KeyActionOf(key) != TogglePlayback ==> isPlaying == old(isPlaying) && audio == old(audio)
      ensures KeyActionOf(key) !in {GoNext, GoPrevious} ==> currentIndex == old(currentIndex)
    {
      match KeyActionOf(key)
      case GoNext => GoToNext();
      case GoPrevious => GoToPrevious();
      case TogglePlayback => TogglePlay();
      case StopAutoPlay => isAutoPlaying := false;
      case Ignore =>
    }

    /** The registered handler was made in a render with the current index
        and number of recommendations. */
    predicate ListenerSynced()
      reads this
    {
      listener.index == currentIndex && listener.count == |recommendations|
    }

    /** The keyboard effect, run after a render. Its dependencies are
        `[currentIndex, recommendations.length]`: when either differs from
        the registered handler's, the handler is replaced by one closing over
        this render, `isPlaying` included; otherwise the old handler stays. */
    method SyncKeyListener()
      modifies this
      ensures ListenerSynced()
      ensures old(ListenerSynced()) ==> listener == old(listener)
      ensures !old(ListenerSynced()) ==> listener == KeyListener(currentIndex, |recommendations|, isPlaying)
      ensures recommendations == old(recommendations) && currentIndex == old(currentIndex)
      ensures isPlaying == old(isPlaying) && isAutoPlaying == old(isAutoPlaying)
      ensures audio == old(audio) && slideColors == old(slideColors)
    {
      if !ListenerSynced() {
        listener := KeyListener(currentIndex, |recommendations|, isPlaying);
      }
    }

    /** The `keydown` handler as registered. React runs pending effects
        before it dispatches the next key event, so the handler is in step
        with the index and the count; Enter's `togglePlay` still reads the
        `isPlaying` of the render that registered it. */
    method HandleKeyAsWritten(key: string)
      requires Valid() && ListenerSynced()
      modifies this
      ensures Valid()
      ensures listener == old(listener)
      ensures recommendations == old(recommendations) && slideColors == old(slideColors)
      ensures KeyActionOf(key) == GoNext ==>
        currentIndex == (if recommendations == [] then old(currentIndex) else Carousel.Next(old(currentIndex), |recommendations|))
      ensures KeyActionOf(key) == GoPrevious ==>
        currentIndex == (if recommendations == [] then old(currentIndex) else Carousel.Prev(old(currentIndex), |recommendations|))
      ensures KeyActionOf(key) == TogglePlayback ==>
        (isPlaying, audio) == TogglePlayEffect(old(CurrentSong()), old(listener.isPlaying), old(audio))
      ensures KeyActionOf(key) == StopAutoPlay ==> !isAutoPlaying
      ensures KeyActionOf(key) != StopAutoPlay ==> isAutoPlaying == old(isAutoPlaying)
      ensures KeyActionOf(key) != TogglePlayback ==> isPlaying == old(isPlaying) && audio == old(audio)
      ensures KeyActionOf(key) !in {GoNext, GoPrevious} ==> currentIndex == old(currentIndex)
    {
      match KeyActionOf(key)
      case GoNext => GoToNext();
      case GoPrevious => GoToPrevious();
      case TogglePlayback =>
        var r := TogglePlayEffect(CurrentSong(), listener.isPlaying, audio);
        isPlaying, audio := r.0, r.1;
      case StopAutoPlay => isAutoPlaying := false;
      case Ignore =>
    }
  }

  // -----------------------------------------------------------------------
  // Findings: the keyboard handler as registered

  /** Pressing Enter twice on a paused song with a preview, the handler
      having been registered while it was paused: the first press starts
      it; it moves neither the index nor the count, so the effect keeps the
      old handler, and the second press reads `isPlaying == false` again and
      starts the song instead of pausing it. Returns whether the page is
      playing after each press. */
  method EnterTwiceAsWritten(page: SuggestionsPageState) returns (first: bool, second: bool)
    requires page.Valid() && page.CurrentSong().Some? && HasPreview(page.CurrentSong().value)
    requires !page.isPlaying && page.audio.Some?
    requires page.listener == KeyListener(page.currentIndex, |page.recommendations|, false)
    modifies page
    ensures first && second
    ensures page.isPlaying && page.audio.Some? && !page.audio.value.paused
  {
    page.HandleKeyAsWritten("Enter");
    first := page.isPlaying;
    page.SyncKeyListener();
    page.HandleKeyAsWritten("Enter");
    second := page.isPlaying;
  }

  /** The same two presses with the handler reading the page's current
      `isPlaying`: the second press pauses the song and rewinds it. */
  method EnterTwicePauses(page: SuggestionsPageState) returns (first: bool, second: bool)
    requires page.Valid() && page.CurrentSong().Some? && HasPreview(page.CurrentSong().value)
    requires !page.isPlaying && page.audio.Some?
    modifies page
    ensures first && !second
    ensures !page.isPlaying && page.audio.Some? && page.audio.value.paused && page.audio.value.currentTime == 0.0
  {
    page.HandleKey("Enter");
    first := page.isPlaying;
    page.HandleKey("Enter");
    second := page.isPlaying;
  }

  // -----------------------------------------------------------------------
  // Findings: next and previous with no recommendations

  /** A JavaScript number as the index arithmetic can produce it. */
  datatype JsIndex = Num(value: nat) | NaN

  /** `(prev + 1) % recommendations.length` as written: `x % 0` is NaN, and
      NaN stays NaN through `+` and `%`. */
  function NextAsWritten(i: JsIndex, n: nat): (r: JsIndex)
    ensures r.Num? <==> i.Num? && n > 0
    ensures r.Num? ==> r.value == Carousel.Next(i.value, n)
  {
    match i
    case NaN => NaN
    case Num(v) => if n == 0 then NaN else Num((v + 1) % n)
  }

  /** `(prev - 1 + recommendations.length) % recommendations.length` as written. */
  function PrevAsWritten(i: JsIndex, n: nat): (r: JsIndex)
    ensures r.Num? <==> i.Num? && n > 0
    ensures r.Num? ==> r.value == Carousel.Prev(i.value, n)
  {
    match i
    case NaN => NaN
    case Num(v) => if n == 0 then NaN else Num((v + n - 1) % n)
  }

  /** A slide is `active` when its index equals the current index; NaN equals nothing. */
  predicate IsActiveAsWritten(index: nat, current: JsIndex)
  {
    current == Num(index)
  }

  /** The keydown listener is registered while the page is still loading,
      with no recommendations: ArrowRight or space there makes the index
      NaN, every later arrow step keeps it NaN, and no slide is active until
      a progress dot sets the index outright. */
  lemma {:induction false} NaNIndexSticks(steps: seq<bool>, n: nat, index: nat)
    ensures var first := NextAsWritten(Num(0), 0);
      first == NaN && !IsActiveAsWritten(index, Walk(first, steps, n)) && Walk(first, steps, n) == NaN
  {
    WalkFromNaN(steps, n);
  }

  /** Applying a sequence of next (`true`) and previous (`false`) steps as written. */
  function Walk(i: JsIndex, steps: seq<bool>, n: nat): JsIndex
    decreases |steps|
  {
    if steps == [] then i
    else Walk(if steps[0] then NextAsWritten(i, n) else PrevAsWritten(i, n), steps[1..], n)
  }

  lemma {:induction false} WalkFromNaN(steps: seq<bool>, n: nat)
    ensures Walk(NaN, steps, n) == NaN
  {
    if steps != [] {
      WalkFromNaN(steps[1..], n);
    }
  }

  /** With the guard of `GoToNext`/`GoToPrevious`, any sequence of steps
      keeps the index on a slide, or at 0 while there are none. */
  function WalkGuarded(i: nat, steps: seq<bool>, n: nat): (r: nat)
    requires n == 0 ==> i == 0
    requires n > 0 ==> i < n
    ensures n == 0 ==> r == 0
    ensures n > 0 ==> r < n
    decreases |steps|
  {
    if steps == [] then i
    else if n == 0 then WalkGuarded(i, steps[1..], n)
    else WalkGuarded(if steps[0] then Carousel.Next(i, n) else Carousel.Prev(i, n), steps[1..], n)
  }

  /** Steps taken while loading leave the guarded index at 0, so once
      recommendations arrive it names a slide, where the as-written index
      had become NaN. */
  lemma GuardedIndexStaysOnSlide(early: seq<bool>, later: seq<bool>, n: nat)
    requires n > 0
    ensures WalkGuarded(0, early, 0) == 0
    ensures WalkGuarded(WalkGuarded(0, early, 0), later, n) < n
  {
  }
}
