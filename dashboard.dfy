/** The dashboard: the three-slide action carousel, the play button on each
    recent vibe, and the vibration patterns of the haptic helper. */
module Dashboard {
  import opened Common
  import Carousel

  /** `actionSlides.length`: create, view entries, get songs. */
  const SlideCount: nat := 3

  /** What the dashboard hands to the mini player. */
  datatype Track = Track(title: string, artist: string, coverArt: string, spotifyUri: string, id: string)

  /** The fields of a journal entry the play button reads. */
  datatype Vibe = Vibe(id: string, songTitle: string, artist: string, image: string, link: string)

  /** What `togglePlayer` does to the page's `<audio>` element. */
  datatype AudioCommand = Pause | Play

  /** How far a drag must travel, in pixels, before it changes slide. */
  const DragThreshold: real := 50.0

  class DashboardPage {
    var currentSlide: nat
    var activeVibeId: Option<string>
    var isPlaying: bool
    var currentTrack: Option<Track>

    /** The carousel always shows one of its three slides, and a track is
        loaded exactly for the active vibe. */
    ghost predicate Valid()
      reads this
    {
      && currentSlide < SlideCount
      && (activeVibeId.Some? <==> currentTrack.Some?)
      && (currentTrack.Some? ==> currentTrack.value.id == activeVibeId.value)
    }

    /** The initial state: first slide, nothing playing, no track. */
    constructor ()
      ensures Valid()
      ensures currentSlide == 0 && activeVibeId == None && !isPlaying && currentTrack == None
    {
      currentSlide := 0;
      activeVibeId := None;
      isPlaying := false;
      currentTrack := None;
    }

    /** `goToSlide` from a pagination dot. */
    method GoToSlide(index: nat)
      requires Valid() && index < SlideCount
      modifies this
      ensures Valid()
      ensures currentSlide == index
      ensures activeVibeId == old(activeVibeId) && isPlaying == old(isPlaying) && currentTrack == old(currentTrack)
    {
      currentSlide := index;
    }

    /** `nextSlide`: the following slide, the first after the last. */
    method NextSlide()
      requires Valid()
      modifies this
      ensures Valid()
      ensures currentSlide == Carousel.Next(old(currentSlide), SlideCount)
      ensures activeVibeId == old(activeVibeId) && isPlaying == old(isPlaying) && currentTrack == old(currentTrack)
    {
      GoToSlide(Carousel.Next(currentSlide, SlideCount));
    }

    /** `prevSlide`: the preceding slide, the last before the first. */
    method PrevSlide()
      requires Valid()
      modifies this
      ensures Valid()
      ensures currentSlide == Carousel.Prev(old(currentSlide), SlideCount)
      ensures activeVibeId == old(activeVibeId) && isPlaying == old(isPlaying) && currentTrack == old(currentTrack)
    {
      GoToSlide(Carousel.Prev(currentSlide, SlideCount));
    }

    /** The carousel's `onDragEnd`: a drag to the right further than the
        threshold goes back, one to the left goes forward, a shorter one
        stays. */
    method OnDragEnd(dragDistance: real)
      requires Valid()
      modifies this
      ensures Valid()
      ensures currentSlide == DragTarget(old(currentSlide), dragDistance)
      ensures activeVibeId == old(activeVibeId) && isPlaying == old(isPlaying) && currentTrack == old(currentTrack)
    {
      if dragDistance > DragThreshold {
        PrevSlide();
      } else if dragDistance < -DragThreshold {
        NextSlide();
      }
    }

    /** `togglePlayer`: on the active vibe, flip between playing and paused;
        on another vibe, stop the audio, load that vibe's track and play.
        Returns the command sent to the `<audio>` element. */
    method TogglePlayer(vibeId: string, audioUrl: string, vibe: Vibe) returns (command: AudioCommand)
      requires Valid()
      modifies this
      ensures Valid()
      ensures currentSlide == old(currentSlide)
      ensures (activeVibeId, isPlaying, currentTrack, command)
           == PlayerTransition(old(activeVibeId), old(isPlaying), old(currentTrack), vibeId, audioUrl, vibe)
    {
      if activeVibeId == Some(vibeId) {
        command := if isPlaying then Pause else Play;
        isPlaying := !isPlaying;
      } else {
        command := Pause;
        currentTrack := Some(Track(vibe.songTitle, vibe.artist, vibe.image, audioUrl, vibeId));
        activeVibeId := Some(vibeId);
        isPlaying := true;
      }
    }
  }

  /** The slide a drag of `dragDistance` pixels ends on. */
  function DragTarget(slide: nat, dragDistance: real): (r: nat)
    requires slide < SlideCount
    ensures r < SlideCount
    ensures dragDistance > DragThreshold ==> Carousel.Next(r, SlideCount) == slide
    ensures dragDistance < -DragThreshold ==> Carousel.Prev(r, SlideCount) == slide
    ensures -DragThreshold <= dragDistance <= DragThreshold ==> r == slide
  {
    Carousel.PrevNextInverse(slide, SlideCount);
    if dragDistance > DragThreshold then Carousel.Prev(slide, SlideCount)
    else if dragDistance < -DragThreshold then Carousel.Next(slide, SlideCount)
    else slide
  }

  /** What one press of a vibe's play button does to the player state. */
  function PlayerTransition(activeVibeId: Option<string>, isPlaying: bool, currentTrack: Option<Track>,
                            vibeId: string, audioUrl: string, vibe: Vibe)
    : (r: (Option<string>, bool, Option<Track>, AudioCommand))
    // the active vibe: only the playing flag flips, and the audio follows it
    ensures activeVibeId == Some(vibeId) ==>
      r.0 == activeVibeId && r.1 == !isPlaying && r.2 == currentTrack && (r.3 == Play <==> r.1)
    // another vibe: it becomes active and plays its own track
    ensures activeVibeId != Some(vibeId) ==>
      && r.0 == Some(vibeId) && r.1 && r.3 == Pause
      && r.2.Some? && r.2.value.id == vibeId && r.2.value.title == vibe.songTitle
      && r.2.value.artist == vibe.artist && r.2.value.coverArt == vibe.image && r.2.value.spotifyUri == audioUrl
  {
    if activeVibeId == Some(vibeId) then
      (activeVibeId, !isPlaying, currentTrack, if isPlaying then Pause else Play)
    else
      (Some(vibeId), true, Some(Track(vibe.songTitle, vibe.artist, vibe.image, audioUrl, vibeId)), Pause)
  }

  /** Pressing the same vibe's button twice leaves the player as it was. */
  lemma TogglePlayerTwice(activeVibeId: Option<string>, isPlaying: bool, currentTrack: Option<Track>,
                          vibeId: string, audioUrl: string, vibe: Vibe)
    requires activeVibeId == Some(vibeId)
    ensures var once := PlayerTransition(activeVibeId, isPlaying, currentTrack, vibeId, audioUrl, vibe);
      var twice := PlayerTransition(once.0, once.1, once.2, vibeId, audioUrl, vibe);
      twice.0 == activeVibeId && twice.1 == isPlaying && twice.2 == currentTrack
  {
  }

  /** After pressing a new vibe's button, pressing it again pauses it. */
  lemma NewVibeThenSamePauses(activeVibeId: Option<string>, isPlaying: bool, currentTrack: Option<Track>,
                              vibeId: string, audioUrl: string, vibe: Vibe)
    requires activeVibeId != Some(vibeId)
    ensures var once := PlayerTransition(activeVibeId, isPlaying, currentTrack, vibeId, audioUrl, vibe);
      var twice := PlayerTransition(once.0, once.1, once.2, vibeId, audioUrl, vibe);
      once.1 && !twice.1 && twice.3 == Pause && twice.2 == once.2
  {
  }

  // -----------------------------------------------------------------------
  // triggerHaptic

  /** The vibration pattern `triggerHaptic(type)` asks for, in milliseconds
      (`navigator.vibrate(10)` is the one-pulse pattern `[10]`); `None` when
      the browser cannot vibrate. */
  function HapticPattern(kind: string, canVibrate: bool): (r: Option<seq<nat>>)
    ensures r.Some? <==> canVibrate
    ensures canVibrate && kind == "medium" ==> r == Some([20])
    ensures canVibrate && kind == "heavy" ==> r == Some([30, 10, 30])
    ensures canVibrate && kind == "success" ==> r == Some([50, 25, 50])
    ensures canVibrate && kind !in {"medium", "heavy", "success"} ==> r == Some([10])
  {
    if !canVibrate then None
    else if kind == "light" then Some([10])
    else if kind == "medium" then Some([20])
    else if kind == "heavy" then Some([30, 10, 30])
    else if kind == "success" then Some([50, 25, 50])
    else Some([10])
  }

  /** An unknown kind vibrates like the default, "light". */
  lemma UnknownHapticIsLight(kind: string, canVibrate: bool)
    requires kind !in {"light", "medium", "heavy", "success"}
    ensures HapticPattern(kind, canVibrate) == HapticPattern("light", canVibrate)
  {
  }
}
