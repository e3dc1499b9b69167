/** The dashboard's mini player, which drives the Spotify Web Playback SDK:
    start a track on this device, play/pause, skip five seconds back or
    forward, keep the play button in step with the SDK's state events, and
    show times as m:ss from milliseconds. The SDK is represented by the playback state it
    reports; what it does with a request is its own business. */
module MiniPlayer {
  import opened Common
  import EntryDetails

  /** What the SDK reports about the current playback, in milliseconds. */
  datatype PlaybackState = PlaybackState(duration: int, position: int, paused: bool)

  /** The track prop: `spotifyUri` may be null. */
  datatype Track = Track(title: string, artist: string, coverArt: string, spotifyUri: Option<string>, id: string)

  /** The `PUT /v1/me/player/play` request `playTrack` sends. */
  datatype PlayRequest = PlayRequest(deviceId: string, uris: seq<Option<string>>)

  /** The SDK call `togglePlayPause` ends in. */
  datatype Command = NoCommand | StartTrack(request: PlayRequest) | Resume | Pause

  // -----------------------------------------------------------------------
  // formatTime (milliseconds)

  /** JavaScript's `x % m` on integers: the remainder truncated toward zero.
      It is smaller than `m` in size, has the sign of `x` (or is zero), and
      differs from `x` by a multiple of `m`. */
  function JsIntRem(x: int, m: int): (r: int)
    requires m > 0
    ensures -m < r < m
    ensures x >= 0 ==> r >= 0
    ensures x < 0 ==> r <= 0
    ensures (x - r) % m == 0
  {
    if x >= 0 then
      RemainderLeavesMultiple(x, m);
      x % m
    else
      RemainderLeavesMultiple(-x, m);
      NegatedMultiple(-x - (-x) % m, m);
      -((-x) % m)
  }

  /** Taking away the remainder leaves a multiple of `m`. */
  lemma RemainderLeavesMultiple(y: nat, m: int)
    requires m > 0
    ensures (y - y % m) % m == 0
  {
    assert y - y % m == m * (y / m);
    MultipleHasNoRemainder(y / m, m);
  }

  lemma NegatedMultiple(k: int, m: int)
    requires m > 0 && k % m == 0
    ensures (-k) % m == 0
  {
    assert k == m * (k / m);
    assert -k == m * (-(k / m));
    MultipleHasNoRemainder(-(k / m), m);
  }

  lemma MultipleHasNoRemainder(q: int, m: int)
    requires m > 0
    ensures (m * q) % m == 0
  {
    var k := m * q;
    var d := q - k / m;
    assert m * d == k % m;
    if d != 0 {
      MulAtLeast(d, m);
      assert false;
    }
  }

  /** `formatTime(ms)`: `Math.floor(ms / 60000)` minutes, then
      `Math.floor((ms % 60000) / 1000)` seconds padded to two digits. With a
      positive divisor Dafny's `/` on integers is `Math.floor` of the
      quotient. */
  function FormatTimeMs(ms: int): (text: string)
    // for a time that is not negative: minutes, a colon, two digits
    ensures ms >= 0 ==> |text| >= 4 && text[|text| - 3] == ':'
  {
    SecondsFieldWidthMs(ms);
    IntToDecimal(ms / 60000) + ":" + PadStart2(IntToDecimal(JsIntRem(ms, 60000) / 1000))
  }

  /** For a time that is not negative the padded seconds take two characters. */
  lemma SecondsFieldWidthMs(ms: int)
    ensures ms >= 0 ==> |PadStart2(IntToDecimal(JsIntRem(ms, 60000) / 1000))| == 2
  {
    if ms >= 0 {
      FormatTimeMsParts(ms);
      EntryDetails.ShortDigits(JsIntRem(ms, 60000) / 1000);
    }
  }

  /** A whole number of milliseconds prints exactly as the entry page prints
      the same length of time in seconds. */
  lemma FormatTimeAgrees(ms: nat)
    ensures FormatTimeMs(ms) == EntryDetails.FormatTime(ms as real / 1000.0)
  {
    MinutesAgree(ms);
    SecondsAgree(ms);
  }

  lemma MinutesAgree(ms: nat)
    ensures (ms as real / 1000.0 / 60.0).Floor == ms / 60000
  {
    assert ms as real / 1000.0 / 60.0 == ms as real / 60000.0;
    FloorOfQuotient(ms, 60000);
  }

  lemma SecondsAgree(ms: nat)
    ensures EntryDetails.JsRem(ms as real / 1000.0, 60.0).Floor == JsIntRem(ms, 60000) / 1000
  {
    var t := ms as real / 1000.0;
    var q := ms / 60000;
    MinutesAgree(ms);
    EntryDetails.QuotientNonNegative(t, 60.0);
    assert EntryDetails.Trunc(t / 60.0) == q;
    var rest := EntryDetails.JsRem(t, 60.0);
    assert rest == t - 60.0 * q as real;
    var r := ms - 60000 * q;
    assert r == ms % 60000;
    assert rest == r as real / 1000.0;
    FloorOfQuotient(r, 1000);
  }

  /** `Math.floor(n / d)` on numbers is integer division. */
  lemma FloorOfQuotient(n: nat, d: nat)
    requires d > 0
    ensures (n as real / d as real).Floor == n / d
  {
    var q, r := n / d, n % d;
    assert n == q * d + r && 0 <= r < d;
    var x := n as real / d as real;
    assert x * d as real == n as real;
    assert q as real <= x by {
      assert q as real * d as real <= n as real;
      ScaleDown(q as real, x, d as real);
    }
    assert x < q as real + 1.0 by {
      assert n as real < (q as real + 1.0) * d as real;
      ScaleDownStrict(x, q as real + 1.0, d as real);
    }
  }

  lemma ScaleDown(a: real, b: real, d: real)
    requires d > 0.0 && a * d <= b * d
    ensures a <= b
  {
  }

  lemma ScaleDownStrict(a: real, b: real, d: real)
    requires d > 0.0 && a * d < b * d
    ensures a < b
  {
  }

  /** The seconds shown lie in 0..59 and the minutes and seconds give back
      the whole seconds of a position. */
  lemma FormatTimeMsParts(ms: nat)
    ensures 0 <= JsIntRem(ms, 60000) / 1000 < 60
    ensures (ms / 60000) * 60 + JsIntRem(ms, 60000) / 1000 == ms / 1000
  {
  }

  // -----------------------------------------------------------------------
  // skipTime

  /** `skipTime`'s seek target, `min(duration, max(0, position + seconds * 1000))`. */
  function SeekTarget(state: PlaybackState, seconds: int): (r: int)
    ensures 0 <= state.duration ==> 0 <= r <= state.duration
    ensures 0 <= state.position + seconds * 1000 <= state.duration ==> r == state.position + seconds * 1000
    ensures state.position + seconds * 1000 < 0 <= state.duration ==> r == 0
    ensures state.duration < state.position + seconds * 1000 ==> r == state.duration
  {
    Min(state.duration, Max(0, state.position + seconds * 1000))
  }

  /** The mini player clamps in the other order from the entry page
      (`min` outside `max`); for a track of non-negative length the two
      agree. */
  lemma SeekAgreesWithEntryPage(state: PlaybackState, seconds: int)
    requires 0 <= state.duration
    ensures SeekTarget(state, seconds) as real
         == EntryDetails.SkipTarget(state.position as real, state.duration as real, (seconds * 1000) as real)
  {
  }

  // -----------------------------------------------------------------------
  // The component

  /** The SDK player object: the state `getCurrentState()` resolves to, which
      its `resume`, `pause` and `seek` calls change. */
  class SdkPlayer {
    var state: Option<PlaybackState>

    constructor (state: Option<PlaybackState>)
      ensures this.state == state
    {
      this.state := state;
    }
  }

  class MiniPlayerState {
    /** `player`; null until the SDK is ready. */
    var player: SdkPlayer?
    var deviceId: Option<string>
    var isPlaying: bool
    var track: Option<Track>

    constructor (track: Option<Track>, isPlaying: bool)
      ensures player == null && deviceId == None && this.track == track && this.isPlaying == isPlaying
    {
      player := null;
      deviceId := None;
      this.track := track;
      this.isPlaying := isPlaying;
    }

    /** `playTrack`: a play request for this device, or nothing without a
        device id or a track. `!deviceId` also rejects an empty id. */
    method PlayTrack() returns (request: Option<PlayRequest>)
      ensures request.Some? <==> deviceId.Some? && deviceId.value != "" && track.Some?
      ensures request.Some? ==> request.value == PlayRequest(deviceId.value, [track.value.spotifyUri])
    {
      if deviceId.None? || deviceId.value == "" || track.None? {
        return None;
      }
      request := Some(PlayRequest(deviceId.value, [track.value.spotifyUri]));
    }

    /** `togglePlayPause`: nothing without a player; with no playback state
        start the track; otherwise resume a paused player and pause a
        playing one. */
    method TogglePlayPause() returns (command: Command)
      modifies player
      ensures player == null ==> command == NoCommand
      ensures player != null && old(player.state).None? ==>
        && player.state == None
        && (command == NoCommand || command.StartTrack?)
        && (command.StartTrack? <==> deviceId.Some? && deviceId.value != "" && track.Some?)
        && command == if deviceId.Some? && deviceId.value != "" && track.Some?
                      then StartTrack(PlayRequest(deviceId.value, [track.value.spotifyUri]))
                      else NoCommand
      ensures player != null && old(player.state).Some? ==>
        && player.state == Some(old(player.state.value).(paused := !old(player.state.value.paused)))
        && command == if old(player.state.value.paused) then Resume else Pause
    {
      if player == null {
        return NoCommand;
      }
      match player.state {
        case None =>
          var request := PlayTrack();
          command := if request.Some? then StartTrack(request.value) else NoCommand;
        case Some(s) =>
          if s.paused {
            player.state := Some(s.(paused := false));
            command := Resume;
          } else {
            player.state := Some(s.(paused := true));
            command := Pause;
          }
      }
    }

    /** `skipTime`: seek by `seconds`, kept within the track; nothing without
        a player or a playback state. */
    method SkipTime(seconds: int)
      modifies player
      ensures player != null && old(player.state).None? ==> player.state == None
      ensures player != null && old(player.state).Some? ==>
        var s := old(player.state.value); player.state == Some(s.(position := SeekTarget(s, seconds)))
    {
      if player == null {
        return;
      }
      match player.state {
        case None =>
        case Some(s) =>
          player.state := Some(s.(position := SeekTarget(s, seconds)));
      }
    }

    /** The `player_state_changed` listener: the button shows playing exactly
        when the SDK is not paused; a null state is ignored. */
    method OnStateChanged(state: Option<PlaybackState>)
      modifies this
      ensures state.Some? ==> isPlaying == !state.value.paused
      ensures state.None? ==> isPlaying == old(isPlaying)
      ensures player == old(player) && deviceId == old(deviceId) && track == old(track)
    {
      if state.Some? {
        isPlaying := !state.value.paused;
      }
    }
  }
}
