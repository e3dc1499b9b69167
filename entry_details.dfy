/** The page of a single journal entry: its `<audio>` player (play/pause,
    ten-second skips, progress bar, times shown as m:ss) and the delete
    button that asks for a second press. */
module EntryDetails {
  import opened Common

  // -----------------------------------------------------------------------
  // Times and progress

  /** The integer part of `x`, rounded toward zero. */
  function Trunc(x: real): (r: int)
    ensures 0.0 <= x ==> r == x.Floor
    ensures x < 0.0 ==> r == -((-x).Floor)
  {
    if x >= 0.0 then x.Floor else -((-x).Floor)
  }

  /** JavaScript's `x % m` on numbers: the remainder of the division
      truncated toward zero, with the sign of `x`. */
  function JsRem(x: real, m: real): (r: real)
    requires m > 0.0
    ensures 0.0 <= x ==> 0.0 <= r < m
  {
    var q := Trunc(x / m);
    if x >= 0.0 then
      QuotientNonNegative(x, m);
      RemainderBounds(x, m, q as real);
      x - m * q as real
    else x - m * q as real
  }

  lemma QuotientNonNegative(x: real, m: real)
    requires 0.0 <= x && m > 0.0
    ensures 0.0 <= x / m
  {
  }

  lemma RemainderBounds(x: real, m: real, lo: real)
    requires m > 0.0 && lo <= x / m < lo + 1.0
    ensures 0.0 <= x - m * lo < m
  {
    var y := x / m;
    assert y * m == x;
    var d := y - lo;
    assert 0.0 <= d < 1.0;
    assert d * m < m by { ScaleBelowOne(d, m); }
    assert x - m * lo == d * m;
  }

  lemma ScaleBelowOne(d: real, m: real)
    requires 0.0 <= d < 1.0 && m > 0.0
    ensures 0.0 <= d * m < m
  {
  }

  /** `formatTime`: whole minutes, a colon, and the seconds within the minute
      padded to two digits. */
  function FormatTime(time: real): (text: string)
    // for a time that is not negative: minutes, a colon, two digits
    ensures time >= 0.0 ==> |text| >= 4 && text[|text| - 3] == ':'
  {
    SecondsFieldWidth(time);
    IntToDecimal((time / 60.0).Floor) + ":" + PadStart2(IntToDecimal(JsRem(time, 60.0).Floor))
  }

  /** The two numbers `formatTime` prints: for a time that is not negative,
      minutes and a second in 0..59 that together give the whole seconds. */
  lemma FormatTimeParts(time: real)
    requires time >= 0.0
    ensures var minutes, seconds := (time / 60.0).Floor, JsRem(time, 60.0).Floor;
      && minutes >= 0 && 0 <= seconds < 60
      && minutes * 60 + seconds == time.Floor
  {
    var minutes := (time / 60.0).Floor;
    var rest := JsRem(time, 60.0);
    assert rest == time - 60.0 * minutes as real;
    FloorShift(rest, 60 * minutes);
    assert rest + (60 * minutes) as real == time;
  }

  /** For a time that is not negative the padded seconds take two characters. */
  lemma SecondsFieldWidth(time: real)
    ensures time >= 0.0 ==> |PadStart2(IntToDecimal(JsRem(time, 60.0).Floor))| == 2
  {
    if time >= 0.0 {
      FormatTimeParts(time);
      ShortDigits(JsRem(time, 60.0).Floor);
    }
  }

  /** Adding a whole number moves the floor by that number. */
  lemma FloorShift(x: real, k: int)
    ensures (x + k as real).Floor == x.Floor + k
  {
  }

  /** The text of `formatTime` reads back as the whole seconds: the digits
      before the colon are the minutes, the two after it the seconds. */
  lemma FormatTimeReadsBack(time: real)
    requires time >= 0.0
    ensures var text := FormatTime(time);
      && |text| >= 4 && text[|text| - 3] == ':'
      && IsDigitString(text[..|text| - 3], 10) && IsDigitString(text[|text| - 2..], 10)
      && DigitsValue(text[..|text| - 3], 10) * 60 + DigitsValue(text[|text| - 2..], 10) == time.Floor
  {
    FormatTimeParts(time);
    var minutes, seconds := (time / 60.0).Floor, JsRem(time, 60.0).Floor;
    var m, s := NatToString(minutes, 10), NatToString(seconds, 10);
    ShortDigits(seconds);
    var padded := PadStart2(s);
    PadStart2Value(s, 10);
    NatToStringRoundTrip(minutes, 10);
    NatToStringRoundTrip(seconds, 10);
    var text := FormatTime(time);
    assert text == m + ":" + padded;
    ColonSplit(m, padded, text);
  }

  /** The two fields of "m:ss" come back out of the text. */
  lemma ColonSplit(m: string, padded: string, text: string)
    requires |m| >= 1 && |padded| == 2 && text == m + ":" + padded
    ensures |text| >= 4 && text[|text| - 3] == ':'
    ensures text[..|text| - 3] == m && text[|text| - 2..] == padded
  {
  }

  /** A number below 100 has at most two decimal digits. */
  lemma ShortDigits(n: nat)
    requires n < 100
    ensures |NatToString(n, 10)| <= 2
  {
    if n >= 10 {
      assert NatToString(n, 10) == NatToString(n / 10, 10) + [DigitChar(n % 10)];
    }
  }

  /** `progressPercentage`: how far through the track the player is. */
  function ProgressPercentage(currentTime: real, duration: real): (r: real)
    ensures duration <= 0.0 ==> r == 0.0
    ensures duration > 0.0 ==> r * duration == currentTime * 100.0
  {
    if duration > 0.0 then currentTime / duration * 100.0 else 0.0
  }

  /** While the time lies within the track the bar is between empty and full,
      and it is full exactly at the end. */
  lemma ProgressBounds(currentTime: real, duration: real)
    requires 0.0 <= currentTime <= duration
    ensures 0.0 <= ProgressPercentage(currentTime, duration) <= 100.0
    ensures duration > 0.0 ==> (ProgressPercentage(currentTime, duration) == 100.0 <==> currentTime == duration)
  {
    if duration > 0.0 {
      var r := ProgressPercentage(currentTime, duration);
      assert r * duration == currentTime * 100.0;
      assert 0.0 <= r by {
        if r < 0.0 { ProductSign(r, duration); }
      }
      assert r <= 100.0 by {
        if r > 100.0 { ScaleAbove(r, 100.0, duration); }
      }
    }
  }

  lemma ProductSign(r: real, d: real)
    requires r < 0.0 && d > 0.0
    ensures r * d < 0.0
  {
  }

  lemma ScaleAbove(r: real, c: real, d: real)
    requires r > c && d > 0.0
    ensures r * d > c * d
  {
  }

  /** `skipTime`'s new playback position, `max(0, min(duration, current + seconds))`. */
  function SkipTarget(currentTime: real, duration: real, seconds: real): (r: real)
    ensures 0.0 <= r
    ensures 0.0 <= duration ==> r <= duration
    ensures 0.0 <= currentTime + seconds <= duration ==> r == currentTime + seconds
    ensures currentTime + seconds < 0.0 ==> r == 0.0
    ensures 0.0 <= duration < currentTime + seconds ==> r == duration
  {
    MaxReal(0.0, MinReal(duration, currentTime + seconds))
  }

  /** Skipping back and then forward by the same amount returns to the
      same place unless the first skip hit the start of the track. */
  lemma SkipBackThenForward(currentTime: real, duration: real, seconds: real)
    requires 0.0 <= seconds <= currentTime <= duration
    ensures SkipTarget(SkipTarget(currentTime, duration, -seconds), duration, seconds) == currentTime
  {
  }

  // -----------------------------------------------------------------------
  // The page

  /** The page's `<audio>` element. */
  class AudioElement {
    var currentTime: real
    var duration: real
    var paused: bool

    constructor (duration: real)
      ensures currentTime == 0.0 && this.duration == duration && paused
    {
      currentTime := 0.0;
      this.duration := duration;
      paused := true;
    }
  }

  class EntryDetailsPage {
    var isPlaying: bool
    var showDeleteConfirm: bool
    /** `audioRef.current`; null until the entry has loaded. */
    var audio: AudioElement?
    /** Set once the delete succeeded and the page went back to the dashboard. */
    var leftPage: bool

    constructor ()
      ensures !isPlaying && !showDeleteConfirm && audio == null && !leftPage
    {
      isPlaying := false;
      showDeleteConfirm := false;
      audio := null;
      leftPage := false;
    }

    /** `togglePlayPause`: pause when playing; otherwise start the audio, and
        count as playing only if `play()` resolved (`playSucceeds`). */
    method TogglePlayPause(playSucceeds: bool)
      modifies this, audio
      ensures audio == old(audio)
      ensures showDeleteConfirm == old(showDeleteConfirm) && leftPage == old(leftPage)
      ensures old(audio) == null ==> isPlaying == old(isPlaying)
      ensures audio != null && old(isPlaying) ==> !isPlaying && audio.paused
      ensures audio != null && !old(isPlaying) ==> isPlaying == playSucceeds && audio.paused == !playSucceeds
      ensures audio != null ==> audio.currentTime == old(audio.currentTime) && audio.duration == old(audio.duration)
    {
      if audio == null {
        return;
      }
      if isPlaying {
        audio.paused := true;
        isPlaying := false;
      } else {
        audio.paused := !playSucceeds;
        isPlaying := playSucceeds;
      }
    }

    /** `skipTime`: move the audio by `seconds`, kept within the track. */
    method SkipTime(seconds: real)
      modifies audio
      ensures audio != null ==> audio.currentTime == SkipTarget(old(audio.currentTime), audio.duration, seconds)
      ensures audio != null ==> audio.duration == old(audio.duration) && audio.paused == old(audio.paused)
    {
      if audio == null {
        return;
      }
      audio.currentTime := SkipTarget(audio.currentTime, audio.duration, seconds);
    }

    /** `handleDelete`. Without a token nothing happens. The first press only
        asks for confirmation; a press while the confirmation shows sends the
        DELETE, and a successful response leaves the page. Returns whether
        the request was sent. */
    method HandleDelete(hasToken: bool, deleteOk: bool) returns (sent: bool)
      modifies this
      ensures sent <==> hasToken && old(showDeleteConfirm)
      ensures hasToken && !old(showDeleteConfirm) ==> showDeleteConfirm
      ensures !(hasToken && !old(showDeleteConfirm)) ==> showDeleteConfirm == old(showDeleteConfirm)
      ensures leftPage == (old(leftPage) || (sent && deleteOk))
      ensures isPlaying == old(isPlaying) && audio == old(audio)
    {
      sent := false;
      if !hasToken {
        return;
      }
      if showDeleteConfirm {
        sent := true;
        if deleteOk {
          leftPage := true;
        }
      } else {
        showDeleteConfirm := true;
      }
    }

    /** The three-second timer armed by the first press hides the
        confirmation again. */
    method ConfirmExpired()
      modifies this
      ensures !showDeleteConfirm
      ensures isPlaying == old(isPlaying) && audio == old(audio) && leftPage == old(leftPage)
    {
      showDeleteConfirm := false;
    }

    /** The `ended` event of the audio. The element has stopped by itself
        at the end of the track, so its `paused` flag is already set; the
        listener clears `isPlaying`. */
    method OnEnded()
      modifies this, audio
      ensures !isPlaying
      ensures showDeleteConfirm == old(showDeleteConfirm) && audio == old(audio) && leftPage == old(leftPage)
      ensures audio != null ==>
        audio.paused && audio.currentTime == old(audio.currentTime) && audio.duration == old(audio.duration)
    {
      if audio != null {
        audio.paused := true;
      }
      isPlaying := false;
    }
  }

  /** Two presses in a row delete the entry; one press, then the timer, then
      another press only asks again. Returns whether each of the three
      presses sent the delete request. */
  method DeleteNeedsTwoPresses(page: EntryDetailsPage, deleteOk: bool) returns (first: bool, again: bool, second: bool)
    requires !page.showDeleteConfirm
    modifies page
    ensures !first && !again && second
    ensures !page.showDeleteConfirm
    ensures page.leftPage == (old(page.leftPage) || deleteOk)
  {
    first := page.HandleDelete(true, deleteOk);
    page.ConfirmExpired();
    again := page.HandleDelete(true, deleteOk);
    second := page.HandleDelete(true, deleteOk);
    page.ConfirmExpired();
  }
}
