/** The dashboard heading's greeting, chosen by the hour of the day. */
module Greetings {
  import opened Common

  const Morning: string := "Good morning, Coach"
  const Afternoon: string := "Good afternoon, Coach"
  const Evening: string := "Good evening, Coach"

  /** `getTimeGreeting` for the hour `new Date().getHours()` gives; `None`
      where the function falls off its end and returns undefined. */
  function TimeGreeting(hour: int): (r: Option<string>)
    ensures r == Some(Morning) <==> 5 <= hour < 12
    ensures r == Some(Afternoon) <==> 12 <= hour < 17
    ensures r == Some(Evening) <==> 17 <= hour < 21
    ensures r.None? <==> hour < 5 || 21 <= hour
  {
    if hour >= 5 && hour < 12 then Some(Morning)
    else if hour >= 12 && hour < 17 then Some(Afternoon)
    else if hour >= 17 && hour < 21 then Some(Evening)
    else None
  }

  /** Through a day the greeting changes only as the clock reaches 5, 12,
      17 and 21 o'clock. */
  lemma GreetingBoundaries(hour: int)
    requires 0 <= hour < 23
    ensures TimeGreeting(hour) != TimeGreeting(hour + 1) <==> hour in {4, 11, 16, 20}
  {
  }
}
