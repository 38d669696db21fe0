/** The three mock tools that app.py declares to the agent service:
    `fetch_current_datetime`, `fetch_weather` and `get_user_info`.
    Each tool builds a dictionary and serialises it with `json.dumps`; the
    model returns the dictionary itself, as a `Json` value. */
module Tools {

  import opened Wrappers

  /** The JSON values the tools produce: strings and objects. */
  datatype Json = Str(s: string) | Obj(fields: map<string, Json>)

  // ---------------------------------------------------------------------
  // fetch_current_datetime

  /** The pattern used when the caller gives no format, or an empty one. */
  const DefaultTimeFormat: string := "%Y-%m-%d %H:%M:%S"

  /** The `if format:` choice: Python treats `None` and `""` as false, and
      every other string as true. */
  function TimeFormat(format: Option<string>): (f: string)
    ensures format.Some? && format.value != [] ==> f == format.value
    ensures format == None || format == Some([]) ==> f == DefaultTimeFormat
    ensures f != []
  {
    if format.Some? && format.value != [] then format.value else DefaultTimeFormat
  }

  /** The tool result `{"current_time": ...}`. The wall-clock reading `now`
      and the renderer `strftime` are parameters: the clock and Python's
      date formatting are outside the model. */
  function FetchCurrentDatetime<Instant>(now: Instant, format: Option<string>,
                                         strftime: (Instant, string) -> string): (r: Json)
    ensures r.Obj? && r.fields.Keys == {"current_time"}
    ensures format.Some? && format.value != [] ==>
              r.fields["current_time"] == Str(strftime(now, format.value))
    ensures format == None || format == Some([]) ==>
              r.fields["current_time"] == Str(strftime(now, "%Y-%m-%d %H:%M:%S"))
  {
    Obj(map["current_time" := Str(strftime(now, TimeFormat(format)))])
  }

  // ---------------------------------------------------------------------
  // fetch_weather

  /** The canned weather strings, keyed by location name. */
  const MockWeatherData: map<string, string> :=
    map["New York" := "Sunny, 25°C",
        "London" := "Cloudy, 18°C",
        "Tokyo" := "Rainy, 22°C"]

  /** The default of the `.get` lookup. */
  const WeatherUnavailable: string := "Weather data not available for this location."

  /** The tool result `{"weather": ...}`: the canned string for the three
      known locations (compared exactly, no case folding), the fixed
      "not available" text for every other location. */
  function FetchWeather(location: string): (r: Json)
    ensures r.Obj? && r.fields.Keys == {"weather"}
    ensures location == "New York" ==> r.fields["weather"] == Str("Sunny, 25°C")
    ensures location == "London" ==> r.fields["weather"] == Str("Cloudy, 18°C")
    ensures location == "Tokyo" ==> r.fields["weather"] == Str("Rainy, 22°C")
    ensures r.fields["weather"] == Str("Weather data not available for this location.")
            <==> location !in {"New York", "London", "Tokyo"}
  {
    var weather := if location in MockWeatherData then MockWeatherData[location]
                   else WeatherUnavailable;
    Obj(map["weather" := Str(weather)])
  }

  // ---------------------------------------------------------------------
  // get_user_info

  /** A user record `{"name": ..., "email": ...}`. */
  function UserRecord(name: string, email: string): Json {
    Obj(map["name" := Str(name), "email" := Str(email)])
  }

  /** The three sample users, keyed by integer id. */
  const MockUsers: map<int, Json> :=
    map[1 := UserRecord("Alice", "alice@example.com"),
        2 := UserRecord("Bob", "bob@example.com"),
        3 := UserRecord("Charlie", "charlie@example.com")]

  /** The default of the `.get` lookup. */
  const UserNotFound: Json := Obj(map["error" := Str("User not found.")])

  /** The tool result `{"user_info": ...}`: the sample record for ids 1, 2
      and 3, the `{"error": "User not found."}` object for every other id. */
  function GetUserInfo(userId: int): (r: Json)
    ensures r.Obj? && r.fields.Keys == {"user_info"}
    ensures userId == 1 ==>
              r.fields["user_info"] == Obj(map["name" := Str("Alice"), "email" := Str("alice@example.com")])
    ensures userId == 2 ==>
              r.fields["user_info"] == Obj(map["name" := Str("Bob"), "email" := Str("bob@example.com")])
    ensures userId == 3 ==>
              r.fields["user_info"] == Obj(map["name" := Str("Charlie"), "email" := Str("charlie@example.com")])
    ensures r.fields["user_info"] == Obj(map["error" := Str("User not found.")])
            <==> !(1 <= userId <= 3)
  {
    var userInfo := if userId in MockUsers then MockUsers[userId] else UserNotFound;
    // a found record has a "name" field, the not-found object has none
    assert userId in MockUsers ==> "name" in userInfo.fields;
    Obj(map["user_info" := userInfo])
  }
}
