/**
 * The faculty dashboard's client-side logic: the guard in front of the
 * start-session request, HTML escaping, URL parameter substitution, the
 * normalisation of the active-session response with the start button it
 * drives, and the colour band of an attendance percentage.
 */
module Faculty {
  import opened Wrappers
  import opened Strings
  import opened Tables

  /** The client's bound on concurrently active sessions. */
  const MaxConcurrentSessions: nat := 5

  // ---------------------------------------------------------------------
  // Start-session guard

  /** What `handleStartSession` does before any request is sent. */
  datatype GuardResult =
    | Proceed(name: string, room: string)  // POST with these fields
    | MissingFields                        // "Please fill in all fields"
    | TooManySessions                      // "Maximum of 5 concurrent sessions"
    | RoomTaken(conflict: Session)         // the room already has an active session

  /** `activeSessions.find(session => session.room_number === room)`. */
  function FindRoom(active: seq<Session>, room: string): (r: Option<Session>)
    ensures r.None? <==> forall i :: 0 <= i < |active| ==> active[i].room != room
    ensures r.Some? ==> exists i :: 0 <= i < |active| && active[i] == r.value
                          && r.value.room == room
                          && forall j :: 0 <= j < i ==> active[j].room != room
  {
    if active == [] then None
    else if active[0].room == room then Some(active[0])
    else
      var rest := FindRoom(active[1..], room);
      assert forall i :: 1 <= i < |active| ==> active[i] == active[1..][i - 1];
      assert rest.Some? ==> exists i :: 1 <= i < |active| && active[i] == rest.value
                              && forall j :: 0 <= j < i ==> active[j].room != room by {
        if rest.Some? {
          var k :| 0 <= k < |active[1..]| && active[1..][k] == rest.value
                   && forall j :: 0 <= j < k ==> active[1..][j].room != room;
          assert active[k + 1] == rest.value;
        }
      }
      rest
  }

  /**
   * The guard: the trimmed name and the room must be non-empty, fewer than
   * `maxActive` sessions may be active, and none of them in this room.
   */
  function StartGuard(nameInput: string, room: string, active: seq<Session>, maxActive: nat): (r: GuardResult)
    ensures r.MissingFields? <==> Trim(nameInput) == "" || room == ""
    ensures r.TooManySessions? <==> Trim(nameInput) != "" && room != "" && |active| >= maxActive
    ensures r.RoomTaken? ==> r.conflict in active && r.conflict.room == room
    ensures r.Proceed? <==> && Trim(nameInput) != "" && room != "" && |active| < maxActive
                            && forall i :: 0 <= i < |active| ==> active[i].room != room
    ensures r.Proceed? ==> r.name == Trim(nameInput) && r.room == room
  {
    var name := Trim(nameInput);
    if name == "" || room == "" then MissingFields
    else if |active| >= maxActive then TooManySessions
    else match FindRoom(active, room)
      case Some(s) => RoomTaken(s)
      case None => Proceed(name, room)
  }

  /** Every session in the list has a distinct room. */
  predicate RoomsDistinct(active: seq<Session>) {
    forall i, j :: 0 <= i < j < |active| ==> active[i].room != active[j].room
  }

  /**
   * When the guard lets a request through, the session it starts keeps the
   * client's view within the bound and with distinct rooms.
   */
  lemma GuardKeepsBoundAndRooms(nameInput: string, room: string, active: seq<Session>, maxActive: nat, started: Session)
    requires RoomsDistinct(active)
    requires StartGuard(nameInput, room, active, maxActive).Proceed?
    requires started.room == room
    ensures |active + [started]| <= maxActive
    ensures RoomsDistinct(active + [started])
  {
    var after := active + [started];
    forall i, j | 0 <= i < j < |after| ensures after[i].room != after[j].room {
      if j == |active| {
        assert after[i] == active[i];
      }
    }
  }

  /** The three refusals, in order: each is reported only when the earlier checks passed. */
  lemma GuardOrder(nameInput: string, room: string, active: seq<Session>, maxActive: nat)
    ensures Trim(nameInput) == "" ==> StartGuard(nameInput, room, active, maxActive) == MissingFields
    ensures StartGuard(nameInput, room, active, maxActive).RoomTaken?
            ==> Trim(nameInput) != "" && room != "" && |active| < maxActive
  {
  }

  /** A name made only of white space counts as missing. */
  lemma BlankNameMissing(nameInput: string, room: string, active: seq<Session>, maxActive: nat)
    requires forall i :: 0 <= i < |nameInput| ==> IsWhitespace(nameInput[i])
    ensures StartGuard(nameInput, room, active, maxActive) == MissingFields
  {
    TrimEmptyIffBlank(nameInput);
  }

  // ---------------------------------------------------------------------
  // escapeHtml

  /** The five characters `escapeHtml` rewrites. */
  predicate IsHtmlSpecial(c: char) {
    c == '&' || c == '<' || c == '>' || c == '"' || c == '\''
  }

  /** The replacement of one character. */
  function Entity(c: char): string {
    match c
    case '&' => "&amp;"
    case '<' => "&lt;"
    case '>' => "&gt;"
    case '"' => "&quot;"
    case '\'' => "&#039;"
    case _ => [c]
  }

  /** `escapeHtml(text)`: every special character replaced by its entity. */
  function EscapeHtml(text: string): (r: string)
    ensures |r| >= |text|
    ensures forall i :: 0 <= i < |r| ==> r[i] != '<' && r[i] != '>' && r[i] != '"' && r[i] != '\''
  {
    if text == [] then []
    else
      var rest := EscapeHtml(text[1..]);
      assert forall i :: |Entity(text[0])| <= i < |Entity(text[0]) + rest|
               ==> (Entity(text[0]) + rest)[i] == rest[i - |Entity(text[0])|];
      Entity(text[0]) + rest
  }

  /** Text without special characters is left exactly as it is. */
  lemma {:induction false} EscapePlainUnchanged(text: string)
    requires forall i :: 0 <= i < |text| ==> !IsHtmlSpecial(text[i])
    ensures EscapeHtml(text) == text
  {
    if text != [] {
      EscapePlainUnchanged(text[1..]);
      assert [text[0]] + text[1..] == text;
    }
  }

  /** Decodes the five entities `escapeHtml` produces; any other character is kept. */
  function UnescapeHtml(s: string): string
    decreases |s|
  {
    if s == [] then []
    else if s[0] != '&' then [s[0]] + UnescapeHtml(s[1..])
    else if |s| >= 5 && s[..5] == "&amp;" then "&" + UnescapeHtml(s[5..])
    else if |s| >= 4 && s[..4] == "&lt;" then "<" + UnescapeHtml(s[4..])
    else if |s| >= 4 && s[..4] == "&gt;" then ">" + UnescapeHtml(s[4..])
    else if |s| >= 6 && s[..6] == "&quot;" then "\"" + UnescapeHtml(s[6..])
    else if |s| >= 6 && s[..6] == "&#039;" then "'" + UnescapeHtml(s[6..])
    else "&" + UnescapeHtml(s[1..])
  }

  /** Decoding one character's replacement gives back the character. */
  lemma UnescapeEntity(c: char, rest: string)
    ensures UnescapeHtml(Entity(c) + rest) == [c] + UnescapeHtml(rest)
  {
    if IsHtmlSpecial(c) {
      UnescapeSpecial(c, rest);
    } else {
      assert (Entity(c) + rest)[1..] == rest;
    }
  }

  /** The entity of a special character is recognised by the decoder's first matching test. */
  lemma UnescapeSpecial(c: char, rest: string)
    requires IsHtmlSpecial(c)
    ensures UnescapeHtml(Entity(c) + rest) == [c] + UnescapeHtml(rest)
  {
    var s := Entity(c) + rest;
    if c == '&' {
      assert s[..5] == "&amp;" && s[5..] == rest;
    } else if c == '<' {
      assert |s| >= 5 ==> s[..5] != "&amp;" by { assert s[1] == 'l'; }
      assert s[..4] == "&lt;" && s[4..] == rest;
    } else if c == '>' {
      assert |s| >= 5 ==> s[..5] != "&amp;" by { assert s[1] == 'g'; }
      assert s[..4] != "&lt;" by { assert s[1] == 'g'; }
      assert s[..4] == "&gt;" && s[4..] == rest;
    } else if c == '"' {
      assert s[..5] != "&amp;" && s[..4] != "&lt;" && s[..4] != "&gt;" by { assert s[1] == 'q'; }
      assert s[..6] == "&quot;" && s[6..] == rest;
    } else {
      assert s[..5] != "&amp;" && s[..4] != "&lt;" && s[..4] != "&gt;" && s[..6] != "&quot;" by {
        assert s[1] == '#';
      }
      assert s[..6] == "&#039;" && s[6..] == rest;
    }
  }

  /** Escaping loses nothing: decoding the output gives back the input. */
  lemma {:induction false} EscapeHtmlRoundTrip(text: string)
    ensures UnescapeHtml(EscapeHtml(text)) == text
  {
    if text != [] {
      UnescapeEntity(text[0], EscapeHtml(text[1..]));
      EscapeHtmlRoundTrip(text[1..]);
      assert [text[0]] + text[1..] == text;
    }
  }

  // ---------------------------------------------------------------------
  // getApiUrl

  /** `{key}`, the placeholder a parameter replaces. */
  function Placeholder(key: string): string {
    "{" + key + "}"
  }

  /** The URL after substituting `params` in order, first occurrence of each placeholder only. */
  function SubstituteAll(url: string, params: seq<(string, string)>): string
    decreases |params|
  {
    if params == [] then url
    else SubstituteAll(ReplaceFirst(url, Placeholder(params[0].0), params[0].1), params[1..])
  }

  /** `getApiUrl(endpoint, params)`, with the parameters given in `Object.entries` order. */
  method GetApiUrl(endpoint: string, params: seq<(string, string)>) returns (url: string)
    ensures url == SubstituteAll(endpoint, params)
    ensures params == [] ==> url == endpoint
  {
    url := endpoint;
    var i := 0;
    while i < |params|
      invariant 0 <= i <= |params|
      invariant SubstituteAll(url, params[i..]) == SubstituteAll(endpoint, params)
    {
      var (key, value) := params[i];
      assert params[i..][1..] == params[i + 1..];
      url := ReplaceFirst(url, Placeholder(key), value);
      i := i + 1;
    }
  }

  /** A string without '{' holds no placeholder. */
  lemma NoBraceNoPlaceholder(s: string, key: string)
    requires forall i :: 0 <= i < |s| ==> s[i] != '{'
    ensures !Contains(s, Placeholder(key))
  {
    var pat := Placeholder(key);
    forall k: nat ensures !OccursAt(s, pat, k) {
      if k + |pat| <= |s| {
        assert s[k..k + |pat|][0] == s[k] != pat[0];
      }
    }
  }

  /** An endpoint without '{' is returned unchanged whatever the parameters. */
  lemma {:induction false} NoBraceUnchanged(endpoint: string, params: seq<(string, string)>)
    requires forall i :: 0 <= i < |endpoint| ==> endpoint[i] != '{'
    ensures SubstituteAll(endpoint, params) == endpoint
  {
    if params != [] {
      NoBraceNoPlaceholder(endpoint, params[0].0);
      NoBraceUnchanged(endpoint, params[1..]);
    }
  }

  /** A single placeholder, with no '{' before it, is replaced by the value. */
  lemma SubstituteFirstPlaceholder(before: string, key: string, value: string, after: string)
    requires forall i :: 0 <= i < |before| ==> before[i] != '{'
    ensures SubstituteAll(before + Placeholder(key) + after, [(key, value)]) == before + value + after
  {
    var s := before + Placeholder(key) + after;
    var pat := Placeholder(key);
    assert OccursAt(s, pat, |before|) by {
      assert s[|before|..|before| + |pat|] == pat;
    }
    forall k: nat | k < |before| ensures !OccursAt(s, pat, k) {
      assert s[k] == before[k] != pat[0];
      if k + |pat| <= |s| {
        assert s[k..k + |pat|][0] == s[k];
      }
    }
    var k := IndexOf(s, pat).value;
    assert k == |before|;
    assert s[..k] == before && s[k + |pat|..] == after;
  }

  /** The end-session endpoint as configured, with an Express-style `:id`. */
  const EndSessionEndpointAsConfigured: string := "/api/faculty/sessions/:id/end"

  /** The end-session endpoint with the placeholder `getApiUrl` substitutes. */
  const EndSessionEndpoint: string := "/api/faculty/sessions/{id}/end"

  /** As configured, `getApiUrl(endSession, {id})` leaves the literal `:id` in the URL. */
  lemma EndSessionUrlNotSubstituted(sessionId: string)
    ensures SubstituteAll(EndSessionEndpointAsConfigured, [("id", sessionId)]) == EndSessionEndpointAsConfigured
  {
    NoBraceUnchanged(EndSessionEndpointAsConfigured, [("id", sessionId)]);
  }

  /** With a `{id}` placeholder the session id lands in the path. */
  lemma EndSessionUrlSubstituted(sessionId: string)
    ensures SubstituteAll(EndSessionEndpoint, [("id", sessionId)]) == "/api/faculty/sessions/" + sessionId + "/end"
  {
    var before, after := "/api/faculty/sessions/", "/end";
    assert EndSessionEndpoint == before + Placeholder("id") + after;
    forall i | 0 <= i < |before| ensures before[i] != '{' {
    }
    SubstituteFirstPlaceholder(before, "id", sessionId, after);
  }

  // ---------------------------------------------------------------------
  // Active sessions and the start button

  /** The response to the active-session request: failed, or a JSON body with optional fields. */
  datatype ActiveResponse =
    | RequestFailed
    | Body(session: Option<Session>, sessions: Option<seq<Session>>)

  /** The list `checkActiveSession` keeps for a response. */
  function NormalizeActive(response: ActiveResponse): (r: seq<Session>)
    ensures response.Body? && response.session.Some? ==> r == [response.session.value]
    ensures response.Body? && response.session.None? && response.sessions.Some? ==> r == response.sessions.value
    ensures response.RequestFailed? || (response.session.None? && response.sessions.None?) ==> r == []
  {
    match response
    case RequestFailed => []
    case Body(session, sessions) =>
      if session.Some? then [session.value]
      else if sessions.Some? then sessions.value
      else []
  }

  /** The start button is disabled exactly when the bound is reached. */
  function StartButtonDisabled(activeCount: nat): (r: bool)
    ensures activeCount == 0 ==> !r
    ensures r <==> activeCount > 0 && activeCount >= MaxConcurrentSessions
  {
    activeCount >= MaxConcurrentSessions
  }

  /** The dashboard's state: the global `activeSessions` and the start button. */
  class Dashboard {
    var activeSessions: seq<Session>
    var startDisabled: bool

    /** The start button reflects the list: disabled exactly when it is full. */
    predicate Valid()
      reads this
    {
      startDisabled == StartButtonDisabled(|activeSessions|)
    }

    constructor ()
      ensures Valid()
      ensures activeSessions == [] && !startDisabled
    {
      activeSessions := [];
      startDisabled := false;
    }

    /** `checkActiveSession`: replace the list from the response, then refresh the display. */
    method CheckActiveSession(response: ActiveResponse)
      modifies this
      ensures Valid()
      ensures activeSessions == NormalizeActive(response)
      ensures startDisabled <==> |activeSessions| >= MaxConcurrentSessions
    {
      match response {
        case RequestFailed =>
          activeSessions := [];
        case Body(session, sessions) =>
          if session.Some? {
            activeSessions := [session.value];
          } else if sessions.Some? {
            activeSessions := sessions.value;
          } else {
            activeSessions := [];
          }
      }
      UpdateActiveSessionsDisplay();
    }

    /** The start-button part of `updateActiveSessionsDisplay`. */
    method UpdateActiveSessionsDisplay()
      modifies this
      ensures Valid()
      ensures activeSessions == old(activeSessions)
      ensures startDisabled == StartButtonDisabled(|activeSessions|)
    {
      if |activeSessions| > 0 {
        if |activeSessions| >= MaxConcurrentSessions {
          startDisabled := true;
        } else {
          startDisabled := false;
        }
      } else {
        startDisabled := false;
      }
    }

    /** `handleStartSession`'s checks, against the sessions the dashboard holds. */
    function StartRequest(nameInput: string, room: string): (r: GuardResult)
      requires Valid()
      reads this
      ensures r.Proceed? ==> |activeSessions| < MaxConcurrentSessions
                             && forall i :: 0 <= i < |activeSessions| ==> activeSessions[i].room != room
      ensures Trim(nameInput) == "" ==> r == MissingFields
      ensures r.Proceed? ==> !startDisabled
    {
      StartGuard(nameInput, room, activeSessions, MaxConcurrentSessions)
    }
  }

  /**
   * Against the server's `{session}` answer the list holds at most one
   * session, so the five-session limit never disables the start button.
   */
  lemma ServerAnswerNeverDisables(sessions: seq<Session>)
    ensures |NormalizeActive(Body(MostRecentActive(sessions), None))| <= 1
    ensures !StartButtonDisabled(|NormalizeActive(Body(MostRecentActive(sessions), None))|)
  {
  }

  // ---------------------------------------------------------------------
  // Percentage band

  datatype PercentageClass = Poor | Good | Excellent {
    function Rank(): nat {
      match this
      case Poor => 0
      case Good => 1
      case Excellent => 2
    }
  }

  /** The CSS class of an attendance percentage. */
  function PercentageBand(percentage: real): (c: PercentageClass)
    ensures c == Excellent <==> percentage >= 75.0
    ensures c == Good <==> 60.0 <= percentage < 75.0
    ensures c == Poor <==> percentage < 60.0
  {
    if percentage >= 75.0 then Excellent
    else if percentage >= 60.0 then Good
    else Poor
  }

  /** A higher percentage never gets a worse band. */
  lemma BandMonotone(p: real, q: real)
    requires p <= q
    ensures PercentageBand(p).Rank() <= PercentageBand(q).Rank()
  {
  }
}
