/** The session and history handlers (`list_sessions`, `create_session`,
    `get_session`, `delete_session`, `add_session_message`) over the session
    list of the shared state.

    Each handler holds the state lock for its whole body, so each is one
    atomic step here. The fresh UUIDs and the clock reading are parameters:
    `id`/`entryId` stand for `Uuid::new_v4()`, `secs` for the seconds since
    the Unix epoch that `now_iso8601` reads. */
module Sessions {
  import opened Common
  import opened Models
  import opened AgentState
  import DateTime

  /** No two stored sessions share an id. */
  predicate UniqueIds(sessions: seq<Session>) {
    forall i, j :: 0 <= i < j < |sessions| ==> sessions[i].id != sessions[j].id
  }

  /** Some stored session has this id. */
  predicate HasId(sessions: seq<Session>, id: string) {
    exists k :: 0 <= k < |sessions| && sessions[k].id == id
  }

  /** `sessions.iter().position(|s| s.id == id)`, which is also where
      `iter().find` and `iter_mut().find` stop. */
  function FindSession(sessions: seq<Session>, id: string): (r: Option<nat>)
    ensures r.None? <==> !HasId(sessions, id)
    ensures r.Some? ==> r.value < |sessions| && sessions[r.value].id == id
    ensures r.Some? ==> forall j :: 0 <= j < r.value ==> sessions[j].id != id
    decreases |sessions|
  {
    if sessions == [] then None
    else if sessions[0].id == id then Some(0)
    else
      match FindSession(sessions[1..], id)
      case None =>
        assert forall k :: 1 <= k < |sessions| ==> sessions[k] == sessions[1..][k - 1];
        None
      case Some(i) => Some(i + 1)
  }

  /** `get_session`: the first session with this id, or NOT_FOUND. */
  function GetSession(sessions: seq<Session>, id: string): (r: Result<Session, StatusCode>)
    ensures r.Ok? <==> HasId(sessions, id)
    ensures r.Ok? ==> r.value.id == id
    ensures r.Ok? ==> exists k :: 0 <= k < |sessions| && r.value == sessions[k] &&
                                 forall j :: 0 <= j < k ==> sessions[j].id != id
    ensures r.Err? ==> r.error == HttpNotFound
  {
    match FindSession(sessions, id)
    case None => Err(HttpNotFound)
    case Some(i) => Ok(sessions[i])
  }

  function Summary(s: Session): SessionSummary {
    SessionSummary(s.id, s.title, s.createdAt, |s.messages|)
  }

  /** `list_sessions`: one summary per stored session, in storage order,
      with the message bodies replaced by their count. */
  function ListSessions(sessions: seq<Session>): (r: seq<SessionSummary>)
    ensures |r| == |sessions|
    ensures forall i :: 0 <= i < |r| ==>
              && r[i].id == sessions[i].id && r[i].title == sessions[i].title
              && r[i].createdAt == sessions[i].createdAt && r[i].messageCount == |sessions[i].messages|
  {
    seq(|sessions|, i requires 0 <= i < |sessions| => Summary(sessions[i]))
  }

  /** `Vec::remove(i)`: the elements before `i`, then those after it. */
  function RemoveAt<T>(xs: seq<T>, i: nat): (r: seq<T>)
    requires i < |xs|
    ensures |r| == |xs| - 1
    ensures forall k :: 0 <= k < i ==> r[k] == xs[k]
    ensures forall k :: i <= k < |r| ==> r[k] == xs[k + 1]
  {
    xs[..i] + xs[i + 1..]
  }

  /** The session list after pushing `entry` onto the messages of session `i`. */
  function AppendMessage(sessions: seq<Session>, i: nat, entry: HistoryEntry): (r: seq<Session>)
    requires i < |sessions|
    ensures |r| == |sessions|
    ensures r[i].messages == sessions[i].messages + [entry]
    ensures r[i].id == sessions[i].id && r[i].title == sessions[i].title && r[i].createdAt == sessions[i].createdAt
    ensures forall k :: 0 <= k < |sessions| && k != i ==> r[k] == sessions[k]
  {
    sessions[i := sessions[i].(messages := sessions[i].messages + [entry])]
  }

  // ---------------------------------------------------------------------
  // What each handler does to the session list
  // ---------------------------------------------------------------------

  /** A session whose id is not yet taken keeps the ids unique. */
  lemma AppendFreshKeepsUnique(sessions: seq<Session>, s: Session)
    requires UniqueIds(sessions) && FindSession(sessions, s.id).None?
    ensures UniqueIds(sessions + [s])
  {
  }

  /** After a create, the new session is found under its id and no other
      lookup changes. */
  lemma GetAfterCreate(sessions: seq<Session>, s: Session, id: string)
    requires FindSession(sessions, s.id).None?
    ensures GetSession(sessions + [s], s.id) == Ok(s)
    ensures id != s.id ==> GetSession(sessions + [s], id) == GetSession(sessions, id)
  {
    var grown := sessions + [s];
    assert grown[|sessions|] == s;
    assert forall k :: 0 <= k < |sessions| ==> grown[k] == sessions[k];
    if id != s.id {
      assert HasId(grown, id) <==> HasId(sessions, id);
      if HasId(sessions, id) {
        var k := FindSession(sessions, id).value;
        assert FindSession(grown, id) == Some(k);
      }
    }
  }

  /** The listing after a create is the old listing plus the new session. */
  lemma ListAfterCreate(sessions: seq<Session>, s: Session)
    ensures ListSessions(sessions + [s]) == ListSessions(sessions) + [Summary(s)]
  {
    var grown := sessions + [s];
    assert forall k :: 0 <= k < |sessions| ==> grown[k] == sessions[k];
    assert grown[|sessions|] == s;
  }

  /** Removing one session keeps the ids unique. */
  lemma RemoveKeepsUnique(sessions: seq<Session>, i: nat)
    requires UniqueIds(sessions) && i < |sessions|
    ensures UniqueIds(RemoveAt(sessions, i))
  {
    var r := RemoveAt(sessions, i);
    forall a, b | 0 <= a < b < |r|
      ensures r[a].id != r[b].id
    {
      var a' := if a < i then a else a + 1;
      var b' := if b < i then b else b + 1;
      assert r[a] == sessions[a'] && r[b] == sessions[b'] && a' < b';
    }
  }

  /** After removing the first session with an id, no session with that id
      is left when ids were unique; lookups of other ids find the same
      session as before, whether or not ids were unique. */
  lemma GetAfterRemove(sessions: seq<Session>, i: nat, id: string)
    requires FindSession(sessions, id) == Some(i)
    ensures UniqueIds(sessions) ==> GetSession(RemoveAt(sessions, i), id) == Err(HttpNotFound)
    ensures forall other :: other != id ==> GetSession(RemoveAt(sessions, i), other) == GetSession(sessions, other)
  {
    var r := RemoveAt(sessions, i);
    if UniqueIds(sessions) {
      forall k | 0 <= k < |r|
        ensures r[k].id != id
      {
        var k' := if k < i then k else k + 1;
        assert r[k] == sessions[k'] && k' != i;
      }
    }
    forall other | other != id
      ensures GetSession(r, other) == GetSession(sessions, other)
    {
      RemovePreservesOtherLookups(sessions, i, other);
    }
  }

  lemma RemovePreservesOtherLookups(sessions: seq<Session>, i: nat, other: string)
    requires i < |sessions| && sessions[i].id != other
    ensures GetSession(RemoveAt(sessions, i), other) == GetSession(sessions, other)
  {
    var r := RemoveAt(sessions, i);
    match FindSession(sessions, other)
    case None =>
      forall k | 0 <= k < |r|
        ensures r[k].id != other
      {
        var k' := if k < i then k else k + 1;
        assert r[k] == sessions[k'];
      }
    case Some(k) =>
      var k' := if k < i then k else k - 1;
      assert r[k'] == sessions[k];
      forall j | 0 <= j < k'
        ensures r[j].id != other
      {
        var j' := if j < i then j else j + 1;
        assert r[j] == sessions[j'] && j' < k;
      }
      assert FindSession(r, other) == Some(k');
  }

  /** The listing after a delete is the old listing with that entry removed. */
  lemma ListAfterRemove(sessions: seq<Session>, i: nat)
    requires i < |sessions|
    ensures ListSessions(RemoveAt(sessions, i)) == RemoveAt(ListSessions(sessions), i)
  {
  }

  /** Adding a message changes neither the ids nor the order of the
      sessions, so uniqueness and every lookup position survive it. */
  lemma AppendMessageKeepsIds(sessions: seq<Session>, i: nat, entry: HistoryEntry)
    requires i < |sessions|
    ensures forall k :: 0 <= k < |sessions| ==> AppendMessage(sessions, i, entry)[k].id == sessions[k].id
    ensures UniqueIds(sessions) ==> UniqueIds(AppendMessage(sessions, i, entry))
    ensures forall id :: FindSession(AppendMessage(sessions, i, entry), id) == FindSession(sessions, id)
  {
    var r := AppendMessage(sessions, i, entry);
    forall id
      ensures FindSession(r, id) == FindSession(sessions, id)
    {
      SameIdsSameFind(r, sessions, id);
    }
  }

  lemma {:induction false} SameIdsSameFind(a: seq<Session>, b: seq<Session>, id: string)
    requires |a| == |b| && forall k :: 0 <= k < |a| ==> a[k].id == b[k].id
    ensures FindSession(a, id) == FindSession(b, id)
  {
    match FindSession(b, id)
    case None =>
      assert !HasId(a, id);
    case Some(k) =>
      assert a[k].id == id;
      assert FindSession(a, id) == Some(k);
  }

  /** After a message is added to the session an id finds, that session
      ends with the new message and its count in the listing grows by one;
      every other session and summary is unchanged. */
  lemma GetAfterAppendMessage(sessions: seq<Session>, id: string, entry: HistoryEntry)
    requires FindSession(sessions, id).Some?
    ensures var i := FindSession(sessions, id).value;
            var r := AppendMessage(sessions, i, entry);
            && GetSession(r, id).Ok?
            && GetSession(r, id).value.messages == GetSession(sessions, id).value.messages + [entry]
            && GetSession(r, id).value.(messages := []) == GetSession(sessions, id).value.(messages := [])
            && ListSessions(r)[i].messageCount == ListSessions(sessions)[i].messageCount + 1
            && (forall k :: 0 <= k < |sessions| && k != i ==> r[k] == sessions[k])
  {
    var i := FindSession(sessions, id).value;
    AppendMessageKeepsIds(sessions, i, entry);
  }

  /** The listing and the lookup agree on which ids exist. */
  lemma ListAgreesWithGet(sessions: seq<Session>, id: string)
    ensures GetSession(sessions, id).Ok? <==>
            exists k :: 0 <= k < |ListSessions(sessions)| && ListSessions(sessions)[k].id == id
  {
    var list := ListSessions(sessions);
    assert forall k :: 0 <= k < |sessions| ==> list[k].id == sessions[k].id;
  }

  // ---------------------------------------------------------------------
  // The handlers on the shared state
  // ---------------------------------------------------------------------

  /** `create_session`: a new, empty session stamped with the current time
      becomes the current one and is appended to the list; answers 201 with
      the session. */
  method CreateSession(st: AppState, title: string, id: string, secs: u64) returns (status: StatusCode, session: Session)
    modifies st
    ensures status == HttpCreated
    ensures session == Session(id, title, DateTime.Iso8601(secs), [])
    ensures st.sessions == old(st.sessions) + [session]
    ensures st.currentSessionId == Some(id)
    ensures st.settings == old(st.settings) && st.agents == old(st.agents)
    ensures old(st.Valid()) && FindSession(old(st.sessions), id).None? ==> st.Valid()
  {
    ghost var before := st.sessions;
    session := Session(id, title, DateTime.Iso8601(secs), []);
    st.currentSessionId := Some(session.id);
    st.sessions := st.sessions + [session];
    status := HttpCreated;
    if old(st.Valid()) && FindSession(before, id).None? {
      AppendFreshKeepsUnique(before, session);
      assert st.sessions[|before|].id == id;
    }
  }

  /** `delete_session`: removes the first session with this id and, if it
      was the current one, clears the current session; NOT_FOUND changes
      nothing. */
  method DeleteSession(st: AppState, id: string) returns (r: Result<string, StatusCode>)
    modifies st
    ensures FindSession(old(st.sessions), id).None? ==>
              r == Err(HttpNotFound) && st.sessions == old(st.sessions) && st.currentSessionId == old(st.currentSessionId)
    ensures FindSession(old(st.sessions), id).Some? ==>
              && r == Ok(id)
              && st.sessions == RemoveAt(old(st.sessions), FindSession(old(st.sessions), id).value)
              && st.currentSessionId == (if old(st.currentSessionId) == Some(id) then None else old(st.currentSessionId))
    ensures st.settings == old(st.settings) && st.agents == old(st.agents)
    ensures old(st.Valid()) ==> st.Valid() && GetSession(st.sessions, id) == Err(HttpNotFound)
  {
    var idx := FindSession(st.sessions, id);
    match idx {
      case None =>
        r := Err(HttpNotFound);
      case Some(i) =>
        ghost var before := st.sessions;
        st.sessions := RemoveAt(st.sessions, i);
        if st.currentSessionId == Some(id) {
          st.currentSessionId := None;
        }
        r := Ok(id);
        GetAfterRemove(before, i, id);
        if old(st.Valid()) {
          RemoveKeepsUnique(before, i);
          if st.currentSessionId.Some? {
            var current := st.currentSessionId.value;
            var k := FindSession(before, current).value;
            RemovePreservesOtherLookups(before, i, current);
            assert GetSession(st.sessions, current).Ok?;
          }
        }
    }
  }

  /** `add_session_message`: pushes a history entry stamped with the
      current time onto the first session with this id; answers 201 with the
      entry, or NOT_FOUND and changes nothing. */
  method AddSessionMessage(st: AppState, id: string, role: string, content: string,
                           model: Option<string>, agent: Option<string>, entryId: string, secs: u64)
    returns (r: Result<(StatusCode, HistoryEntry), StatusCode>)
    modifies st
    ensures FindSession(old(st.sessions), id).None? ==>
              r == Err(HttpNotFound) && st.sessions == old(st.sessions)
    ensures FindSession(old(st.sessions), id).Some? ==>
              var entry := HistoryEntry(entryId, role, content, model, agent, DateTime.Iso8601(secs));
              r == Ok((HttpCreated, entry)) &&
              st.sessions == AppendMessage(old(st.sessions), FindSession(old(st.sessions), id).value, entry)
    ensures st.currentSessionId == old(st.currentSessionId)
    ensures st.settings == old(st.settings) && st.agents == old(st.agents)
    ensures old(st.Valid()) ==> st.Valid()
  {
    var idx := FindSession(st.sessions, id);
    match idx {
      case None =>
        r := Err(HttpNotFound);
      case Some(i) =>
        var entry := HistoryEntry(entryId, role, content, model, agent, DateTime.Iso8601(secs));
        ghost var before := st.sessions;
        st.sessions := AppendMessage(st.sessions, i, entry);
        r := Ok((HttpCreated, entry));
        AppendMessageKeepsIds(before, i, entry);
        if old(st.Valid()) && st.currentSessionId.Some? {
          var k :| 0 <= k < |before| && before[k].id == st.currentSessionId.value;
          assert st.sessions[k].id == before[k].id;
        }
    }
  }
}
