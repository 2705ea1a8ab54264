/** The session creation form (`CreateSessionForm`): the user ticks players
    on and off, and a session is created for the ticked players once at least
    two are ticked. The stored session list, the fresh id, today's date and the
    navigation target are values here rather than browser storage, a uuid
    generator, the clock and the router. */
module CreateSessionForm {
  import RecordHand

  datatype Option<T> = None | Some(value: T)

  /** A stored session: its id, the date it was created, the players taking
      part and the hands recorded so far. */
  datatype Session = Session(id: string, date: string, players: seq<string>, hands: seq<RecordHand.Hand>)

  /** The fewest players a session can be created for. */
  const MinPlayers := 2

  /** `prev.filter(name => name !== x)`: every name but `x`, in order. */
  function Without(s: seq<string>, x: string): (r: seq<string>)
    ensures forall y :: y in r <==> y in s && y != x
    ensures multiset(r) == multiset(s)[x := 0]
  {
    if s == [] then []
    else
      assert s == [s[0]] + s[1..];
      if s[0] == x then Without(s[1..], x) else [s[0]] + Without(s[1..], x)
  }

  /** `handlePlayerToggle(x)`: a ticked name is unticked (every occurrence of
      it is removed) and an unticked name is appended at the end. */
  function Toggle(s: seq<string>, x: string): (r: seq<string>)
    ensures x in r <==> x !in s
    ensures forall y :: y != x ==> (y in r <==> y in s)
    ensures x !in s ==> r == s + [x]
    ensures x in s ==> multiset(r) == multiset(s)[x := 0]
  {
    if x in s then Without(s, x) else s + [x]
  }

  /** Filtering distributes over concatenation, so the names that remain keep
      their order. */
  lemma {:induction false} WithoutConcat(s: seq<string>, t: seq<string>, x: string)
    ensures Without(s + t, x) == Without(s, x) + Without(t, x)
  {
    if s == [] {
      assert s + t == t;
    } else {
      assert (s + t)[0] == s[0] && (s + t)[1..] == s[1..] + t;
      WithoutConcat(s[1..], t, x);
    }
  }

  /** Filtering out a name that does not occur changes nothing. */
  lemma {:induction false} WithoutAbsent(s: seq<string>, x: string)
    requires x !in s
    ensures Without(s, x) == s
  {
    if s != [] {
      assert s[0] in s;
      assert x !in s[1..];
      WithoutAbsent(s[1..], x);
    }
  }

  /** Ticking an unticked name and unticking it again restores the
      selection. */
  lemma ToggleTwice(s: seq<string>, x: string)
    requires x !in s
    ensures Toggle(Toggle(s, x), x) == s
  {
    WithoutConcat(s, [x], x);
    WithoutAbsent(s, x);
    assert Without([x], x) == [];
  }

  /** No name occurs twice. */
  predicate NoDuplicates(s: seq<string>)
  {
    forall i, j :: 0 <= i < j < |s| ==> s[i] != s[j]
  }

  lemma {:induction false} WithoutNoDuplicates(s: seq<string>, x: string)
    requires NoDuplicates(s)
    ensures NoDuplicates(Without(s, x))
  {
    if s != [] {
      assert forall i :: 0 <= i < |s[1..]| ==> s[1..][i] == s[i + 1];
      WithoutNoDuplicates(s[1..], x);
      assert s[0] !in s[1..];
    }
  }

  /** A selection without duplicates stays without duplicates. */
  lemma ToggleNoDuplicates(s: seq<string>, x: string)
    requires NoDuplicates(s)
    ensures NoDuplicates(Toggle(s, x))
  {
    if x in s {
      WithoutNoDuplicates(s, x);
    }
  }

  /** The stored sessions after `handleCreateSession`: with at least
      `MinPlayers` ticked, a session for exactly the ticked players, with no
      hands, is appended after the existing ones; otherwise nothing changes. */
  function CreatedSessions(existing: seq<Session>, selected: seq<string>, id: string, date: string)
    : (r: seq<Session>)
    ensures |selected| < MinPlayers ==> r == existing
    ensures |selected| >= MinPlayers ==>
              && |r| == |existing| + 1 && r[..|existing|] == existing
              && r[|existing|].id == id && r[|existing|].date == date
              && r[|existing|].players == selected && r[|existing|].hands == []
  {
    if |selected| >= MinPlayers then existing + [Session(id, date, selected, [])] else existing
  }

  /** The route the form navigates to for a new session. */
  function SessionRoute(id: string): string
  {
    "/session/" + id
  }

  class SessionForm {
    /** The players that can be ticked. */
    const allPlayers: seq<string>
    var selected: seq<string>
    /** The sessions in storage. */
    var stored: seq<Session>

    constructor (allPlayers: seq<string>, stored: seq<Session>)
      ensures this.allPlayers == allPlayers && this.stored == stored && selected == []
    {
      this.allPlayers := allPlayers;
      this.stored := stored;
      selected := [];
    }

    /** `handlePlayerToggle(name)` */
    method TogglePlayer(name: string)
      modifies this`selected
      ensures selected == Toggle(old(selected), name)
    {
      selected := Toggle(selected, name);
    }

    /** The create button is enabled: `disabled={selectedPlayers.length < 2}`. */
    function CreateEnabled(): bool
      reads this
    {
      |selected| >= MinPlayers
    }

    /** `handleCreateSession`, with the new id and today's date passed in;
        returns the route navigated to, if any. */
    method CreateSession(id: string, date: string) returns (navigateTo: Option<string>)
      modifies this`stored
      ensures stored == CreatedSessions(old(stored), selected, id, date)
      ensures navigateTo == if old(CreateEnabled()) then Some(SessionRoute(id)) else None
    {
      if |selected| >= MinPlayers {
        var newSession := Session(id, date, selected, []);
        stored := stored + [newSession];
        navigateTo := Some(SessionRoute(newSession.id));
      } else {
        navigateTo := None;
      }
    }
  }
}
