/**
 * The roster side of both player endpoints: the record the roster provider returns, the
 * case-insensitive name test they share, the first-match resolution loop of the compare
 * handler and the substring search of the player lookup endpoint.
 */
module Players {
  import opened Base
  import Text

  /**
   * One roster record, as far as the handlers read it. A string field that is missing or
   * null is None; `active` is true only for the JSON value true.
   */
  datatype Player = Player(
    id: string,
    fullName: Option<string>,
    team: Option<string>,
    position: Option<string>,
    active: bool)

  /** JavaScript truthiness of an optional string: present and not empty. */
  predicate Truthy(v: Option<string>)
  {
    v.Some? && v.value != []
  }

  /** The shared name test: a full name is set and, lower-cased, contains the lower-cased query. */
  predicate NameMatches(p: Player, query: string)
    ensures NameMatches(p, query) ==> Truthy(p.fullName)
    ensures Truthy(p.fullName) && query == [] ==> NameMatches(p, query)
  {
    Truthy(p.fullName) && Text.Contains(Text.Lower(p.fullName.value), Text.Lower(query))
  }

  /** What the compare handler accepts for a query: the name matches, a team is set, active. */
  predicate Eligible(p: Player, query: string)
    ensures Eligible(p, query) ==> NameMatches(p, query) && p.team.Some? && p.active
  {
    NameMatches(p, query) && Truthy(p.team) && p.active
  }

  /** `find` over the roster: the index of the first eligible record, if there is one. */
  function FirstEligible(roster: seq<Player>, query: string): (r: Option<nat>)
    ensures r.Some? ==> r.value < |roster| && Eligible(roster[r.value], query)
    ensures r.Some? ==> forall j :: 0 <= j < r.value ==> !Eligible(roster[j], query)
    ensures r.None? ==> forall j :: 0 <= j < |roster| ==> !Eligible(roster[j], query)
  {
    if roster == [] then None
    else if Eligible(roster[0], query) then Some(0)
    else
      match FirstEligible(roster[1..], query)
      case None => None
      case Some(i) => Some(i + 1)
  }

  /** The empty query, left by a trailing comma, matches every record whose full name is set. */
  lemma EmptyQueryMatchesAnyName(p: Player)
    ensures NameMatches(p, "") <==> Truthy(p.fullName)
  {
    if p.fullName.Some? {
      Text.EmptyPatternAlwaysContained(Text.Lower(p.fullName.value));
    }
  }

  /** The records the resolution loop collects: the first match of each query that has one. */
  function MatchedPlayers(roster: seq<Player>, queries: seq<string>): (found: seq<Player>)
    ensures |found| <= |queries|
  {
    if queries == [] then []
    else
      var earlier := MatchedPlayers(roster, queries[..|queries| - 1]);
      match FirstEligible(roster, queries[|queries| - 1])
      case Some(i) => earlier + [roster[i]]
      case None => earlier
  }

  /** Every query is resolved exactly when the loop collected one record per query. */
  lemma {:induction false} MatchedPlayersCount(roster: seq<Player>, queries: seq<string>)
    ensures |MatchedPlayers(roster, queries)| == |queries|
            <==> forall k :: 0 <= k < |queries| ==> FirstEligible(roster, queries[k]).Some?
  {
    if queries != [] {
      var n := |queries|;
      var init := queries[..n - 1];
      MatchedPlayersCount(roster, init);
      var last := FirstEligible(roster, queries[n - 1]);
      ResolvedSplit(roster, queries, init);
      assert |MatchedPlayers(roster, queries)|
          == |MatchedPlayers(roster, init)| + (if last.Some? then 1 else 0);
    }
  }

  /** All queries resolve exactly when all but the last do and the last does too. */
  lemma ResolvedSplit(roster: seq<Player>, queries: seq<string>, init: seq<string>)
    requires queries != [] && init == queries[..|queries| - 1]
    ensures (forall k :: 0 <= k < |queries| ==> FirstEligible(roster, queries[k]).Some?)
        <==> (forall k :: 0 <= k < |init| ==> FirstEligible(roster, init[k]).Some?)
             && FirstEligible(roster, queries[|queries| - 1]).Some?
  {
    assert forall k :: 0 <= k < |init| ==> init[k] == queries[k];
  }

  /** When every query is resolved, the k-th record collected is the first eligible match of the k-th query. */
  lemma {:induction false} MatchedPlayersAt(roster: seq<Player>, queries: seq<string>)
    requires forall k :: 0 <= k < |queries| ==> FirstEligible(roster, queries[k]).Some?
    ensures |MatchedPlayers(roster, queries)| == |queries|
    ensures forall k :: 0 <= k < |queries| ==>
              MatchedPlayers(roster, queries)[k] == roster[FirstEligible(roster, queries[k]).value]
  {
    MatchedPlayersCount(roster, queries);
    if queries != [] {
      var n := |queries|;
      var init := queries[..n - 1];
      assert forall k :: 0 <= k < n - 1 ==> init[k] == queries[k];
      MatchedPlayersAt(roster, init);
      var i := FirstEligible(roster, queries[n - 1]).value;
      var earlier := MatchedPlayers(roster, init);
      var found := MatchedPlayers(roster, queries);
      assert found == earlier + [roster[i]];
      forall k | 0 <= k < n
        ensures found[k] == roster[FirstEligible(roster, queries[k]).value]
      {
        if k < n - 1 {
          assert found[k] == earlier[k] && init[k] == queries[k];
        }
      }
    }
  }

  /**
   * Every query is resolved exactly when the loop collected one record per query, and then
   * the k-th record is the first eligible match of the k-th query.
   */
  lemma MatchedPlayersComplete(roster: seq<Player>, queries: seq<string>)
    ensures |MatchedPlayers(roster, queries)| == |queries|
            <==> forall k :: 0 <= k < |queries| ==> FirstEligible(roster, queries[k]).Some?
    ensures |MatchedPlayers(roster, queries)| == |queries| ==>
              forall k :: 0 <= k < |queries| ==>
                MatchedPlayers(roster, queries)[k] == roster[FirstEligible(roster, queries[k]).value]
  {
    MatchedPlayersCount(roster, queries);
    if |MatchedPlayers(roster, queries)| == |queries| {
      MatchedPlayersAt(roster, queries);
    }
  }

  /** When every query is resolved, each record collected is eligible for its query. */
  lemma MatchedPlayersEligible(roster: seq<Player>, queries: seq<string>)
    requires |MatchedPlayers(roster, queries)| == |queries|
    ensures forall k :: 0 <= k < |queries| ==> Eligible(MatchedPlayers(roster, queries)[k], queries[k])
  {
    MatchedPlayersComplete(roster, queries);
  }

  /** A record the compare handler resolves to is one the lookup endpoint also lists. */
  lemma {:induction false} ResolvedIsAmongSearchResults(roster: seq<Player>, query: string)
    requires FirstEligible(roster, query).Some?
    ensures roster[FirstEligible(roster, query).value] in SearchByName(roster, query)
  {
    SearchByNameMembers(roster, query);
  }

  /**
   * The resolution loop of the compare handler: one `find` per query, in query order,
   * pushing each record found.
   */
  method ResolvePlayers(roster: seq<Player>, queries: seq<string>) returns (found: seq<Player>)
    ensures found == MatchedPlayers(roster, queries)
    ensures |found| == |queries| <==> forall k :: 0 <= k < |queries| ==> FirstEligible(roster, queries[k]).Some?
    ensures |found| == |queries| ==> forall k :: 0 <= k < |queries| ==> Eligible(found[k], queries[k])
  {
    found := [];
    var i := 0;
    while i < |queries|
      invariant 0 <= i <= |queries|
      invariant found == MatchedPlayers(roster, queries[..i])
    {
      var matched := FirstEligible(roster, queries[i]);
      if matched.Some? {
        found := found + [roster[matched.value]];
      }
      assert queries[..i + 1][..i] == queries[..i];
      i := i + 1;
    }
    assert queries[..|queries|] == queries;
    MatchedPlayersComplete(roster, queries);
  }

  /** The `filter` of the lookup endpoint: every record whose name matches, in roster order. */
  function SearchByName(roster: seq<Player>, name: string): (r: seq<Player>)
    ensures |r| <= |roster|
    ensures forall k :: 0 <= k < |r| ==> NameMatches(r[k], name)
  {
    if roster == [] then []
    else (if NameMatches(roster[0], name) then [roster[0]] else []) + SearchByName(roster[1..], name)
  }

  /** The search keeps exactly the matching records: nothing matching is dropped. */
  lemma {:induction false} SearchByNameMembers(roster: seq<Player>, name: string)
    ensures forall p :: p in SearchByName(roster, name) <==> p in roster && NameMatches(p, name)
  {
    if roster != [] {
      SearchByNameMembers(roster[1..], name);
      assert roster == [roster[0]] + roster[1..];
    }
  }

  /** The search keeps roster order: searching two stretches of the roster concatenates their results. */
  lemma {:induction false} SearchByNameAppend(a: seq<Player>, b: seq<Player>, name: string)
    ensures SearchByName(a + b, name) == SearchByName(a, name) + SearchByName(b, name)
  {
    if a != [] {
      assert (a + b)[1..] == a[1..] + b;
      SearchByNameAppend(a[1..], b, name);
    } else {
      assert a + b == b;
    }
  }

  /** Searching a single record lists it exactly when its name matches. */
  lemma SearchByNameSingle(p: Player, name: string)
    ensures SearchByName([p], name) == if NameMatches(p, name) then [p] else []
  {
  }

  /**
   * The player lookup endpoint: the matching records, a 404 when there are none, and a 500
   * when the roster could not be fetched (None).
   */
  function LookupPlayer(roster: Option<seq<Player>>, name: string): (r: Reply<seq<Player>>)
    ensures roster.None? ==> r == Error(500, "Failed to fetch player data")
    ensures roster.Some? ==> r.Ok? || r == Error(404, "Player not found")
    ensures r.Ok? ==> roster.Some? && r.body == SearchByName(roster.value, name)
    ensures roster.Some? && r.Ok? ==> |r.body| > 0 && forall k :: 0 <= k < |r.body| ==> NameMatches(r.body[k], name)
  {
    match roster
    case None => Error(500, "Failed to fetch player data")
    case Some(players) =>
      var matching := SearchByName(players, name);
      if |matching| > 0 then Ok(matching) else Error(404, "Player not found")
  }

  /** The lookup answers 404 exactly when no roster record's name matches. */
  lemma LookupNotFoundIff(players: seq<Player>, name: string)
    ensures LookupPlayer(Some(players), name) == Error(404, "Player not found")
            <==> forall k :: 0 <= k < |players| ==> !NameMatches(players[k], name)
  {
    SearchByNameMembers(players, name);
    var matching := SearchByName(players, name);
    if |matching| > 0 {
      assert matching[0] in players;
    }
  }
}
