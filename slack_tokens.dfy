/**
 * `InMemorySlackTokenStorage`: Slack installations keyed by team id. Only the
 * fields of an installation that the store reads or writes are modelled.
 */
module SlackTokens {
  import opened Wrappers

  datatype Installation = Installation(
    teamId: Option<string>,
    botToken: Option<string>,
    botId: Option<string>,
    botUserId: Option<string>,
    userToken: Option<string>)

  /** Python truthiness of an optional string: present and non-empty. */
  predicate Truthy(s: Option<string>)
  {
    s.Some? && s.value != ""
  }

  /** The map after `save`: stored under its team id when that is truthy, otherwise unchanged. */
  function Saved(installations: map<string, Installation>, installation: Installation): (r: map<string, Installation>)
    ensures Truthy(installation.teamId) ==> installation.teamId.value in r && r[installation.teamId.value] == installation
    ensures forall t | !Truthy(installation.teamId) || t != installation.teamId.value ::
      (t in r <==> t in installations) && (t in r ==> r[t] == installations[t])
  {
    if Truthy(installation.teamId) then installations[installation.teamId.value := installation] else installations
  }

  /** The installation `save_installation` builds: bot id and bot user id both set to the given user id. */
  function NewInstallation(teamId: string, botToken: string, botUserId: string, accessToken: Option<string>): (r: Installation)
    ensures r.teamId == Some(teamId) && r.botToken == Some(botToken)
    ensures r.botId == Some(botUserId) && r.botUserId == Some(botUserId)
    ensures r.userToken.Some? <==> Truthy(accessToken)
    ensures r.userToken.Some? ==> r.userToken == accessToken
  {
    Installation(Some(teamId), Some(botToken), Some(botUserId), Some(botUserId),
                 if Truthy(accessToken) then accessToken else None)
  }

  /** `installations.get(team_id)`, then one field of it, or None when the team is absent. */
  function BotTokenOf(installations: map<string, Installation>, teamId: string): Option<string>
  {
    if teamId in installations then installations[teamId].botToken else None
  }

  function BotUserIdOf(installations: map<string, Installation>, teamId: string): Option<string>
  {
    if teamId in installations then installations[teamId].botUserId else None
  }

  function AccessTokenOf(installations: map<string, Installation>, teamId: string): Option<string>
  {
    if teamId in installations then installations[teamId].userToken else None
  }

  /**
   * After `save_installation(t, b, u, a)` with a non-empty `t`, the getters
   * give back `b`, `u`, and `a` when it is truthy (None otherwise). With an
   * empty `t` nothing is stored.
   */
  lemma SaveInstallationThenGet(installations: map<string, Installation>, teamId: string, botToken: string,
                                botUserId: string, accessToken: Option<string>)
    ensures var after := Saved(installations, NewInstallation(teamId, botToken, botUserId, accessToken));
      && (teamId != "" ==> BotTokenOf(after, teamId) == Some(botToken))
      && (teamId != "" ==> BotUserIdOf(after, teamId) == Some(botUserId))
      && (teamId != "" ==> AccessTokenOf(after, teamId) == if Truthy(accessToken) then accessToken else None)
      && (teamId == "" ==> after == installations)
  {
  }

  /** The getters return None for a team that is not stored. */
  lemma GettersOfAbsentTeam(installations: map<string, Installation>, teamId: string)
    requires teamId !in installations
    ensures BotTokenOf(installations, teamId).None?
    ensures BotUserIdOf(installations, teamId).None?
    ensures AccessTokenOf(installations, teamId).None?
  {
  }

  class InMemorySlackTokenStorage {
    var installations: map<string, Installation>

    /** Every entry is stored under its own, non-empty, team id. */
    ghost predicate Valid()
      reads this
    {
      forall t | t in installations :: t != "" && installations[t].teamId == Some(t)
    }

    constructor ()
      ensures Valid() && installations == map[]
    {
      installations := map[];
    }

    method Save(installation: Installation)
      requires Valid()
      modifies this
      ensures Valid()
      ensures installations == Saved(old(installations), installation)
    {
      if Truthy(installation.teamId) {
        installations := installations[installation.teamId.value := installation];
      }
    }

    /** The entry for `team_id`; None when it is absent or no truthy team id is given. */
    method FindInstallation(teamId: Option<string>) returns (r: Option<Installation>)
      requires Valid()
      ensures Truthy(teamId) && teamId.value in installations ==> r == Some(installations[teamId.value])
      ensures !(Truthy(teamId) && teamId.value in installations) ==> r.None?
      ensures r.Some? ==> r.value.teamId == teamId
    {
      if Truthy(teamId) && teamId.value in installations {
        r := Some(installations[teamId.value]);
      } else {
        r := None;
      }
    }

    /** `delete_bot`: removes the given team's entry when a truthy team id is given. */
    method DeleteBot(teamId: Option<string>)
      requires Valid()
      modifies this
      ensures Valid()
      ensures installations == if Truthy(teamId) then old(installations) - {teamId.value} else old(installations)
    {
      if Truthy(teamId) {
        installations := installations - {teamId.value};
      }
    }

    /** `delete_installation`: the same rule as `delete_bot`. */
    method DeleteInstallation(teamId: Option<string>)
      requires Valid()
      modifies this
      ensures Valid()
      ensures installations == if Truthy(teamId) then old(installations) - {teamId.value} else old(installations)
    {
      if Truthy(teamId) {
        installations := installations - {teamId.value};
      }
    }

    method SaveInstallation(teamId: string, botToken: string, botUserId: string, accessToken: Option<string>)
      requires Valid()
      modifies this
      ensures Valid()
      ensures installations == Saved(old(installations), NewInstallation(teamId, botToken, botUserId, accessToken))
    {
      var installation := Installation(Some(teamId), Some(botToken), Some(botUserId), Some(botUserId), None);
      if Truthy(accessToken) {
        installation := installation.(userToken := accessToken);
      }
      Save(installation);
    }

    method GetBotToken(teamId: string) returns (r: Option<string>)
      ensures r == BotTokenOf(installations, teamId)
    {
      r := if teamId in installations then installations[teamId].botToken else None;
    }

    method GetBotUserId(teamId: string) returns (r: Option<string>)
      ensures r == BotUserIdOf(installations, teamId)
    {
      r := if teamId in installations then installations[teamId].botUserId else None;
    }

    method GetAccessToken(teamId: string) returns (r: Option<string>)
      ensures r == AccessTokenOf(installations, teamId)
    {
      r := if teamId in installations then installations[teamId].userToken else None;
    }

    /** `remove_installation`: removes the team's entry, whatever the team id. */
    method RemoveInstallation(teamId: string)
      requires Valid()
      modifies this
      ensures Valid()
      ensures installations == old(installations) - {teamId}
      ensures forall t | t != teamId :: (t in installations <==> t in old(installations))
    {
      installations := installations - {teamId};
    }
  }
}
