/** The sender profiles of a Slack thread: embedded in its messages, or fetched, at most once each. */
module SenderProfiles {
  import opened Wrappers

  /** A sender as a message names it; any part may be missing. */
  datatype Sender = Sender(bot: Option<string>, botProfile: Option<string>, user: Option<string>, userProfile: Option<string>)

  datatype Details = Bot(profile: string) | User(profile: string)

  /** What Slack answers for an id: a profile, that there is none (a warning), or another error. */
  datatype Answer = Found(profile: string) | NotFound | Failed(error: string)

  /** Slack, answering the same for the same id. */
  datatype Slack = Slack(user: string -> Answer, bot: string -> Answer)

  /** What one message contributes, the first arm that fits. */
  datatype Part = Embedded(id: string, details: Details) | ListedBot(id: string) | ListedUser(id: string) | Nothing

  function PartOf(s: Sender): Part {
    if s.bot.Some? && s.botProfile.Some? then Embedded(s.bot.value, Bot(s.botProfile.value))
    else if s.bot.Some? then ListedBot(s.bot.value)
    else if s.user.Some? && s.userProfile.Some? then Embedded(s.user.value, User(s.userProfile.value))
    else if s.user.Some? then ListedUser(s.user.value)
    else Nothing
  }

  /** A bot counts before a user, and a profile in the message before asking for one. */
  lemma PartsAre(s: Sender, id: string, profile: string)
    ensures PartOf(s) == Embedded(id, Bot(profile)) <==> s.bot == Some(id) && s.botProfile == Some(profile)
    ensures PartOf(s) == ListedBot(id) <==> s.bot == Some(id) && s.botProfile == None
    ensures PartOf(s) == Embedded(id, User(profile)) <==> s.bot == None && s.user == Some(id) && s.userProfile == Some(profile)
    ensures PartOf(s) == ListedUser(id) <==> s.bot == None && s.user == Some(id) && s.userProfile == None
    ensures PartOf(s) == Nothing <==> s.bot == None && s.user == None
  {
  }

  type Profiles = map<string, Details>

  /** The profile embedded for `id` last, in thread order. */
  function LastEmbedded(messages: seq<Sender>, id: string): Option<Details> {
    if messages == [] then None
    else
      var part := PartOf(messages[|messages| - 1]);
      if part.Embedded? && part.id == id then Some(part.details) else LastEmbedded(messages[..|messages| - 1], id)
  }

  /** Some message has exactly this part. */
  predicate Has(messages: seq<Sender>, part: Part) {
    exists i :: 0 <= i < |messages| && PartOf(messages[i]) == part
  }

  /** The last one: embedded somewhere, with no other profile for the id behind it. */
  lemma {:induction false} LastEmbeddedIs(messages: seq<Sender>, id: string, details: Details)
    ensures LastEmbedded(messages, id) == Some(details) <==>
            exists i :: 0 <= i < |messages| && PartOf(messages[i]) == Embedded(id, details)
              && forall j :: i < j < |messages| ==> !(PartOf(messages[j]).Embedded? && PartOf(messages[j]).id == id)
  {
    hide PartOf;
    if messages != [] {
      var n := |messages| - 1;
      var before := messages[..n];
      LastEmbeddedIs(before, id, details);
      assert forall i :: 0 <= i < n ==> messages[i] == before[i];
      if PartOf(messages[n]).Embedded? && PartOf(messages[n]).id == id {
        assert PartOf(messages[n]) == Embedded(id, PartOf(messages[n]).details);
      }
    }
  }

  ghost predicate AreEmbedded(messages: seq<Sender>, found: Profiles) {
    forall id :: LastEmbedded(messages, id) == if id in found then Some(found[id]) else None
  }

  /** The first loop: embedded profiles, listed users and listed bots. */
  method Collect(messages: seq<Sender>) returns (found: Profiles, users: seq<string>, bots: seq<string>)
    ensures AreEmbedded(messages, found)
    ensures forall id :: id in users <==> Has(messages, ListedUser(id))
    ensures forall id :: id in bots <==> Has(messages, ListedBot(id))
  {
    found, users, bots := map[], [], [];
    for k := 0 to |messages|
      invariant AreEmbedded(messages[..k], found)
      invariant forall id :: id in users <==> Has(messages[..k], ListedUser(id))
      invariant forall id :: id in bots <==> Has(messages[..k], ListedBot(id))
    {
      assert messages[..k + 1] == messages[..k] + [messages[k]];
      assert forall part :: Has(messages[..k + 1], part) <==> Has(messages[..k], part) || PartOf(messages[k]) == part by {
        OneMoreMessage(messages[..k], messages[k]);
      }
      assert messages[..k + 1][..k] == messages[..k];
      match PartOf(messages[k]) {
        case Embedded(id, details) => found := found[id := details];
        case ListedBot(id) => bots := bots + [id];
        case ListedUser(id) => users := users + [id];
        case Nothing =>
      }
    }
    assert messages[..|messages|] == messages;
  }

  lemma OneMoreMessage(before: seq<Sender>, message: Sender)
    ensures forall part :: Has(before + [message], part) <==> Has(before, part) || PartOf(message) == part
  {
    var now := before + [message];
    assert now[|before|] == message && forall i :: 0 <= i < |before| ==> now[i] == before[i];
    forall part | Has(before, part) ensures Has(now, part) {
      var i :| 0 <= i < |before| && PartOf(before[i]) == part;
      assert PartOf(now[i]) == part;
    }
    forall part | Has(now, part) && PartOf(message) != part ensures Has(before, part) {
      var i :| 0 <= i < |now| && PartOf(now[i]) == part;
      assert PartOf(before[i]) == part;
    }
  }

  /******* Fetching *******/

  /** The profiles once every id of `ids` is resolved, in order; `None` is an error. */
  function Resolve(found: Profiles, ids: seq<string>, ask: string -> Answer, wrap: string -> Details): Option<Profiles>
    decreases |ids|
  {
    if ids == [] then Some(found)
    else if ids[0] in found then Resolve(found, ids[1..], ask, wrap)
    else
      match ask(ids[0])
      case Found(p) => Resolve(found[ids[0] := wrap(p)], ids[1..], ask, wrap)
      case NotFound => Resolve(found, ids[1..], ask, wrap)
      case Failed(_) => None
  }

  /** The second and third loops: also answers which ids were asked for. */
  method Fetch(found: Profiles, ids: seq<string>, ask: string -> Answer, wrap: string -> Details)
    returns (r: Option<Profiles>, asked: seq<string>)
    ensures r == Resolve(found, ids, ask, wrap)
    ensures forall i :: 0 <= i < |asked| ==> asked[i] !in found && asked[i] in ids
    ensures forall i, j :: 0 <= i < j < |asked| && asked[i] == asked[j] ==> ask(asked[i]).NotFound?
    ensures r.Some? ==> forall i :: 0 <= i < |ids| ==> ids[i] in found || ids[i] in asked
    ensures r.None? ==> asked != [] && ask(asked[|asked| - 1]).Failed?
  {
    var profiles := found;
    asked := [];
    for k := 0 to |ids|
      invariant Resolve(found, ids, ask, wrap) == Resolve(profiles, ids[k..], ask, wrap)
      invariant found.Keys <= profiles.Keys
      invariant forall i :: 0 <= i < |asked| ==> asked[i] !in found && asked[i] in ids
      invariant forall i :: 0 <= i < |asked| ==> asked[i] in profiles || ask(asked[i]).NotFound?
      invariant forall i, j :: 0 <= i < j < |asked| && asked[i] == asked[j] ==> ask(asked[i]).NotFound?
      invariant forall i :: 0 <= i < k ==> ids[i] in found || ids[i] in asked
      invariant forall id :: id in profiles ==> id in found || id in asked
    {
      var id := ids[k];
      assert ids[k..][0] == id && ids[k..][1..] == ids[k + 1..];
      if id !in profiles {
        asked := asked + [id];
        match ask(id) {
          case Found(p) => profiles := profiles[id := wrap(p)];
          case NotFound =>
          case Failed(_) => return None, asked;
        }
      }
    }
    r := Some(profiles);
  }

  lemma ListedAreAsked(found: Profiles, ids: seq<string>, asked: seq<string>)
    requires forall i :: 0 <= i < |ids| ==> ids[i] in found || ids[i] in asked
    ensures forall id :: id in ids && id !in found ==> id in asked
  {
  }

  /** What is resolved: the ids Slack knows are added, the others left out, and nothing is overwritten. */
  lemma {:induction false} ResolveIs(found: Profiles, ids: seq<string>, ask: string -> Answer, wrap: string -> Details)
    ensures Resolve(found, ids, ask, wrap).None? <==> exists id :: id in ids && id !in found && ask(id).Failed?
    ensures Resolve(found, ids, ask, wrap).Some? ==>
            forall id :: var r := Resolve(found, ids, ask, wrap).value;
              if id in found then id in r && r[id] == found[id]
              else if id in ids && ask(id).Found? then id in r && r[id] == wrap(ask(id).profile)
              else id !in r
    decreases |ids|
  {
    if ids != [] {
      var id, rest := ids[0], ids[1..];
      assert forall x :: x in ids <==> x == id || x in rest;
      if id in found || ask(id).NotFound? {
        ResolveIs(found, rest, ask, wrap);
      } else if ask(id).Found? {
        ResolveIs(found[id := wrap(ask(id).profile)], rest, ask, wrap);
      }
    }
  }

  /******* The whole build *******/

  /** The profile of an id: the last one embedded, else the user's, else the bot's. */
  function Expected(messages: seq<Sender>, slack: Slack, id: string): Option<Details> {
    if LastEmbedded(messages, id).Some? then LastEmbedded(messages, id)
    else if Has(messages, ListedUser(id)) && slack.user(id).Found? then Some(User(slack.user(id).profile))
    else if Has(messages, ListedBot(id)) && slack.bot(id).Found? then Some(Bot(slack.bot(id).profile))
    else None
  }

  predicate UserFetchFails(messages: seq<Sender>, slack: Slack, id: string) {
    Has(messages, ListedUser(id)) && LastEmbedded(messages, id).None? && slack.user(id).Failed?
  }

  predicate BotFetchFails(messages: seq<Sender>, slack: Slack, id: string) {
    && Has(messages, ListedBot(id)) && LastEmbedded(messages, id).None? && slack.bot(id).Failed?
    && !(Has(messages, ListedUser(id)) && slack.user(id).Found?)
  }

  /**
  `fetch_sender_profiles_from_messages`: the profile map, and the ids asked for. Bots and users share
  the map's keys, so an id known as a user is not asked for as a bot.
  */
  method FetchSenderProfiles(messages: seq<Sender>, slack: Slack)
    returns (r: Option<Profiles>, askedUsers: seq<string>, askedBots: seq<string>)
    ensures r.None? <==> exists id :: UserFetchFails(messages, slack, id) || BotFetchFails(messages, slack, id)
    ensures r.Some? ==> forall id :: Expected(messages, slack, id) == if id in r.value then Some(r.value[id]) else None
    // Asked for is what is listed and not known, and nothing else.
    ensures r.Some? ==> forall id :: Has(messages, ListedUser(id)) && LastEmbedded(messages, id).None? ==> id in askedUsers
    ensures r.Some? ==> forall id ::
      && Has(messages, ListedBot(id)) && LastEmbedded(messages, id).None?
      && !(Has(messages, ListedUser(id)) && slack.user(id).Found?)
      ==> id in askedBots
    ensures forall i :: 0 <= i < |askedUsers| ==> LastEmbedded(messages, askedUsers[i]).None?
    ensures forall i :: 0 <= i < |askedBots| ==> LastEmbedded(messages, askedBots[i]).None?
    ensures forall i :: 0 <= i < |askedBots| ==> !(Has(messages, ListedUser(askedBots[i])) && slack.user(askedBots[i]).Found?)
    ensures forall i, j :: 0 <= i < j < |askedUsers| && askedUsers[i] == askedUsers[j] ==> slack.user(askedUsers[i]).NotFound?
    ensures forall i, j :: 0 <= i < j < |askedBots| && askedBots[i] == askedBots[j] ==> slack.bot(askedBots[i]).NotFound?
  {
    hide LastEmbedded, Has, Resolve;
    var found, users, bots := Collect(messages);
    var asUser := (p: string) => User(p);
    var asBot := (p: string) => Bot(p);
    var some: Option<Profiles>;
    some, askedUsers := Fetch(found, users, slack.user, asUser);
    ResolveIs(found, users, slack.user, asUser);
    if some.None? {
      ghost var id :| id in users && id !in found && slack.user(id).Failed?;
      assert UserFetchFails(messages, slack, id);
      return None, askedUsers, [];
    }
    assert forall id :: !UserFetchFails(messages, slack, id);
    r, askedBots := Fetch(some.value, bots, slack.bot, asBot);
    ResolveIs(some.value, bots, slack.bot, asBot);
    if r.None? {
      ghost var id :| id in bots && id !in some.value && slack.bot(id).Failed?;
      assert BotFetchFails(messages, slack, id);
    } else {
      ListedAreAsked(found, users, askedUsers);
      ListedAreAsked(some.value, bots, askedBots);
    }
  }
}
