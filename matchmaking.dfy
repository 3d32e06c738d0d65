/** The ranked queue of the bot: a ranked voice channel reaching its mode's
    player count opens a ready check; the check either validates (a host is
    picked) or is cancelled, and a refusal earns the refusing member an
    escalating matchmaking ban. Strike counts are reset by a daily sweep.

    Channel, role, message and timer side effects are left out; whether the
    ban role exists and whether the member is in the guild cache are
    parameters, and the clock reading of the sweep is passed in. */
module RankedMatchmaking {
  import opened Common

  type UserId = string

  /** A guild member with its `user.bot` flag and the names of its roles. */
  datatype Player = Player(id: UserId, bot: bool, roles: set<string>)

  /** The `modes` table: channel name to required player count. */
  const Ranked1v1: string := "\U{1F3AE} Ranked 1v1"
  const Ranked2v2: string := "\U{1F3AE} Ranked 2v2"
  const Modes: map<string, nat> := map[Ranked1v1 := 2, Ranked2v2 := 4]
  const BakkesRole: string := "\U{1F9E9} BakkesMod"
  const ConsoleRole: string := "Console"

  function NonBot(ps: seq<Player>): (r: seq<Player>)
    ensures |r| <= |ps|
    ensures forall p :: p in r <==> p in ps && !p.bot
  {
    if ps == [] then []
    else if ps[0].bot then NonBot(ps[1..])
    else [ps[0]] + NonBot(ps[1..])
  }

  /** The `voiceStateUpdate` test: the players a ready check starts with, when
      the channel is a ranked channel whose non-bot count equals its mode's. */
  function Quorum(channelName: Option<string>, members: seq<Player>): (r: Option<seq<Player>>)
  {
    if channelName.Some? && channelName.value in Modes && |NonBot(members)| == Modes[channelName.value]
    then Some(NonBot(members))
    else None
  }

  /** 1v1 needs exactly two non-bot members and 2v2 exactly four; no other
      channel starts a match. */
  lemma QuorumByMode(channelName: Option<string>, members: seq<Player>)
    ensures channelName == Some(Ranked1v1) ==> (Quorum(channelName, members).Some? <==> |NonBot(members)| == 2)
    ensures channelName == Some(Ranked2v2) ==> (Quorum(channelName, members).Some? <==> |NonBot(members)| == 4)
    ensures channelName.None? || channelName.value !in {Ranked1v1, Ranked2v2} ==> Quorum(channelName, members).None?
    ensures Quorum(channelName, members).Some? ==> Quorum(channelName, members).value == NonBot(members)
  {
    assert Ranked1v1 != Ranked2v2 by { assert Ranked1v1[9] != Ranked2v2[9]; }
  }

  /** The ban length in minutes announced for the given strike count. */
  function BanMinutes(strikes: nat): nat
    requires strikes >= 1
  {
    if strikes <= 4 then [5, 10, 20, 30][strikes - 1] else Pow2(strikes - 5) * 60
  }

  lemma BanMinutesFirstSix()
    ensures BanMinutes(1) == 5 && BanMinutes(2) == 10 && BanMinutes(3) == 20
    ensures BanMinutes(4) == 30 && BanMinutes(5) == 60 && BanMinutes(6) == 120
  {
    assert Pow2(1) == 2;
  }

  /** From the fifth strike on, each strike doubles the ban. */
  lemma BanMinutesDoubles(strikes: nat)
    requires strikes >= 5
    ensures BanMinutes(strikes + 1) == 2 * BanMinutes(strikes)
  {
    assert Pow2(strikes + 1 - 5) == 2 * Pow2(strikes - 5);
  }

  /** More strikes never mean a shorter announced ban. */
  lemma {:induction false} BanMinutesMonotone(a: nat, b: nat)
    requires 1 <= a <= b
    ensures BanMinutes(a) <= BanMinutes(b)
  {
    if a < b {
      BanMinutesMonotone(a, b - 1);
      if b - 1 >= 5 {
        BanMinutesDoubles(b - 1);
      } else if b - 1 == 4 {
        assert BanMinutes(5) == 60;
      }
    }
  }

  /** The longest delay Node's `setTimeout` honours: 2^31 - 1 milliseconds. */
  const TimeoutMax: nat := 2147483647

  /** The delay Node actually waits for a requested one: a delay below 1 ms
      or above `TimeoutMax` is replaced by 1 ms. */
  function TimerDelay(ms: nat): (r: nat)
    ensures 1 <= r <= TimeoutMax
    ensures r == ms <==> 1 <= ms <= TimeoutMax
  {
    if ms < 1 || ms > TimeoutMax then 1 else ms
  }

  /** How long the ban role stays on the member as `applyBan` schedules its
      removal: one timer of the announced minutes, run by Node. */
  function RoleHeldAsWritten(strikes: nat): (r: nat)
    requires strikes >= 1
    ensures 1 <= r <= TimeoutMax
  {
    TimerDelay(BanMinutes(strikes) * 60000)
  }

  /** Up to the 14th strike the role is held for the announced minutes; from
      the 15th on (61440 minutes announced) the delay exceeds `TimeoutMax`
      and the role is removed after 1 ms. */
  lemma RoleHeldAsWrittenBreaksAtFifteen(strikes: nat)
    requires strikes >= 1
    ensures strikes <= 14 ==> RoleHeldAsWritten(strikes) == BanMinutes(strikes) * 60000
    ensures strikes >= 15 ==> RoleHeldAsWritten(strikes) == 1
    ensures BanMinutes(15) == 61440
  {
    assert Pow2(9) == 512 && Pow2(10) == 1024;
    if strikes <= 14 {
      BanMinutesMonotone(strikes, 14);
    } else {
      BanMinutesMonotone(15, strikes);
    }
  }

  /** The sum of a chain of timer delays. */
  function TotalDelay(ds: seq<nat>): nat
  {
    if ds == [] then 0 else ds[0] + TotalDelay(ds[1..])
  }

  /** The removal as evidently intended: a chain of timers, each one a delay
      Node honours, that together wait exactly `ms`. */
  function RemovalTimers(ms: nat): (r: seq<nat>)
    ensures forall k :: 0 <= k < |r| ==> TimerDelay(r[k]) == r[k]
    ensures TotalDelay(r) == ms
    decreases ms
  {
    if ms == 0 then []
    else if ms <= TimeoutMax then [ms]
    else
      var rest := RemovalTimers(ms - TimeoutMax);
      assert ([TimeoutMax] + rest)[1..] == rest;
      [TimeoutMax] + rest
  }

  /** The ban role's removal timers for a strike count: the role is held for
      exactly the announced minutes, whatever the count. */
  function RoleTimers(strikes: nat): (r: seq<nat>)
    requires strikes >= 1
    ensures forall k :: 0 <= k < |r| ==> TimerDelay(r[k]) == r[k]
    ensures TotalDelay(r) == BanMinutes(strikes) * 60000
  {
    RemovalTimers(BanMinutes(strikes) * 60000)
  }

  /** Where the single timer works (up to the 14th strike), the intended
      chain is that one timer; from the 15th strike on it needs several. */
  lemma RoleTimersAgreeBelowFifteen(strikes: nat)
    requires strikes >= 1
    ensures strikes <= 14 ==> RoleTimers(strikes) == [RoleHeldAsWritten(strikes)]
    ensures strikes >= 15 ==> |RoleTimers(strikes)| >= 2
  {
    RoleHeldAsWrittenBreaksAtFifteen(strikes);
    BanMinutesMonotone(1, strikes);
    if strikes >= 15 {
      BanMinutesMonotone(15, strikes);
      var ms := BanMinutes(strikes) * 60000;
      assert RoleTimers(strikes) == [TimeoutMax] + RemovalTimers(ms - TimeoutMax);
    }
  }

  /** The in-memory `bans` map: user id to strike count. */
  class BanTracker {
    var bans: map<UserId, nat>

    constructor ()
      ensures bans == map[]
    {
      bans := map[];
    }

    /** `applyBan`: a member missing from the guild cache is left alone;
        otherwise their count (0 when absent) goes up by one, nothing else
        changes, and the announced ban length is `BanMinutes` of the new
        count. The role's removal is the corrected chain `RoleTimers`, which
        holds the role for the announced length; the single timer the source
        schedules is `RoleHeldAsWritten`. */
    method ApplyBan(userId: UserId, inGuild: bool) returns (minutes: Option<nat>, timers: seq<nat>)
      modifies this
      ensures !inGuild ==> bans == old(bans) && minutes == None && timers == []
      ensures inGuild ==> var n := (if userId in old(bans) then old(bans)[userId] else 0) + 1;
                          bans == old(bans)[userId := n] && minutes == Some(BanMinutes(n)) &&
                          timers == RoleTimers(n)
    {
      if !inGuild {
        return None, [];
      }
      var count := if userId in bans then bans[userId] else 0;
      count := count + 1;
      minutes := Some(BanMinutes(count));
      timers := RoleTimers(count);
      bans := bans[userId := count];
    }

    /** The once-a-minute sweep: at 00:00 every stored count becomes 0 and all
        users stay recorded; at any other time nothing changes. */
    method DailySweep(hours: nat, minutes: nat)
      modifies this
      ensures bans.Keys == old(bans).Keys
      ensures hours == 0 && minutes == 0 ==> forall u :: u in bans ==> bans[u] == 0
      ensures !(hours == 0 && minutes == 0) ==> bans == old(bans)
    {
      if hours == 0 && minutes == 0 {
        var todo := bans.Keys;
        while todo != {}
          invariant todo <= bans.Keys && bans.Keys == old(bans).Keys
          invariant forall u :: u in bans && u !in todo ==> bans[u] == 0
          decreases todo
        {
          var u :| u in todo;
          bans := bans[u := 0];
          todo := todo - {u};
        }
      }
    }
  }

  /** How the ready collector answers a click. */
  datatype ReadyReply = NotParticipant | Validated | Cancelled

  /** The ready check of one ranked match: the set of members who pressed ✅
      and, once the collector has stopped, the reason it stopped with
      (`validated`, `refused:<id>`, or `time` for the timeout). */
  class ReadyCheck {
    const players: seq<Player>
    var ready: set<UserId>
    var ended: Option<string>

    ghost predicate Valid()
      reads this
    {
      forall u :: u in ready ==> exists p :: p in players && p.id == u
    }

    constructor (players: seq<Player>)
      ensures Valid() && this.players == players && ready == {} && ended == None
    {
      this.players, ready, ended := players, {}, None;
    }

    /** `collector.stop(reason)`: only the first stop counts. */
    method Stop(reason: string)
      modifies this`ended
      ensures ended == if old(ended).None? then Some(reason) else old(ended)
    {
      if ended.None? {
        ended := Some(reason);
      }
    }

    /** The collector's `collect` handler. A non-participant changes nothing;
        `ready_yes` adds the voter to the set (a repeated vote adds nothing),
        and the check stops with `validated` once the set is as large as the
        player list; any other button stops it with `refused:<id>`. */
    method Collect(userId: UserId, customId: string) returns (reply: ReadyReply)
      requires Valid() && ended.None?
      modifies this`ready, this`ended
      ensures Valid()
      ensures reply == NotParticipant <==> !exists p :: p in players && p.id == userId
      ensures reply == NotParticipant ==> ready == old(ready) && ended == None
      ensures reply == Validated <==> reply != NotParticipant && customId == "ready_yes"
      ensures reply == Validated ==> ready == old(ready) + {userId}
      ensures reply == Validated ==> ended == if |ready| == |players| then Some("validated") else None
      ensures reply == Cancelled ==> ready == old(ready) && ended == Some("refused:" + userId)
      // a second ✅ from the same member leaves the set as it was, and the
      // check stops only if everyone had already been ready
      ensures reply == Validated && userId in old(ready) ==>
                ready == old(ready) && ended == if |old(ready)| == |players| then Some("validated") else None
    {
      if !exists p :: p in players && p.id == userId {
        return NotParticipant;
      }
      if customId == "ready_yes" {
        ready := ready + {userId};
        reply := Validated;
      } else {
        reply := Cancelled;
        Stop("refused:" + userId);
      }
      if |ready| == |players| {
        Stop("validated");
      }
    }

    /** The collector's 30-second window runs out. */
    method Timeout()
      requires ended.None?
      modifies this`ended
      ensures ended == Some("time")
    {
      ended := Some("time");
    }
  }

  /** What the collector's `end` handler does: start the game on `validated`,
      otherwise cancel, striking the refusing member only for a refusal and
      only when the ban role exists. */
  datatype EndAction = StartGame | Cancel(strike: Option<UserId>)

  function ReadyEnd(reason: string, banRoleExists: bool): (r: EndAction)
  {
    if reason == "validated" then StartGame
    else
      var id := if StartsWith(reason, "refused:") then SplitTwo(reason, ':').1 else None;
      if id.Some? && id.value != [] && banRoleExists then Cancel(id) else Cancel(None)
  }

  /** The refusal reason carries the refusing member's id back to the end
      handler; a timeout never strikes, and without the ban role nobody is
      struck. */
  lemma ReadyEndOutcomes(userId: UserId, banRoleExists: bool)
    requires ':' !in userId && userId != []
    ensures ReadyEnd("validated", banRoleExists) == StartGame
    ensures ReadyEnd("time", banRoleExists) == Cancel(None)
    ensures ReadyEnd("refused:" + userId, banRoleExists) == Cancel(if banRoleExists then Some(userId) else None)
  {
    var reason := "refused:" + userId;
    assert reason == "refused" + [':'] + userId;
    SplitTwoRoundTrip("refused", userId, ':');
    assert StartsWith(reason, "refused:");
    assert !StartsWith("time", "refused:");
  }

  function NonConsole(ps: seq<Player>): (r: seq<Player>)
    ensures forall p :: p in r <==> p in ps && ConsoleRole !in p.roles
  {
    if ps == [] then []
    else if ConsoleRole in ps[0].roles then NonConsole(ps[1..])
    else [ps[0]] + NonConsole(ps[1..])
  }

  function WithBakkes(ps: seq<Player>): (r: seq<Player>)
    ensures forall p :: p in r <==> p in ps && BakkesRole in p.roles
  {
    if ps == [] then []
    else if BakkesRole in ps[0].roles then [ps[0]] + WithBakkes(ps[1..])
    else WithBakkes(ps[1..])
  }

  /** The host pool: the non-Console players, narrowed to the BakkesMod
      holders among them when there is at least one. */
  function HostPool(players: seq<Player>): seq<Player>
  {
    var nonConsole := NonConsole(players);
    var withBakkes := WithBakkes(nonConsole);
    if |withBakkes| > 0 then withBakkes else nonConsole
  }

  /** `chooseHost`: a random member of the pool, or no host (JavaScript's
      `undefined`) when every player is on Console. */
  method ChooseHost(players: seq<Player>) returns (host: Option<Player>)
    ensures host.None? <==> forall p :: p in players ==> ConsoleRole in p.roles
    ensures host.Some? ==> host.value in players && ConsoleRole !in host.value.roles
    ensures (host.Some? && exists p :: p in players && ConsoleRole !in p.roles && BakkesRole in p.roles) ==>
              BakkesRole in host.value.roles
  {
    var pool := HostPool(players);
    if |pool| == 0 {
      assert NonConsole(players) == [];
      return None;
    }
    var k :| 0 <= k < |pool|;
    host := Some(pool[k]);
    assert pool[k] in pool;
    if exists p :: p in players && ConsoleRole !in p.roles && BakkesRole in p.roles {
      var p :| p in players && ConsoleRole !in p.roles && BakkesRole in p.roles;
      assert p in WithBakkes(NonConsole(players));
    }
  }

  /** The collector's `end` handler: on `validated` a host is chosen; on any
      other reason the match is cancelled, and a refusal with the ban role
      present strikes the refusing member. */
  method EndReadyCheck(check: ReadyCheck, tracker: BanTracker, banRoleExists: bool, inGuild: bool)
    returns (action: EndAction, host: Option<Player>, minutes: Option<nat>)
    requires check.ended.Some?
    modifies tracker
    ensures action == ReadyEnd(check.ended.value, banRoleExists)
    ensures action.StartGame? ==> minutes == None && tracker.bans == old(tracker.bans)
    ensures action.StartGame? ==> (host.None? <==> forall p :: p in check.players ==> ConsoleRole in p.roles)
    ensures action.StartGame? && host.Some? ==> host.value in check.players && ConsoleRole !in host.value.roles
    ensures action == Cancel(None) ==> host == None && minutes == None && tracker.bans == old(tracker.bans)
    ensures action.Cancel? && action.strike.Some? ==>
              (var u := action.strike.value;
               var n := (if u in old(tracker.bans) then old(tracker.bans)[u] else 0) + 1;
               host == None &&
               if inGuild then tracker.bans == old(tracker.bans)[u := n] && minutes == Some(BanMinutes(n))
               else tracker.bans == old(tracker.bans) && minutes == None)
  {
    action := ReadyEnd(check.ended.value, banRoleExists);
    host, minutes := None, None;
    match action
    case StartGame =>
      host := ChooseHost(check.players);
    case Cancel(strike) =>
      if strike.Some? {
        var timers;
        minutes, timers := tracker.ApplyBan(strike.value, inGuild);
      }
  }
}
