/** The 2v2 session lifecycle of the bot: a lobby voice channel reaching four
    players opens a match, the players elect two captains and a host, the host
    configures the game and the players are split into two teams, and when the
    match ends a report window opens before the match leaves the registry.

    Discord and Supabase calls (channel creation and deletion, moves, messages,
    REST requests) are left out; what they return (new ids, success) is passed
    in as parameters. Random draws are nondeterministic choices, and timers and
    collector windows are explicit events. */
module AdvancedMatchmaking {
  import opened Common

  type UserId = string
  type ChannelId = string

  /** A guild member as the bot holds it: the Discord user id, and `obj`, which
      tells apart two distinct JavaScript objects standing for the same user
      (`includes` compares objects by reference, `find(c => c.id === …)` by id). */
  datatype Member = Member(id: UserId, obj: nat)

  /** A member of a voice channel, with its `user.bot` flag. */
  datatype VoiceMember = VoiceMember(member: Member, bot: bool)
  datatype VoiceChannel = VoiceChannel(name: string, members: seq<VoiceMember>)

  /** The one mode of this lobby: the channel `🎮│2v2` needs 4 players. */
  const LobbyName: string := "\U{1F3AE}\U{2502}2v2"
  const Modes: map<string, nat> := map[LobbyName := 4]
  const MatchSize: nat := 4

  predicate HasId(ms: seq<Member>, u: UserId)
  {
    exists m :: m in ms && m.id == u
  }

  predicate DistinctIds(ms: seq<Member>)
  {
    forall i, j :: 0 <= i < j < |ms| ==> ms[i].id != ms[j].id
  }

  /** The non-bot members of a channel, in channel order. */
  function NonBot(vs: seq<VoiceMember>): (r: seq<Member>)
    ensures |r| <= |vs|
    ensures forall v :: v in vs && !v.bot ==> v.member in r
    ensures forall m :: m in r ==> VoiceMember(m, false) in vs
  {
    if vs == [] then []
    else if vs[0].bot then NonBot(vs[1..])
    else [vs[0].member] + NonBot(vs[1..])
  }

  lemma {:induction false} NonBotKeepsDistinctIds(vs: seq<VoiceMember>)
    requires forall i, j :: 0 <= i < j < |vs| ==> vs[i].member.id != vs[j].member.id
    ensures DistinctIds(NonBot(vs))
  {
    if vs != [] {
      NonBotKeepsDistinctIds(vs[1..]);
      var rest := NonBot(vs[1..]);
      if !vs[0].bot {
        forall m | m in rest ensures m.id != vs[0].member.id {
          var k :| 0 <= k < |vs[1..]| && vs[1..][k] == VoiceMember(m, false);
          assert vs[k + 1].member == m;
        }
      }
    }
  }

  /** Quorum detection on a voice-state update: the players a match starts
      with, or None when the channel is not the lobby or its non-bot member
      count is not exactly the mode's size. */
  function LobbyQuorum(channel: Option<VoiceChannel>): (r: Option<seq<Member>>)
    ensures r.Some? <==> channel.Some? && channel.value.name == LobbyName
                         && |NonBot(channel.value.members)| == MatchSize
    ensures r.Some? ==> |r.value| == MatchSize && r.value == NonBot(channel.value.members)
  {
    match channel
    case None => None
    case Some(ch) =>
      if ch.name in Modes && |NonBot(ch.members)| == Modes[ch.name] then Some(NonBot(ch.members))
      else None
  }

  /** The players not yet among the captains, compared by id. */
  function RestById(players: seq<Member>, captains: seq<Member>): (r: seq<Member>)
    ensures |r| <= |players|
    ensures DistinctIds(players) ==> DistinctIds(r)
    ensures forall m :: m in r ==> m in players && !HasId(captains, m.id)
    ensures forall m :: m in players && !HasId(captains, m.id) ==> m in r
  {
    if players == [] then []
    else if HasId(captains, players[0].id) then RestById(players[1..], captains)
    else [players[0]] + RestById(players[1..], captains)
  }

  /** Removing one member from a list with distinct ids leaves distinct ids,
      and none of the others has the removed member's id. */
  lemma RemoveAtKeepsDistinct(s: seq<Member>, k: nat)
    requires DistinctIds(s) && k < |s|
    ensures DistinctIds(s[..k] + s[k + 1..])
    ensures forall m :: m in s[..k] + s[k + 1..] ==> m in s && m.id != s[k].id
  {
    var t := s[..k] + s[k + 1..];
    assert forall p :: 0 <= p < |t| ==> t[p] == s[if p < k then p else p + 1];
  }

  /** The players not among the captains as line 128 computes it, with
      `includes`, which compares member objects by reference. */
  function RestByReference(players: seq<Member>, captains: seq<Member>): (r: seq<Member>)
    ensures forall m :: m in r <==> m in players && m !in captains
  {
    if players == [] then []
    else if players[0] in captains then RestByReference(players[1..], captains)
    else [players[0]] + RestByReference(players[1..], captains)
  }

  /** A captain recorded from the interaction's member object is a
      different object from the player entry for the same user (the two
      differ in `obj`), so the reference comparison leaves that user among
      the candidates and the fill loop can make them captain a second
      time. */
  lemma RestByReferenceCanRepeatCaptain(players: seq<Member>, captain: Member)
    requires players != [] && captain.id == players[0].id && captain != players[0]
    ensures players[0] in RestByReference(players, [captain])
    ensures !DistinctIds([captain, players[0]])
  {
    assert players[0] !in [captain];
    var both := [captain, players[0]];
    assert both[0].id == both[1].id;
  }

  /** With distinct player ids and at most one captain, the candidates by id
      number at least |players| - |captains|. */
  lemma {:induction false} RestByIdSize(players: seq<Member>, captains: seq<Member>)
    requires DistinctIds(players) && |captains| <= 1
    ensures |RestById(players, captains)| >= |players| - |captains|
  {
    if players != [] {
      RestByIdSize(players[1..], captains);
      if HasId(captains, players[0].id) {
        // the one captain has players[0]'s id, so no later player has it
        assert captains == [captains[0]] && captains[0].id == players[0].id;
        forall m | m in players[1..] ensures !HasId(captains, m.id) {
          var k :| 0 <= k < |players[1..]| && players[1..][k] == m;
          assert players[k + 1] == m;
        }
        RestByIdAll(players[1..], captains);
      }
    }
  }

  lemma {:induction false} RestByIdAll(players: seq<Member>, captains: seq<Member>)
    requires forall m :: m in players ==> !HasId(captains, m.id)
    ensures RestById(players, captains) == players
  {
    if players != [] {
      assert players[0] in players;
      assert forall m :: m in players[1..] ==> m in players;
      RestByIdAll(players[1..], captains);
    }
  }

  /** The Fisher–Yates `shuffle`, in place. The random index is a
      nondeterministic choice; `perm` records where each element came from. */
  method Shuffle<T>(a: array<T>) returns (ghost perm: seq<nat>)
    modifies a
    ensures multiset(a[..]) == multiset(old(a[..]))
    ensures |perm| == a.Length
    ensures forall k :: 0 <= k < a.Length ==> perm[k] < a.Length && a[k] == old(a[..])[perm[k]]
    ensures forall i, j :: 0 <= i < j < |perm| ==> perm[i] != perm[j]
  {
    ghost var orig := a[..];
    perm := seq(a.Length, k => k);
    var i := a.Length - 1;
    while i > 0
      invariant -1 <= i < a.Length
      invariant multiset(a[..]) == multiset(orig)
      invariant |perm| == a.Length
      invariant forall k :: 0 <= k < a.Length ==> perm[k] < a.Length && a[k] == orig[perm[k]]
      invariant forall p, q :: 0 <= p < q < |perm| ==> perm[p] != perm[q]
    {
      var j :| 0 <= j <= i;
      ghost var before, p := a[..], perm;
      a[i], a[j] := a[j], a[i];
      perm := perm[i := perm[j]][j := perm[i]];
      assert a[..] == before[i := before[j]][j := before[i]];
      SwapStep(orig, before, p, i, j, a[..], perm);
      i := i - 1;
    }
  }

  /** One swap of the shuffle keeps the elements and the index record. */
  lemma SwapStep<T>(orig: seq<T>, s: seq<T>, perm: seq<nat>, i: nat, j: nat, t: seq<T>, perm': seq<nat>)
    requires |s| == |orig| == |perm| && j <= i < |s|
    requires forall k :: 0 <= k < |s| ==> perm[k] < |s| && s[k] == orig[perm[k]]
    requires forall p, q :: 0 <= p < q < |perm| ==> perm[p] != perm[q]
    requires t == s[i := s[j]][j := s[i]] && perm' == perm[i := perm[j]][j := perm[i]]
    ensures multiset(t) == multiset(s) && |t| == |perm'| == |s|
    ensures forall k :: 0 <= k < |t| ==> perm'[k] < |t| && t[k] == orig[perm'[k]]
    ensures forall p, q :: 0 <= p < q < |perm'| ==> perm'[p] != perm'[q]
  {
    forall p, q | 0 <= p < q < |perm'| ensures perm'[p] != perm'[q] {
      var p0 := if p == i then j else if p == j then i else p;
      var q0 := if q == i then j else if q == j then i else q;
      assert perm'[p] == perm[p0] && perm'[q] == perm[q0] && p0 != q0;
      if p0 < q0 { assert perm[p0] != perm[q0]; } else { assert perm[q0] != perm[p0]; }
    }
  }

  /** Members at the indices of a permutation keep distinct ids. */
  lemma PermutedDistinctIds(s: seq<Member>, t: seq<Member>, perm: seq<nat>)
    requires DistinctIds(s) && |t| == |perm| == |s|
    requires forall k :: 0 <= k < |t| ==> perm[k] < |s| && t[k] == s[perm[k]]
    requires forall i, j :: 0 <= i < j < |perm| ==> perm[i] != perm[j]
    ensures DistinctIds(t)
  {
    forall i, j | 0 <= i < j < |t| ensures t[i].id != t[j].id {
      if perm[i] < perm[j] {
        assert s[perm[i]].id != s[perm[j]].id;
      } else {
        assert s[perm[j]].id != s[perm[i]].id;
      }
    }
  }

  /** The team split: the shuffled players go alternately to blue (even
      positions) and orange (odd positions). */
  method SplitAlternately<T>(shuffled: seq<T>) returns (blue: seq<T>, orange: seq<T>)
    ensures |blue| == (|shuffled| + 1) / 2 && |orange| == |shuffled| / 2
    ensures forall k :: 0 <= k < |blue| ==> blue[k] == shuffled[2 * k]
    ensures forall k :: 0 <= k < |orange| ==> orange[k] == shuffled[2 * k + 1]
    ensures multiset(blue) + multiset(orange) == multiset(shuffled)
  {
    blue, orange := [], [];
    var i := 0;
    while i < |shuffled|
      invariant 0 <= i <= |shuffled|
      invariant |blue| == (i + 1) / 2 && |orange| == i / 2
      invariant forall k :: 0 <= k < |blue| ==> blue[k] == shuffled[2 * k]
      invariant forall k :: 0 <= k < |orange| ==> orange[k] == shuffled[2 * k + 1]
      invariant multiset(blue) + multiset(orange) == multiset(shuffled[..i])
    {
      SplitStep(shuffled, i, blue, orange);
      if i % 2 == 0 {
        blue := blue + [shuffled[i]];
      } else {
        orange := orange + [shuffled[i]];
      }
      i := i + 1;
    }
    assert shuffled[..i] == shuffled;
  }

  /** One turn of the split loop: position `i` goes to blue when even and
      to orange when odd. */
  lemma SplitStep<T>(s: seq<T>, i: nat, blue: seq<T>, orange: seq<T>)
    requires i < |s|
    requires |blue| == (i + 1) / 2 && |orange| == i / 2
    requires forall k :: 0 <= k < |blue| ==> blue[k] == s[2 * k]
    requires forall k :: 0 <= k < |orange| ==> orange[k] == s[2 * k + 1]
    requires multiset(blue) + multiset(orange) == multiset(s[..i])
    ensures var (b, o) := if i % 2 == 0 then (blue + [s[i]], orange) else (blue, orange + [s[i]]);
      && |b| == (i + 2) / 2 && |o| == (i + 1) / 2
      && (forall k :: 0 <= k < |b| ==> b[k] == s[2 * k])
      && (forall k :: 0 <= k < |o| ==> o[k] == s[2 * k + 1])
      && multiset(b) + multiset(o) == multiset(s[..i + 1])
  {
    assert s[..i + 1] == s[..i] + [s[i]];
  }

  /** The fill loop of the captain window (lines 127-132): while fewer than
      2 captains, a random remaining player (compared by id) is removed from
      the candidates and appended. With 4 players it always ends at 2. */
  method FillCaptains(players: seq<Member>, captains: seq<Member>) returns (r: seq<Member>)
    requires |players| == MatchSize && DistinctIds(players)
    requires DistinctIds(captains) && |captains| < 2
    ensures |r| == 2 && captains <= r && DistinctIds(r)
    ensures forall m :: m in r[|captains|..] ==> m in players
  {
    r := captains;
    var rest := RestById(players, captains);
    RestByIdSize(players, captains);
    while |r| < 2 && |rest| > 0
      invariant captains <= r && |r| <= 2
      invariant DistinctIds(r)
      invariant forall m :: m in r[|captains|..] ==> m in players
      invariant DistinctIds(rest)
      invariant forall m :: m in rest ==> m in players && !HasId(r, m.id)
      invariant |r| + |rest| >= MatchSize
      decreases |rest|
    {
      var k :| 0 <= k < |rest|;
      var pick := rest[k];
      FillStep(players, captains, r, rest, k);
      rest := rest[..k] + rest[k + 1..];
      r := r + [pick];
    }
  }

  /** One turn of the fill loop: appending a candidate and removing it from
      the candidates keeps the captains' ids distinct and the candidates
      apart from them. */
  lemma FillStep(players: seq<Member>, captains: seq<Member>, r: seq<Member>, rest: seq<Member>, k: nat)
    requires captains <= r && DistinctIds(r)
    requires forall m :: m in r[|captains|..] ==> m in players
    requires DistinctIds(rest) && k < |rest|
    requires forall m :: m in rest ==> m in players && !HasId(r, m.id)
    ensures var r', rest' := r + [rest[k]], rest[..k] + rest[k + 1..];
      && captains <= r' && DistinctIds(r')
      && (forall m :: m in r'[|captains|..] ==> m in players)
      && DistinctIds(rest')
      && (forall m :: m in rest' ==> m in players && !HasId(r', m.id))
  {
    var pick := rest[k];
    var r', rest' := r + [pick], rest[..k] + rest[k + 1..];
    assert pick in rest;
    assert r'[|captains|..] == r[|captains|..] + [pick];
    forall i | 0 <= i < |r| ensures r[i].id != pick.id {
      assert r[i] in r;
    }
    RemoveAtKeepsDistinct(rest, k);
    forall m | m in rest' ensures !HasId(r', m.id) {
      assert m in rest && m.id != pick.id;
    }
  }

  /** More than 2 proposals: `shuffle(captains).slice(0, 2)` keeps two of
      the proposed captains. */
  method KeepTwoCaptains(captains: seq<Member>) returns (r: seq<Member>)
    requires |captains| > 2 && DistinctIds(captains)
    ensures |r| == 2 && multiset(r) <= multiset(captains) && DistinctIds(r)
  {
    var a := new Member[|captains|](i requires 0 <= i < |captains| => captains[i]);
    assert a[..] == captains;
    ghost var perm := Shuffle(a);
    PermutedDistinctIds(captains, a[..], perm);
    r := a[..2];
    assert a[..] == a[..2] + a[2..];
    assert multiset(a[..]) == multiset(a[..2]) + multiset(a[2..]);
  }

  /** The split of `createTeamChannels` (lines 203-207): a shuffled copy of
      the players goes alternately to blue and orange. Each player lands in
      exactly one team and the sizes differ by at most one. */
  method ShuffledSplit(players: seq<Member>) returns (toBlue: seq<Member>, toOrange: seq<Member>)
    requires DistinctIds(players)
    ensures |toBlue| == (|players| + 1) / 2 && |toOrange| == |players| / 2
    ensures multiset(toBlue) + multiset(toOrange) == multiset(players)
    ensures forall m :: m in toBlue ==> m !in toOrange
  {
    var a := new Member[|players|](i requires 0 <= i < |players| => players[i]);
    assert a[..] == players;
    ghost var perm := Shuffle(a);
    PermutedDistinctIds(players, a[..], perm);
    var shuffled := a[..];
    toBlue, toOrange := SplitAlternately(shuffled);
    AlternateDisjoint(shuffled, toBlue, toOrange);
  }

  /** Even and odd positions of a list with distinct ids share no member. */
  lemma AlternateDisjoint(s: seq<Member>, blue: seq<Member>, orange: seq<Member>)
    requires DistinctIds(s)
    requires forall k :: 0 <= k < |blue| ==> 2 * k < |s| && blue[k] == s[2 * k]
    requires forall k :: 0 <= k < |orange| ==> 2 * k + 1 < |s| && orange[k] == s[2 * k + 1]
    ensures forall m :: m in blue ==> m !in orange
  {
    forall k, l | 0 <= k < |blue| && 0 <= l < |orange| ensures blue[k] != orange[l] {
      if 2 * k < 2 * l + 1 {
        assert s[2 * k].id != s[2 * l + 1].id;
      } else {
        assert s[2 * l + 1].id != s[2 * k].id;
      }
    }
  }

  /** How the captain collector answers a click. */
  datatype CollectReply = NotParticipant | Recorded

  /** One match record of `activeMatches`. The players and channels are fixed
      at creation; captains, host, team channels and the reported flag are
      updated in place. The two flags say whether the captain and host
      collectors are still collecting. */
  class Match {
    const id: string
    const players: seq<Member>
    const text: ChannelId
    const voice: ChannelId
    var captains: seq<Member>
    var host: Option<Member>
    var teams: seq<ChannelId>
    var reported: bool
    var captainVoteOpen: bool
    var hostVoteOpen: bool

    ghost predicate Valid()
      reads this
    {
      && |players| == MatchSize
      && DistinctIds(players)
      && DistinctIds(captains)
      && (host.Some? ==> HasId(players, host.value.id))
      && !(captainVoteOpen && hostVoteOpen)
    }

    /** The record `startMatch` registers; the captain election opens at once. */
    constructor (id: string, players: seq<Member>, text: ChannelId, voice: ChannelId)
      requires |players| == MatchSize && DistinctIds(players)
      ensures Valid()
      ensures this.id == id && this.players == players && this.text == text && this.voice == voice
      ensures captains == [] && host == None && teams == [] && !reported
      ensures captainVoteOpen && !hostVoteOpen
    {
      this.id, this.players, this.text, this.voice := id, players, text, voice;
      captains, host, teams, reported := [], None, [], false;
      captainVoteOpen, hostVoteOpen := true, false;
    }

    /** `handleCaptain`, reached through the `cap:<id>` button: anyone whose id
        is not yet among the captains is appended. There is no participant
        check. */
    method HandleCaptain(clicker: Member) returns (already: bool)
      requires Valid()
      modifies this`captains
      ensures Valid()
      ensures already == HasId(old(captains), clicker.id)
      ensures captains == if already then old(captains) else old(captains) + [clicker]
    {
      already := exists m :: m in captains && m.id == clicker.id;
      if !already {
        captains := captains + [clicker];
      }
    }

    /** The captain collector's `collect` handler: a non-participant is told so
        and nothing changes; a participant not yet among the captains (by id)
        is appended. */
    method CollectCaptain(clicker: Member) returns (reply: CollectReply)
      requires Valid() && captainVoteOpen
      modifies this`captains
      ensures Valid()
      ensures reply == NotParticipant <==> !HasId(players, clicker.id)
      ensures reply == NotParticipant || HasId(old(captains), clicker.id) ==> captains == old(captains)
      ensures reply == Recorded && !HasId(old(captains), clicker.id) ==> captains == old(captains) + [clicker]
    {
      if !exists p :: p in players && p.id == clicker.id {
        return NotParticipant;
      }
      if !exists c :: c in captains && c.id == clicker.id {
        captains := captains + [clicker];
      }
      reply := Recorded;
    }

    /** One click on `cap:<id>` while the captain window is open: the global
        dispatcher runs `handleCaptain` first (its push happens before its
        first `await`), then the collector sees the click. The net effect is
        `handleCaptain`'s, for participants and non-participants alike. */
    method OnCaptainClick(clicker: Member) returns (reply: CollectReply)
      requires Valid() && captainVoteOpen
      modifies this`captains
      ensures Valid()
      ensures reply == NotParticipant <==> !HasId(players, clicker.id)
      ensures captains == if HasId(old(captains), clicker.id) then old(captains) else old(captains) + [clicker]
    {
      var already := HandleCaptain(clicker);
      if !already {
        assert captains[|captains| - 1] == clicker;
      }
      reply := CollectCaptain(clicker);
    }

    /** The end of the captain window: fewer than 2 captains are completed by
        distinct random draws among the other players, more than 2 are
        shuffled and cut to the first two; then the host election opens. */
    method EndCaptainVote()
      requires Valid() && captainVoteOpen
      modifies this`captains, this`captainVoteOpen, this`hostVoteOpen
      ensures Valid() && !captainVoteOpen && hostVoteOpen
      ensures |captains| == 2
      ensures |old(captains)| <= 2 ==> old(captains) <= captains
      ensures |old(captains)| <= 2 ==> forall m :: m in captains[|old(captains)|..] ==> m in players
      ensures |old(captains)| > 2 ==> multiset(captains) <= multiset(old(captains))
    {
      if |captains| < 2 {
        captains := FillCaptains(players, captains);
      } else if |captains| > 2 {
        captains := KeepTwoCaptains(captains);
      }
      captainVoteOpen, hostVoteOpen := false, true;
    }

    /** `handleHost`, reached through the `host:<id>` button: any participant
        becomes host, also after the election has ended. */
    method HandleHost(clicker: Member) returns (accepted: bool)
      requires Valid()
      modifies this`host
      ensures Valid()
      ensures accepted == HasId(players, clicker.id)
      ensures host == if accepted then Some(clicker) else old(host)
    {
      accepted := exists p :: p in players && p.id == clicker.id;
      if accepted {
        host := Some(clicker);
      }
    }

    /** The host collector's `collect` handler: the first participant to click
        becomes host and stops the collector; a non-participant changes
        nothing. */
    method CollectHost(clicker: Member) returns (reply: CollectReply)
      requires Valid() && hostVoteOpen
      modifies this`host, this`hostVoteOpen
      ensures Valid()
      ensures reply == NotParticipant <==> !HasId(players, clicker.id)
      ensures reply == NotParticipant ==> host == old(host) && hostVoteOpen
      ensures reply == Recorded ==> host == Some(clicker) && !hostVoteOpen
    {
      if !exists p :: p in players && p.id == clicker.id {
        return NotParticipant;
      }
      host := Some(clicker);
      hostVoteOpen := false;
      reply := Recorded;
    }

    /** One click on `host:<id>` while the host window is open: `handleHost`
        and then the collector. */
    method OnHostClick(clicker: Member) returns (reply: CollectReply)
      requires Valid() && hostVoteOpen
      modifies this`host, this`hostVoteOpen
      ensures Valid()
      ensures reply == NotParticipant <==> !HasId(players, clicker.id)
      ensures reply == NotParticipant ==> host == old(host) && hostVoteOpen
      ensures reply == Recorded ==> host == Some(clicker) && !hostVoteOpen
    {
      var _ := HandleHost(clicker);
      reply := CollectHost(clicker);
    }

    /** The host window runs out with the collector still open: when nobody
        volunteered, the first player is host. */
    method EndHostVote()
      requires Valid() && hostVoteOpen
      modifies this`host, this`hostVoteOpen
      ensures Valid() && !hostVoteOpen
      ensures host == if old(host).Some? then old(host) else Some(players[0])
    {
      hostVoteOpen := false;
      if host.None? {
        host := Some(players[0]);
        assert players[0] in players;
      }
    }

    /** `createTeamChannels`: records the two new team channels and splits a
        shuffled copy of the players alternately into blue and orange. The
        moves into the channels are the returned assignment. */
    method CreateTeamChannels(blue: ChannelId, orange: ChannelId) returns (toBlue: seq<Member>, toOrange: seq<Member>)
      requires Valid()
      modifies this`teams
      ensures Valid() && teams == [blue, orange]
      ensures |toBlue| == 2 && |toOrange| == 2
      ensures multiset(toBlue) + multiset(toOrange) == multiset(players)
      ensures forall m :: m in toBlue ==> m !in toOrange
    {
      teams := [blue, orange];
      toBlue, toOrange := ShuffledSplit(players);
    }

    /** `handleReport`: the report is saved first; only when that request
        succeeds is the match marked as reported. */
    method Report(saved: bool)
      requires Valid()
      modifies this`reported
      ensures Valid()
      ensures reported == (old(reported) || saved)
    {
      if saved {
        reported := true;
      }
    }
  }

  /** `order` without the entries equal to `id`. */
  function Without(order: seq<string>, id: string): (r: seq<string>)
    ensures forall x :: x in r <==> x in order && x != id
  {
    if order == [] then []
    else if order[0] == id then Without(order[1..], id)
    else [order[0]] + Without(order[1..], id)
  }

  lemma {:induction false} WithoutAbsent(order: seq<string>, id: string)
    requires id !in order
    ensures Without(order, id) == order
  {
    if order != [] {
      assert order[0] != id && id !in order[1..];
      WithoutAbsent(order[1..], id);
    }
  }

  /** `Map.delete` keeps the other keys in their insertion order: the keys
      before the deleted one, followed by the keys after it. */
  lemma {:induction false} WithoutKeepsOrder(a: seq<string>, id: string, b: seq<string>)
    requires id !in a && id !in b
    ensures Without(a + [id] + b, id) == a + b
  {
    if a == [] {
      assert a + [id] + b == [id] + b && ([id] + b)[1..] == b;
      WithoutAbsent(b, id);
    } else {
      assert (a + [id] + b)[0] == a[0] && (a + [id] + b)[1..] == a[1..] + [id] + b;
      assert id !in a[1..];
      WithoutKeepsOrder(a[1..], id, b);
      assert a + b == [a[0]] + (a[1..] + b);
    }
  }

  predicate NoDuplicates(s: seq<string>)
  {
    forall i, j :: 0 <= i < j < |s| ==> s[i] != s[j]
  }

  lemma {:induction false} WithoutKeepsNoDuplicates(order: seq<string>, id: string)
    requires NoDuplicates(order)
    ensures NoDuplicates(Without(order, id))
  {
    if order != [] {
      assert NoDuplicates(order[1..]) by {
        forall i, j | 0 <= i < j < |order[1..]| ensures order[1..][i] != order[1..][j] {
          assert order[i + 1] != order[j + 1];
        }
      }
      WithoutKeepsNoDuplicates(order[1..], id);
      if order[0] != id {
        var r := Without(order[1..], id);
        forall k | 0 <= k < |r| ensures r[k] != order[0] {
          assert r[k] in order[1..];
          var p :| 0 <= p < |order[1..]| && order[1..][p] == r[k];
          assert order[p + 1] != order[0];
        }
      }
    }
  }

  /** Does match `m` have this user as its host? */
  predicate HostedBy(m: Match, user: UserId)
    reads m
  {
    m.host.Some? && m.host.value.id == user
  }

  /** The module-level `activeMatches` map and `matchCount`. A JavaScript Map
      iterates in insertion order; `order` records it. */
  class Registry {
    var matches: map<string, Match>
    var order: seq<string>
    var matchCount: nat

    ghost predicate Valid()
      reads this, matches.Values
    {
      && NoDuplicates(order)
      && (forall id :: id in matches <==> id in order)
      && (forall id :: id in matches ==> matches[id].id == id && matches[id].Valid())
    }

    constructor ()
      ensures Valid() && matches == map[] && order == [] && matchCount == 0
    {
      matches, order, matchCount := map[], [], 0;
    }

    /** `startMatch`: the counter goes up; when the channels and the session
        rows were created (`created`), the new record is registered under the
        session id and its captain election opens. */
    method StartMatch(players: seq<Member>, sessionId: string, text: ChannelId, voice: ChannelId, created: bool)
      returns (m: Option<Match>)
      requires Valid() && |players| == MatchSize && DistinctIds(players)
      modifies this
      ensures Valid() && matchCount == old(matchCount) + 1
      ensures !created ==> m == None && matches == old(matches) && order == old(order)
      ensures created ==> m.Some? && fresh(m.value) && m.value.id == sessionId && m.value.players == players
      ensures created ==> m.value.captainVoteOpen && m.value.captains == [] && m.value.host == None && !m.value.reported
      ensures created ==> matches == old(matches)[sessionId := m.value]
      ensures created ==> order == if sessionId in old(matches) then old(order) else old(order) + [sessionId]
    {
      matchCount := matchCount + 1;
      if !created {
        return None;
      }
      var record := new Match(sessionId, players, text, voice);
      if sessionId !in matches {
        order := order + [sessionId];
      }
      matches := matches[sessionId := record];
      m := Some(record);
    }

    /** The `voiceStateUpdate` handler: a match starts exactly when the lobby's
        non-bot member count is 4; any other update changes nothing. */
    method OnVoiceStateUpdate(channel: Option<VoiceChannel>, sessionId: string, text: ChannelId, voice: ChannelId, created: bool)
      returns (m: Option<Match>)
      requires Valid()
      requires channel.Some? ==> forall i, j :: 0 <= i < j < |channel.value.members| ==>
                 channel.value.members[i].member.id != channel.value.members[j].member.id
      modifies this
      ensures Valid()
      ensures LobbyQuorum(channel).None? ==> m == None && unchanged(this)
      ensures LobbyQuorum(channel).Some? ==> matchCount == old(matchCount) + 1
      ensures LobbyQuorum(channel).Some? && !created ==> m == None && matches == old(matches) && order == old(order)
      ensures LobbyQuorum(channel).Some? && created ==>
                m.Some? && fresh(m.value) && m.value.id == sessionId && m.value.players == LobbyQuorum(channel).value
      ensures LobbyQuorum(channel).Some? && created ==>
                m.value.captainVoteOpen && m.value.captains == [] && m.value.host == None && !m.value.reported
      ensures LobbyQuorum(channel).Some? && created ==>
                matches == old(matches)[sessionId := m.value]
                && order == if sessionId in old(matches) then old(order) else old(order) + [sessionId]
    {
      m := None;
      var quorum := LobbyQuorum(channel);
      if quorum.Some? {
        NonBotKeepsDistinctIds(channel.value.members);
        m := StartMatch(quorum.value, sessionId, text, voice, created);
      }
    }

    /** The first match, in insertion order from position `from`, hosted by
        `user` (the `find` of `handleHostConfigCommand`). */
    function FirstHosted(user: UserId, from: nat): (r: Option<nat>)
      reads this, matches.Values
      requires Valid() && from <= |order|
      ensures r.Some? ==> from <= r.value < |order| && order[r.value] in matches
      ensures r.Some? ==> HostedBy(matches[order[r.value]], user)
      ensures r.Some? ==> forall k :: from <= k < r.value ==> !HostedBy(matches[order[k]], user)
      ensures r.None? ==> forall k :: from <= k < |order| ==> !HostedBy(matches[order[k]], user)
      decreases |order| - from
    {
      if from == |order| then None
      else if HostedBy(matches[order[from]], user) then Some(from)
      else FirstHosted(user, from + 1)
    }

    /** `/host-config`: a user who hosts no active match gets a reply and
        nothing changes. Otherwise, once the name and password are saved
        (`saved`), the first match they host gets its team channels and
        split. */
    method HandleHostConfigCommand(user: UserId, saved: bool, blue: ChannelId, orange: ChannelId)
      returns (target: Option<Match>, toBlue: seq<Member>, toOrange: seq<Member>)
      requires Valid()
      modifies matches.Values
      ensures Valid()
      ensures target.None? <==> old(FirstHosted(user, 0)).None?
      ensures target.Some? ==> target.value == matches[order[old(FirstHosted(user, 0)).value]]
      ensures forall x :: x in matches.Values && (target.None? || !saved || x != target.value) ==> unchanged(x)
      ensures target.Some? && saved ==> target.value.teams == [blue, orange] && |toBlue| == 2 && |toOrange| == 2
      ensures target.Some? && saved ==>
                multiset(toBlue) + multiset(toOrange) == multiset(target.value.players)
      ensures target.Some? ==> var m := target.value;
        && m.captains == old(m.captains) && m.host == old(m.host) && m.reported == old(m.reported)
        && m.captainVoteOpen == old(m.captainVoteOpen) && m.hostVoteOpen == old(m.hostVoteOpen)
    {
      toBlue, toOrange := [], [];
      var k := FirstHosted(user, 0);
      if k.None? {
        return None, [], [];
      }
      var m := matches[order[k.value]];
      target := Some(m);
      if saved {
        toBlue, toOrange := m.CreateTeamChannels(blue, orange);
      }
    }

    /** The `interactionCreate` dispatcher for buttons `cap:<id>`,
        `host:<id>` and `report:<id>`: an id that names no active match is
        ignored; otherwise the action's handler runs on that match and no other
        match changes. */
    method OnButton(customId: string, clicker: Member, saved: bool) returns (routed: Option<Match>)
      requires Valid()
      modifies matches.Values
      ensures Valid()
      ensures var id := SplitTwo(customId, ':').1;
              routed.Some? <==> id.Some? && id.value in matches
      ensures routed.Some? ==> routed.value == matches[SplitTwo(customId, ':').1.value]
      ensures forall x :: x in matches.Values && (routed.None? || x != routed.value) ==> unchanged(x)
      ensures routed.Some? ==> var m, action := routed.value, SplitTwo(customId, ':').0;
        && (action == "cap" ==>
              m.captains == (if HasId(old(m.captains), clicker.id) then old(m.captains) else old(m.captains) + [clicker]))
        && (action == "host" ==>
              m.host == (if HasId(m.players, clicker.id) then Some(clicker) else old(m.host)))
        && (action == "report" ==> m.reported == (old(m.reported) || saved))
        && (action != "cap" && action != "host" && action != "report" ==> unchanged(m))
      // each handler changes only its own field of the routed match
      ensures routed.Some? ==> var m, action := routed.value, SplitTwo(customId, ':').0;
        && (action != "cap" ==> m.captains == old(m.captains))
        && (action != "host" ==> m.host == old(m.host))
        && (action != "report" ==> m.reported == old(m.reported))
        && m.teams == old(m.teams)
        && m.captainVoteOpen == old(m.captainVoteOpen) && m.hostVoteOpen == old(m.hostVoteOpen)
    {
      var (action, id) := SplitTwo(customId, ':');
      if id.None? || id.value !in matches {
        return None;
      }
      var m := matches[id.value];
      routed := Some(m);
      if action == "cap" {
        var _ := m.HandleCaptain(clicker);
      } else if action == "host" {
        var _ := m.HandleHost(clicker);
      } else if action == "report" {
        m.Report(saved);
      }
    }

    /** `handleMatchEnd`: with no active match nothing happens; otherwise the
        most recently inserted match is finished (whoever played it) and its
        report window opens, provided its Supabase updates (`saved`) succeed. */
    method HandleMatchEnd(saved: bool) returns (ended: Option<Match>)
      requires Valid()
      ensures ended.Some? <==> saved && matches != map[]
      ensures ended.Some? ==> |order| > 0 && ended.value == matches[order[|order| - 1]]
    {
      if |order| == 0 {
        assert forall id :: id !in matches;
        return None;
      }
      assert order[|order| - 1] in order;
      if !saved {
        return None;
      }
      ended := Some(matches[order[|order| - 1]]);
    }

    /** The 2-minute timer of the report window: the text channel is deleted
        only when nobody reported, and the match leaves the registry either
        way. */
    method ExpireReportWindow(m: Match) returns (deleteText: bool)
      requires Valid()
      modifies this
      ensures Valid()
      ensures deleteText == !m.reported
      ensures matches == old(matches) - {m.id} && order == Without(old(order), m.id)
      ensures matchCount == old(matchCount)
    {
      deleteText := !m.reported;
      WithoutKeepsNoDuplicates(order, m.id);
      matches := matches - {m.id};
      order := Without(order, m.id);
    }
  }
}
