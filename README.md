# AuusaConnect match sessions, in Dafny

A model of the match-session logic of the AuusaConnect Discord bot and of
two helpers of its Rocket League plugin, with proofs of the rules they keep.

- `advanced_matchmaking.dfy` (`AdvancedMatchmaking`): the 2v2 lobby. The
  `activeMatches` registry is a `Registry` class holding `Match` records.
  Events are methods: a voice-state update, button clicks, collector ends,
  `/host-config`, match end, and the report timer. A lobby of four starts a
  match. Two captains and a host are elected. The host configures the game,
  and the players are shuffled (Fisher–Yates, in place on an array) and
  split alternately into blue and orange. When the match ends, a report
  window opens before the match leaves the registry.
- `matchmaking.dfy` (`RankedMatchmaking`): the ranked queue. It covers the
  mode table, the ready check (a `ReadyCheck` class over the ready set and
  the stop reason), the end-of-check decision, the host pool, and the
  `bans` strike map (a `BanTracker` class) with its escalating announced
  length, the timers that lift the ban role, and its
  midnight reset.
- `rank_verifier.dfy` (`RankVerifier`): the MMR-to-rank table, `computeRank`,
  and `verifyPlayer` as a lookup in a parsed JSON object.
- `scoring.dfy` (`Scoring`): the post-match helpers. These are the man of
  the match, `sum`, `rotationScore`, `boldIfGreater`, `analyzeTeam`'s note,
  comment and lists, and the id of the player-detail menu.
- `registration.dfy` (`Registration`): the URL `sbRequest` fetches, `trim`,
  and the registration rules. A pseudo belongs to one account, the default
  MMR is 1200, and the nickname is `[mmr] pseudo`. The `users` table is a
  sequence of rows.
- `plugin.dfy` (`Plugin`): the plugin's `Base64UrlDecode` (the base64url
  alphabet of section 5 of RFC 4648), proved against a decoding function,
  and `ParseJwtExpiry`'s slicing of the JWT payload segment (section 7.2 of
  RFC 7519). The decoder is also proved to invert an encoder.
- `common.dfy` (`Common`): `Option`, `Result`, `indexOf`/`find`, `split`
  and `replace` on sequences.

Random draws (`Math.random`) are nondeterministic choices (`:|`). Collector
windows and timers are explicit event methods. What Discord or Supabase
returns is passed in as a parameter: new ids, and whether a request
succeeded (`created`, `saved`). JavaScript numbers in the scoring and rank
code are `real`.

Four behaviours of the code are worth knowing before reading the model:

- Captains are not restricted to the match's members. The global `cap:`
  button handler (`handleCaptain`) appends anyone who clicks, participant or
  not. `Match.HandleCaptain` and `Match.OnCaptainClick` state this.
- `handleMatchEnd` ends the most recently inserted match. It does not look
  for the match its caller played in.
- `createTeamChannels` does a plain random split of all four players. It
  does not seed either team with a captain. `Match.CreateTeamChannels` and
  `ShuffledSplit` state this.
- Host volunteers are not limited to the first. The global `host:` handler
  (`handleHost`) lets any participant overwrite the host at any time, also
  after the election. `Match.HandleHost` states this.

## Model

| member | source | states |
|---|---|---|
| Common.Find | bot/registration.js:20 | `indexOf` from a position: the first index holding the element, or none exactly when no later position holds it |
| Common.SplitTwoRoundTrip | bot/advancedMatchmaking.js:52 | `split(':')` of `a:b`, with no `:` in either part, gives back `a` and `b` |
| Common.ReplaceFirstAtFront | bot/index.js:286 | `replace` of a prefix that the text starts with removes exactly that prefix |
| AdvancedMatchmaking.NonBot | bot/advancedMatchmaking.js:44 | the non-bot filter keeps every non-bot member and only members that were in the channel as non-bots |
| AdvancedMatchmaking.NonBotKeepsDistinctIds | bot/advancedMatchmaking.js:44 | a channel whose members have distinct ids yields players with distinct ids |
| AdvancedMatchmaking.LobbyQuorum | bot/advancedMatchmaking.js:39-47 | a match starts exactly when the channel is `🎮│2v2` and has exactly 4 non-bot members, and it starts with those members |
| AdvancedMatchmaking.RestByReference | bot/advancedMatchmaking.js:128 | as written: the candidates are the players not in `captains` by object identity |
| AdvancedMatchmaking.RestByReferenceCanRepeatCaptain | bot/advancedMatchmaking.js:123-131 | a captain pushed as a member object distinct from the player entry of the same user stays among the candidates, so the fill can repeat a user |
| AdvancedMatchmaking.RestById | bot/advancedMatchmaking.js:128 | corrected: the candidates are exactly the players whose id is not among the captains, with distinct ids kept |
| AdvancedMatchmaking.RestByIdSize | bot/advancedMatchmaking.js:127-129 | with distinct player ids and at most one captain, there are at least `players - captains` candidates |
| AdvancedMatchmaking.Shuffle | bot/advancedMatchmaking.js:234-240 | the in-place Fisher–Yates shuffle leaves a permutation of the array: same multiset, and each slot holds the original element of a distinct index |
| AdvancedMatchmaking.SplitAlternately | bot/advancedMatchmaking.js:204-207 | position `2k` goes to blue and `2k+1` to orange; the sizes are `⌈n/2⌉` and `⌊n/2⌋`, and together the teams are the input multiset |
| AdvancedMatchmaking.FillCaptains | bot/advancedMatchmaking.js:127-132 | with 4 players and fewer than 2 captains, the loop of random distinct picks keeps the existing captains as a prefix, adds only players, keeps ids distinct and ends with exactly 2 |
| AdvancedMatchmaking.KeepTwoCaptains | bot/advancedMatchmaking.js:133-135 | more than 2 proposals: the first two of a shuffled copy, which are 2 distinct proposed captains |
| AdvancedMatchmaking.ShuffledSplit | bot/advancedMatchmaking.js:203-207 | every player lands in exactly one team, and the team sizes differ by at most one |
| AdvancedMatchmaking.Match.constructor | bot/advancedMatchmaking.js:107 | a new record has no captains, no host, no teams and is not reported; its captain election is open |
| AdvancedMatchmaking.Match.HandleCaptain | bot/advancedMatchmaking.js:165-172 | anyone whose id is not yet a captain's is appended, with no participant check; otherwise nothing changes |
| AdvancedMatchmaking.Match.CollectCaptain | bot/advancedMatchmaking.js:118-125 | a non-participant is refused and changes nothing; a participant is appended unless a captain already has their id |
| AdvancedMatchmaking.Match.OnCaptainClick | bot/advancedMatchmaking.js:50-58 | a click seen by both the dispatcher and the collector appends the clicker once, whether or not they are a participant |
| AdvancedMatchmaking.Match.EndCaptainVote | bot/advancedMatchmaking.js:126-137 | when the window ends there are exactly 2 captains: fewer were completed with players (compared by id, the corrected form of line 128), more were cut to 2 of themselves; the host election opens |
| AdvancedMatchmaking.Match.HandleHost | bot/advancedMatchmaking.js:174-181 | any participant becomes host, also after the election; a non-participant changes nothing |
| AdvancedMatchmaking.Match.CollectHost | bot/advancedMatchmaking.js:147-155 | the first participant click sets the host and closes the election; a non-participant click changes nothing |
| AdvancedMatchmaking.Match.OnHostClick | bot/advancedMatchmaking.js:55-56 | a click on `host:` during the election has the collector's effect |
| AdvancedMatchmaking.Match.EndHostVote | bot/advancedMatchmaking.js:156-160 | with no volunteer the first player is host; otherwise the host stays |
| AdvancedMatchmaking.Match.CreateTeamChannels | bot/advancedMatchmaking.js:183-207 | records the two team channels and splits the 4 players 2 and 2, each in exactly one team |
| AdvancedMatchmaking.Match.Report | bot/advancedMatchmaking.js:228-232 | the match is marked reported once the report is saved, and only then |
| AdvancedMatchmaking.Without | bot/advancedMatchmaking.js:224 | deleting a key from the insertion order keeps exactly the other keys |
| AdvancedMatchmaking.WithoutAbsent | bot/advancedMatchmaking.js:224 | deleting a key that is not there leaves the insertion order as it was |
| AdvancedMatchmaking.WithoutKeepsOrder | bot/advancedMatchmaking.js:224 | deleting a key keeps the other keys in insertion order: those before it, then those after it |
| AdvancedMatchmaking.Registry.constructor | bot/advancedMatchmaking.js:35-36 | the registry starts empty with a count of 0 |
| AdvancedMatchmaking.Registry.StartMatch | bot/advancedMatchmaking.js:79-110 | the counter goes up; once the session exists, a fresh record with the given players is registered under the session id, last in insertion order |
| AdvancedMatchmaking.Registry.OnVoiceStateUpdate | bot/advancedMatchmaking.js:41-47 | an update that is not a quorum changes nothing; a quorum raises the counter and, when the session is created, registers a fresh record with the lobby's non-bot members last in insertion order; when creation fails only the counter changes |
| AdvancedMatchmaking.Registry.FirstHosted | bot/advancedMatchmaking.js:65 | the first match, in insertion order, whose host is the user, or none when no match has them as host |
| AdvancedMatchmaking.Registry.HandleHostConfigCommand | bot/advancedMatchmaking.js:62-77 | a user who hosts no match changes nothing; otherwise the first match they host is found, and once the name and password are saved it gets its team channels and a 2-and-2 split of its players; its captains, host, report flag and elections stay, and no other match changes |
| AdvancedMatchmaking.Registry.OnButton | bot/advancedMatchmaking.js:50-59 | a button naming no active match is ignored; otherwise `cap`, `host` or `report` runs on that match alone and changes only its own field (captains, host, reported); teams and elections stay |
| AdvancedMatchmaking.Registry.HandleMatchEnd | bot/advancedMatchmaking.js:210-221 | a match is ended exactly when one is active and its updates are saved, and it is the most recently inserted one |
| AdvancedMatchmaking.Registry.ExpireReportWindow | bot/advancedMatchmaking.js:222-225 | the text channel is deleted exactly when the match was not reported, and the match leaves the registry either way |
| RankedMatchmaking.NonBot | bot/matchmaking.js:33 | keeps exactly the non-bot members |
| RankedMatchmaking.QuorumByMode | bot/matchmaking.js:30-37 | 1v1 starts exactly at 2 non-bot members and 2v2 exactly at 4; no other channel starts a match |
| RankedMatchmaking.BanMinutesFirstSix | bot/matchmaking.js:142 | strikes 1 to 6 give 5, 10, 20, 30, 60 and 120 minutes |
| RankedMatchmaking.BanMinutesDoubles | bot/matchmaking.js:142 | from the fifth strike on, the next strike doubles the ban |
| RankedMatchmaking.BanMinutesMonotone | bot/matchmaking.js:142 | more strikes never give a shorter announced ban length |
| RankedMatchmaking.BanTracker.constructor | bot/matchmaking.js:19 | no strikes recorded |
| RankedMatchmaking.BanTracker.ApplyBan | bot/matchmaking.js:137-148 | a member missing from the guild changes nothing; otherwise only their count rises by 1 (from 0 when absent), the announced ban length is the minutes of the new count, and the role's removal is the corrected timer chain for that count |
| RankedMatchmaking.TimerDelay | bot/matchmaking.js:146-148 | the delay Node waits is always between 1 ms and 2^31−1 ms, and equals the requested delay exactly when that lies in this range |
| RankedMatchmaking.RoleHeldAsWritten | bot/matchmaking.js:146-148 | the single removal timer as written never holds the role longer than 2^31−1 ms |
| RankedMatchmaking.RoleHeldAsWrittenBreaksAtFifteen | bot/matchmaking.js:142-148 | up to strike 14 the role is held for the announced minutes; from strike 15 (61440 minutes announced) it is removed after 1 ms |
| RankedMatchmaking.RemovalTimers | bot/matchmaking.js:146-148 | a chain of delays that Node honours one by one and that add up to exactly the requested time |
| RankedMatchmaking.RoleTimers | bot/matchmaking.js:142-148 | the corrected removal holds the role for exactly the announced minutes at every strike count |
| RankedMatchmaking.RoleTimersAgreeBelowFifteen | bot/matchmaking.js:142-148 | up to strike 14 the corrected chain is the single timer as written; from strike 15 on it needs at least two timers |
| RankedMatchmaking.BanTracker.DailySweep | bot/matchmaking.js:23-28 | at 00:00 every count becomes 0 and every user stays recorded; at any other time nothing changes |
| RankedMatchmaking.ReadyCheck.constructor | bot/matchmaking.js:81-82 | nobody ready, not stopped |
| RankedMatchmaking.ReadyCheck.Stop | bot/matchmaking.js:94-96 | only the first stop reason counts |
| RankedMatchmaking.ReadyCheck.Collect | bot/matchmaking.js:84-97 | a non-participant changes nothing; `ready_yes` adds the voter and stops with `validated` once everyone is ready, and a repeated ✅ leaves the set as it was and stops the check only if everyone was already ready; any other button stops with `refused:<id>` |
| RankedMatchmaking.ReadyCheck.Timeout | bot/matchmaking.js:82 | the window running out stops the check with reason `time` |
| RankedMatchmaking.ReadyEndOutcomes | bot/matchmaking.js:99-114 | `validated` starts the game; a timeout cancels with no strike; a refusal cancels and strikes the refusing id exactly when the ban role exists |
| RankedMatchmaking.NonConsole | bot/matchmaking.js:118 | keeps exactly the players without the Console role |
| RankedMatchmaking.WithBakkes | bot/matchmaking.js:119 | keeps exactly the players with the BakkesMod role |
| RankedMatchmaking.ChooseHost | bot/matchmaking.js:117-121 | no host exactly when every player is on Console; otherwise a non-Console player, and a BakkesMod holder whenever a non-Console one exists |
| RankedMatchmaking.EndReadyCheck | bot/matchmaking.js:99-114 | `validated` picks a host and strikes nobody; a refusal with the ban role applies the strike to the refusing member; any other end leaves the strikes alone |
| RankVerifier.RankIndexFrom | bot/rankVerifier.js:19-22 | the scan stops at the first range holding the MMR, or finds none when no range does |
| RankVerifier.ComputeRank | bot/rankVerifier.js:18-23 | `Unranked` exactly when no range holds the MMR; otherwise the name of a range that holds it |
| RankVerifier.TableIsContiguous | bot/rankVerifier.js:8-16 | the table starts at 0, each range ends one below the next one's start, and only the last is unbounded |
| RankVerifier.RangesOrdered | bot/rankVerifier.js:8-16 | every range ends below the start of every later range |
| RankVerifier.RankIndexOfRange | bot/rankVerifier.js:18-23 | the range that holds the MMR is the one the scan returns |
| RankVerifier.ComputeRankExamples | bot/tests/rankVerifier.test.js:3-7 | 900 is Bronze, 1100 Silver and 1600 Gold |
| RankVerifier.EveryWholeMmrRanked | bot/rankVerifier.js:8-21 | every whole MMR of at least 0 lies in exactly one range and has a named rank |
| RankVerifier.GapsAreUnranked | bot/rankVerifier.js:18-23 | negative MMR, and values strictly between one range's end and the next one's start, are `Unranked` |
| RankVerifier.GapExampleUnranked | bot/rankVerifier.js:9-10 | 999.5 is `Unranked` |
| RankVerifier.TopRank | bot/rankVerifier.js:15 | 3500 and above is Grand Champion |
| RankVerifier.RankMonotone | bot/rankVerifier.js:8-16 | a higher ranked MMR never gets a lower range |
| RankVerifier.VerifyPlayer | bot/rankVerifier.js:25-30 | `Joueur inconnu` exactly when the name is missing or not a number; otherwise the name, the MMR and `computeRank` of it |
| RankVerifier.VerifyPlayerRank | bot/rankVerifier.js:25-30 | a listed player's rank is the name of the range their MMR falls in |
| Scoring.Rotation | bot/index.js:47-50 | the rotation counts only when it is a positive number, and is 0 otherwise |
| Scoring.CalculateMotm | bot/index.js:43-64 | none and −∞ for no players; otherwise a player of maximal value, the earliest on ties, with that value |
| Scoring.SumAppend | bot/index.js:66 | totals over two groups of players add up |
| Scoring.SumMissing | bot/index.js:66 | a field nobody has, and an empty list, sum to 0 |
| Scoring.QualitiesMembers | bot/index.js:68 | the `valid` filter keeps every positive rotation quality and nothing else |
| Scoring.RotationScore | bot/index.js:67-69 | 0 when nobody has a positive rotation quality |
| Scoring.Round | bot/index.js:71 | `Math.round` is the integer within a half below and under a half above |
| Scoring.RotationScoreIsPercentage | bot/index.js:67-72 | with qualities in (0, 1] the score lies in 0..100 |
| Scoring.BoldIfGreater | bot/index.js:74-78 | both values in input order; exactly the strictly larger one bolded, neither on a tie |
| Scoring.BoldIfGreaterSymmetric | bot/index.js:74-78 | swapping the values swaps the cells |
| Scoring.Clamp | bot/index.js:82 | the note lies in [0, 100] and is the raw value whenever that does |
| Scoring.Comment | bot/index.js:83-86 | each comment is chosen exactly on its band of the thresholds 80, 60 and 40 |
| Scoring.SelectedMembers | bot/index.js:88-104 | a label is pushed exactly when one of its positions has a true condition |
| Scoring.SelectedFour | bot/index.js:88-92 | four conditional pushes leave the labels whose condition holds, in order |
| Scoring.SelectedMember | bot/index.js:88-104 | with distinct labels, a label is listed exactly when its own condition holds |
| Scoring.PushWhen | bot/index.js:88-92 | the pushes build the selected labels |
| Scoring.AnalyzeTeam | bot/index.js:80-107 | the note is the clamped formula and lies in [0, 100]; the comment matches it; each list holds the labels whose condition on the team totals holds |
| Scoring.AnalysisListsAgree | bot/index.js:95-104 | each label appears exactly when its condition holds; the double-commit and defence weaknesses come with their advice; a rotation score of exactly 70 gives neither the rotation strength nor the rotation advice |
| Scoring.DetailMatchId | bot/index.js:285-286 | only ids starting with `select_joueur_detail_` are handled |
| Scoring.DetailMenuIdRoundTrip | bot/index.js:246 | stripping the prefix from the menu id of a message gives back the message id |
| Scoring.DetailMatchIdRoundTrip | bot/index.js:285-286 | every handled id is the menu id of the match id taken from it |
| Registration.BaseUrl | bot/registration.js:16 | `BASE_URL` is undefined exactly without a configured URL; a final `/rest/v1` or `/rest/v1/` is removed and anything else is kept |
| Registration.BaseUrlStripsSuffix | bot/registration.js:16 | a project URL with either suffix gives the same base |
| Registration.PathAndQuery | bot/registration.js:19-25 | without `?` the table and query pass through; otherwise the path is the text before the first `?`, and the text after it goes in front of the query, joined by `&` |
| Registration.WithSelect | bot/registration.js:26-28 | POST and PATCH get `select=*` unless the query already has `select=` in any case; other verbs are unchanged |
| Registration.WithSelectSelects | bot/registration.js:26-28 | the result selects columns, or is the query unchanged |
| Registration.WithSelectIdempotent | bot/registration.js:26-28 | applying the `select=*` step again changes nothing |
| Registration.RequestUrlOfPlainTable | bot/registration.js:29 | the URL is base, `/rest/v1/` and the path, then `?` and the query only when there is one |
| Registration.FilterInTableName | bot/registration.js:19-29 | a filter in the table name after `?` gives the same URL as the filter passed as the query |
| Registration.Trim | bot/registration.js:147 | `trim` returns a slice with only white space cut off either end and no white space at its ends |
| Registration.TrimIdempotent | bot/registration.js:147 | trimming twice is trimming once |
| Registration.IntToStringRoundTrip | bot/registration.js:206 | the decimal text of an MMR reads back as that MMR |
| Registration.NicknameRoundTrip | bot/registration.js:206 | the nickname `[mmr] pseudo` carries the MMR and the pseudo without loss |
| Registration.RowsNamed | bot/registration.js:156-158 | the `rl_name=eq.` query returns exactly the rows with that pseudo |
| Registration.RowsOf | bot/registration.js:166-168 | the `discord_id=eq.` query returns exactly the account's rows |
| Registration.PatchRows | bot/registration.js:170-177 | the PATCH rewrites exactly the account's rows, each with the new pseudo and, when asked, an MMR of 1200 |
| Registration.PatchRowsEffect | bot/registration.js:170-177 | other accounts' rows survive the PATCH; each of the account's rows comes out with the new pseudo and 1200 or its own MMR |
| Registration.RefetchAfterPatch | bot/registration.js:175-180 | reading the account back after the PATCH gives its first row, patched |
| Registration.RefetchAfterInsert | bot/registration.js:182-188 | the rows the POST returns for the account are the new row alone |
| Registration.RegisterRefusal | bot/registration.js:156-164 | refused exactly when the first row holding the pseudo is another account's, and then the table is unchanged |
| Registration.RegisterNewPlayer | bot/registration.js:181-190 | a first-time player gets a new row with MMR 1200, and the nickname shows 1200 |
| Registration.RegisterExistingPlayer | bot/registration.js:169-180 | the account's rows take the pseudo; all get 1200 when the first had no MMR, otherwise they keep theirs; the nickname shows the first row's MMR |
| Registration.RegisterKeepsPseudosUnique | bot/registration.js:156-189 | registration keeps every pseudo tied to a single account |
| Plugin.AlphabetLayout | plugin/MatchmakingPlugin.cpp:28-29 | the alphabet has 64 characters: `A`–`Z`, `a`–`z`, `0`–`9`, `+`, `/` in value order |
| Plugin.ValueOf | plugin/MatchmakingPlugin.cpp:36-38 | a value found for a character is below 64 and is that character's position |
| Plugin.ValueOfStdChar | plugin/MatchmakingPlugin.cpp:36-38 | every alphabet character has its position as value |
| Plugin.FindIsValueOf | plugin/MatchmakingPlugin.cpp:36 | `chars.find(c)` is the value of `c`, or npos exactly for characters outside the alphabet |
| Plugin.Replaced | plugin/MatchmakingPlugin.cpp:24-25 | `std::replace` changes every occurrence of one character and nothing else |
| Plugin.Replace | plugin/MatchmakingPlugin.cpp:24-25 | the in-place replacement loop computes `Replaced` |
| Plugin.ReplacesGiveStd | plugin/MatchmakingPlugin.cpp:24-25 | the two replacements turn the url-safe spelling into the standard one |
| Plugin.PaddedShape | plugin/MatchmakingPlugin.cpp:26-27 | padding appends fewer than 4 `=`, reaching the first multiple of 4 |
| Plugin.Pad | plugin/MatchmakingPlugin.cpp:26-27 | the padding loop computes `Padded` |
| Plugin.Sextets | plugin/MatchmakingPlugin.cpp:32-38 | at most one value is read per character, and each is below 64 |
| Plugin.DecodeLoopStep | plugin/MatchmakingPlugin.cpp:39-45 | one loop turn (shift in 6 bits, emit the byte above `valb` when 8 are ready) keeps the result of decoding the rest unchanged |
| Plugin.Base64UrlDecode | plugin/MatchmakingPlugin.cpp:21-48 | the decoder's output is `Decode` of its input |
| Plugin.DecodeAccLength | plugin/MatchmakingPlugin.cpp:39-45 | the output grows by one byte for every 8 bits accumulated, counting the bits already held |
| Plugin.DecodeUnpadded | plugin/MatchmakingPlugin.cpp:26-27 | decoding ignores the padding the decoder adds |
| Plugin.DecodeLength | plugin/MatchmakingPlugin.cpp:39-45 | the output has ⌊6k/8⌋ bytes for k characters read, at most 3/4 of the input length |
| Plugin.SextetsStop | plugin/MatchmakingPlugin.cpp:34-38 | reading stops at `=` or at a character outside the alphabet |
| Plugin.PaddingIsIgnored | plugin/MatchmakingPlugin.cpp:34-35 | any number of trailing `=` leaves the output unchanged |
| Plugin.StopsAtForeignCharacter | plugin/MatchmakingPlugin.cpp:34-38 | nothing after the first `=` or foreign character affects the output |
| Plugin.SpellingsDecodeAlike | plugin/MatchmakingPlugin.cpp:24-25 | url-safe and standard spellings of a text decode alike |
| Plugin.DecodeAccOfEncoding | plugin/MatchmakingPlugin.cpp:39-45 | decoding the sextets of any byte string, from an empty bit buffer, appends exactly those bytes |
| Plugin.DecodeEncode | plugin/MatchmakingPlugin.cpp:21-48 | decoding the unpadded base64url encoding of any byte string returns it |
| Plugin.CppFind | plugin/MatchmakingPlugin.cpp:52-53 | `find` returns the first position at or after the start that holds the character, and npos exactly when there is none (for strings shorter than npos) |
| Plugin.ParseJwtExpiry | plugin/MatchmakingPlugin.cpp:50-62 | 0 without a payload segment or when its decoding does not parse; otherwise the `exp` read from the parsed payload |
| Plugin.NoDotWrapsToZero | plugin/MatchmakingPlugin.cpp:52-55 | without a `.`, `first` wraps round to 0 and it is the check on `second` that returns 0 |
| Plugin.FewerThanTwoDots | plugin/MatchmakingPlugin.cpp:52-55 | a token with fewer than two `.` has no payload, so the result is 0 |
| Plugin.PayloadBetweenFirstTwoDots | plugin/MatchmakingPlugin.cpp:52-56 | the decoded segment is exactly the text between the first two `.` |
| Plugin.PayloadShape | plugin/MatchmakingPlugin.cpp:52-56 | whenever there is a payload it sits between the first two `.` and holds none itself |

## Left out

- Discord effects are not modelled: channel creation and deletion, permission overwrites, moves between voice channels, messages, embeds, DMs, role changes and log posts. Their results are passed in (`created`, `saved`, channel ids).
- Supabase REST calls are not modelled, except the URL `sbRequest` builds and the reads and writes of the `users` table during registration. In the lobby, a failing request is the `saved` or `created` flag being false.
- Handlers run one at a time, each as a single step. Interleavings between `await`s are not modelled. Two orderings matter, and each is its own method. A `cap:` click seen by both the dispatcher and the collector is `Match.OnCaptainClick`. A `host:` click during an open host election is `Match.OnHostClick`: it reaches the collector too, which records the host and closes the election. `Registry.OnButton` models the dispatcher alone.
- `Math.random` is a nondeterministic choice. Nothing is claimed about distribution.
- Collector windows and timers are event methods called by the environment, not clock time.
- `addCleanButton` (bot/matchmaking.js:125-135) is left out: it only deletes channels. The ranked `startMatch` channel setup and `matchCounter` are left out for the same reason.
- The ban DM and the log post are left out. The role's timed removal is modelled only as the delays of its timers.
- RankedMatchmaking.BanTracker.ApplyBan: `minutes` is the announced ban length, not the time the role is held. The source removes the role with one `setTimeout`, and Node replaces any delay above 2^31−1 ms by 1 ms, so from strike 15 on the role goes after 1 ms (see Findings). The method returns the corrected timer chain instead.
- The calendar clock of the daily sweep is left out: `DailySweep` takes the hour and minute as parameters.
- `verifyPlayer` reads `mmr_data.json` and parses it. The parsed object is the `data` parameter, and `NaN` and `Infinity` are not values of `real`. The test that expects `Charlie` to be Gold needs mmr_data.json, which is not part of this model.
- `CalculateMotm` returns the winner's position rather than the player object.
- The `/match` route, `matchData`, `motmNote`, the performance score, the comparison menu `select_compare_` and all message rendering in bot/index.js are left out.
- Registration leaves out `match_credentials` creation, the registered role, `registered_at` timestamps and `encodeURIComponent`. Rows come back in table order, whereas PostgREST without `order` gives no order guarantee.
- Plugin.Base64UrlDecode: the C++ accumulator `val` is a 32-bit `int` whose left shift overflows on long inputs. The model uses an unbounded `nat`. Each emitted byte depends only on the 14 lowest bits of `val`, so the output is the same.
- Plugin.Base64UrlDecode: the C++ loop reads bytes (`unsigned char`), and the model reads characters. Multi-byte characters are outside the alphabet in both and stop decoding.
- Plugin.ParseJwtExpiry: `json::parse` and `j.value("exp", 0)` are the parameters `parse` and `expOf`. `expOf` is total, so three behaviours of `value` are left out: the exception it throws for a payload that is JSON but not an object, the exception it throws when `exp` is present but not a number, and its narrowing of `exp` to `int`.
- Registration.Register assumes every Supabase request succeeds. In the source a failing request throws, the error is caught (bot/registration.js:241-246) and the user gets an error reply. The table then stays as the earlier requests left it: for example, rows patched with no nickname set when the re-read fails.
- AdvancedMatchmaking.Match.EndCaptainVote fills the captains with the by-id comparison (`RestById`), the corrected form of line 128, not the reference comparison as written. Its `|captains| == 2` and distinct captain ids rely on that correction; the as-written behaviour is `RestByReference` (see Findings).
- Ids are text: session ids, Discord user ids and `discord_id` are `string`. `activeMatches` is keyed by `session.id` as Supabase returns it and looked up with the string after `:` (bot/advancedMatchmaking.js:53, 108). If `match_sessions.id` were numeric, no `cap:`, `host:` or `report:` button would find its match. The schema is not part of this model.
- The rest of plugin/MatchmakingPlugin.cpp (game hooks, statistics, threads, HTTP) and plugin/AuusaConnectPlugin.cpp are not part of this model.
- bot/team.js, bot/verification.js and bot/leaderboard.js are not part of this model.

## Findings

| source | as written | input that shows it | evidently intended | confidence | as-written member | corrected member |
|---|---|---|---|---|---|---|
| bot/advancedMatchmaking.js:128 | the candidates are the players that `includes` does not find among the captains, a comparison of member objects by reference; captains are pushed as the interaction's member object (lines 123, 170) | one captain whose member object differs from the player entry with the same id: that user stays a candidate, and the fill at lines 129-131 can make them the second captain | compare by id, as line 123 does | low, not executed; discord.js usually hands back the same cached member object, and the references differ only when that cache entry was replaced | AdvancedMatchmaking.RestByReferenceCanRepeatCaptain | AdvancedMatchmaking.FillCaptains |
| bot/matchmaking.js:146-148 | the ban role's removal is one `setTimeout` of the announced minutes; Node runs any delay above 2^31−1 ms (about 24.8 days) after 1 ms | a 15th strike: 61440 minutes are announced in the DM and the log (lines 145, 150), but the role is removed about 1 ms after it is added | hold the role for the announced minutes, for example with a chain of timers each within the limit | high, not executed; the clamp is Node's documented `setTimeout` behaviour; the sweep resets counts at midnight, so it takes 15 refusals in one day | RankedMatchmaking.RoleHeldAsWrittenBreaksAtFifteen | RankedMatchmaking.RoleTimers |
