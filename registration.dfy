/** Player registration: the URL the bot's Supabase REST helper requests,
    and the rules the registration form applies to the `users` table (the
    Rocket League pseudo may belong to one Discord account only, new and
    MMR-less players start at 1200, and the Discord nickname shows the MMR).

    The HTTP exchange is left out; the `users` table is a sequence of rows
    that the registration reads, filters and rewrites as PostgREST's `eq`
    filters, PATCH and POST would. */
module Registration {
  import opened Common

  /* ---------------- The REST helper's URL ---------------- */

  const RestPrefix: string := "/rest/v1"

  /** `BASE_URL`: the configured URL with a final `/rest/v1` or `/rest/v1/`
      removed; without a configured URL it is `undefined`. */
  function BaseUrl(supabaseUrl: Option<string>): (r: Option<string>)
    ensures r.None? <==> supabaseUrl.None?
    ensures r.Some? && EndsWith(supabaseUrl.value, RestPrefix + "/") ==> r.value + RestPrefix + "/" == supabaseUrl.value
    ensures r.Some? && EndsWith(supabaseUrl.value, RestPrefix) ==> r.value + RestPrefix == supabaseUrl.value
    ensures r.Some? && !EndsWith(supabaseUrl.value, RestPrefix) && !EndsWith(supabaseUrl.value, RestPrefix + "/") ==>
              r.value == supabaseUrl.value
  {
    match supabaseUrl
    case None => None
    case Some(u) =>
      if EndsWith(u, RestPrefix + "/") then
        assert u[|u| - 1] == '/' && !EndsWith(u, RestPrefix);
        Some(u[..|u| - |RestPrefix| - 1])
      else if EndsWith(u, RestPrefix) then Some(u[..|u| - |RestPrefix|])
      else Some(u)
  }

  /** A project URL written with or without the REST suffix gives the same
      base. */
  lemma BaseUrlStripsSuffix(base: string)
    ensures BaseUrl(Some(base + RestPrefix)) == Some(base)
    ensures BaseUrl(Some(base + RestPrefix + "/")) == Some(base)
  {
    var a := base + RestPrefix;
    assert a[|a| - |RestPrefix|..] == RestPrefix;
    assert a[..|a| - |RestPrefix|] == base;
    var b := base + RestPrefix + "/";
    assert b[|b| - |RestPrefix + "/"|..] == RestPrefix + "/";
    assert b[..|b| - |RestPrefix| - 1] == base;
    assert !EndsWith(a, RestPrefix + "/") by {
      assert a[|a| - 1] == '1';
    }
  }

  /** How `${BASE_URL}` renders. */
  function RenderBase(base: Option<string>): string
  {
    if base.Some? then base.value else "undefined"
  }

  /** The path and the query string of a request for `table`: a query
      already written into `table` after its first `?` goes in front of the
      given one, joined by `&`. */
  function PathAndQuery(table: string, query: string): (r: (string, string))
    ensures '?' !in table ==> r == (table, query)
    ensures '?' in table ==> '?' !in r.0 && exists existing ::
              table == r.0 + "?" + existing &&
              r.1 == if query == "" then existing else existing + "&" + query
  {
    match Find(table, '?', 0)
    case None => (table, query)
    case Some(idx) =>
      var existing := table[idx + 1..];
      assert table == table[..idx] + "?" + existing;
      (table[..idx], if query != "" then existing + "&" + query else existing)
  }

  function ToLowerAscii(c: char): char
  {
    if 'A' <= c <= 'Z' then (c as int + 32) as char else c
  }

  /** `/select=/i`: the text `select=` occurs, letters compared without
      case. The pattern is ASCII, so only ASCII letters can match it. */
  predicate HasSelect(q: string)
  {
    exists i :: 0 <= i < |q| && SelectAt(q, i)
  }

  predicate SelectAt(q: string, i: nat)
  {
    i + 7 <= |q| && forall k :: 0 <= k < 7 ==> ToLowerAscii(q[i + k]) == "select="[k]
  }

  /** The POST and PATCH rule: ask for the written rows back with
      `select=*` unless the query already selects columns. */
  function WithSelect(verb: string, query: string): (r: string)
    ensures verb != "POST" && verb != "PATCH" ==> r == query
    ensures HasSelect(query) ==> r == query
    ensures (verb == "POST" || verb == "PATCH") && !HasSelect(query) ==>
              r == if query == "" then "select=*" else query + "&select=*"
  {
    if (verb == "POST" || verb == "PATCH") && !HasSelect(query) then
      (if query != "" then query + "&select=*" else "select=*")
    else query
  }

  /** Whatever `WithSelect` returns selects columns or is left as it was. */
  lemma WithSelectSelects(verb: string, query: string)
    ensures HasSelect(WithSelect(verb, query)) || WithSelect(verb, query) == query
  {
    var r := WithSelect(verb, query);
    if r != query {
      var i := |r| - 8;
      assert r[i..] == "select=*";
      forall k | 0 <= k < 7 ensures ToLowerAscii(r[i + k]) == "select="[k] {
        assert r[i + k] == "select=*"[k];
      }
      assert SelectAt(r, i) && i < |r|;
    }
  }

  /** Adding `select=*` twice is the same as adding it once. */
  lemma WithSelectIdempotent(verb: string, query: string)
    ensures WithSelect(verb, WithSelect(verb, query)) == WithSelect(verb, query)
  {
    WithSelectSelects(verb, query);
  }

  /** The URL `sbRequest` fetches. */
  function RequestUrl(base: Option<string>, verb: string, table: string, query: string): string
  {
    var pq := PathAndQuery(table, query);
    var q := WithSelect(verb, pq.1);
    RenderBase(base) + "/rest/v1/" + pq.0 + (if q != "" then "?" + q else "")
  }

  /** For a plain table name, a read asks for exactly the given query, and a
      write with no query asks for the written rows back. */
  lemma RequestUrlOfPlainTable(base: string, table: string, query: string)
    requires '?' !in table
    ensures RequestUrl(Some(base), "GET", table, query) ==
              base + RestPrefix + "/" + table + (if query == "" then "" else "?" + query)
    ensures RequestUrl(Some(base), "POST", table, "") == base + RestPrefix + "/" + table + "?select=*"
  {
    assert !HasSelect("");
  }

  /** A filter written into the table name after a `?` gives the same URL
      as the same filter passed as the query. */
  lemma FilterInTableName(base: Option<string>, verb: string, path: string, filter: string)
    requires '?' !in path
    ensures RequestUrl(base, verb, path + "?" + filter, "") == RequestUrl(base, verb, path, filter)
  {
    var t := path + "?" + filter;
    assert t[|path|] == '?';
    assert forall k :: 0 <= k < |path| ==> t[k] == path[k];
    assert Find(t, '?', 0) == Some(|path|);
    assert t[..|path|] == path && t[|path| + 1..] == filter;
  }

  /* ---------------- Text helpers ---------------- */

  /** The characters JavaScript's `trim` removes: white space and line
      terminators. */
  predicate IsJsSpace(c: char)
  {
    c == '\t' || c == '\n' || c == '\U{000B}' || c == '\U{000C}' || c == '\r' || c == ' '
    || c == '\U{00A0}' || c == '\U{1680}' || ('\U{2000}' <= c <= '\U{200A}')
    || c == '\U{2028}' || c == '\U{2029}' || c == '\U{202F}' || c == '\U{205F}'
    || c == '\U{3000}' || c == '\U{FEFF}'
  }

  function TrimStart(s: string): (r: string)
    ensures |r| <= |s| && r == s[|s| - |r|..]
    ensures forall k :: 0 <= k < |s| - |r| ==> IsJsSpace(s[k])
    ensures r == [] || !IsJsSpace(r[0])
  {
    if s != [] && IsJsSpace(s[0]) then TrimStart(s[1..]) else s
  }

  function TrimEnd(s: string): (r: string)
    ensures |r| <= |s| && r == s[..|r|]
    ensures forall k :: |r| <= k < |s| ==> IsJsSpace(s[k])
    ensures r == [] || !IsJsSpace(r[|r| - 1])
  {
    if s != [] && IsJsSpace(s[|s| - 1]) then TrimEnd(s[..|s| - 1]) else s
  }

  /** `trim()`: the text between the leading and the trailing white space. */
  function Trim(s: string): (r: string)
    ensures exists i, j :: 0 <= i <= j <= |s| && r == s[i..j] &&
              (forall k :: 0 <= k < i ==> IsJsSpace(s[k])) && (forall k :: j <= k < |s| ==> IsJsSpace(s[k]))
    ensures r == [] || (!IsJsSpace(r[0]) && !IsJsSpace(r[|r| - 1]))
  {
    var a := TrimStart(s);
    var b := TrimEnd(a);
    var i := |s| - |a|;
    assert b == s[i..i + |b|];
    assert b != [] ==> b[0] == a[0];
    b
  }

  lemma TrimIdempotent(s: string)
    ensures Trim(Trim(s)) == Trim(s)
  {
    var t := Trim(s);
    assert TrimStart(t) == t;
    assert TrimEnd(t) == t;
  }

  function DigitChar(d: nat): char
    requires d < 10
  {
    ('0' as int + d) as char
  }

  function NatToString(n: nat): (s: string)
    ensures |s| >= 1
    ensures forall c :: c in s ==> '0' <= c <= '9'
    decreases n
  {
    if n < 10 then [DigitChar(n)] else NatToString(n / 10) + [DigitChar(n % 10)]
  }

  /** How JavaScript writes an integer in a template string. */
  function IntToString(i: int): (s: string)
    ensures |s| >= 1 && ']' !in s
  {
    if i < 0 then "-" + NatToString(-i) else NatToString(i)
  }

  function ParseNat(s: string): nat
  {
    if s == [] then 0 else ParseNat(s[..|s| - 1]) * 10 + (if '0' <= s[|s| - 1] <= '9' then s[|s| - 1] as int - '0' as int else 0)
  }

  lemma {:induction false} NatToStringRoundTrip(n: nat)
    ensures ParseNat(NatToString(n)) == n
    decreases n
  {
    if n >= 10 {
      NatToStringRoundTrip(n / 10);
      var s := NatToString(n);
      assert s[..|s| - 1] == NatToString(n / 10);
    }
  }

  function ParseInt(s: string): int
  {
    if s != [] && s[0] == '-' then -(ParseNat(s[1..]) as int) else ParseNat(s)
  }

  /** The decimal text of an integer reads back as that integer. */
  lemma IntToStringRoundTrip(i: int)
    ensures ParseInt(IntToString(i)) == i
  {
    if i < 0 {
      NatToStringRoundTrip(-i);
      assert IntToString(i)[1..] == NatToString(-i);
    } else {
      NatToStringRoundTrip(i);
      assert NatToString(i)[0] != '-' by { assert NatToString(i)[0] in NatToString(i); }
    }
  }

  /* ---------------- Registration ---------------- */

  const DefaultMmr: int := 1200

  /** A row of the `users` table; `mmr` may be null. */
  datatype UserRow = UserRow(discordId: string, rlName: string, mmr: Option<int>)

  /** The Discord nickname of a registered player: `[mmr] pseudo`. */
  function Nickname(mmr: int, rlName: string): string
  {
    "[" + IntToString(mmr) + "] " + rlName
  }

  /** Reading a nickname back: the MMR between the brackets, and the
      pseudo after them. */
  function ParseNickname(nick: string): Option<(int, string)>
  {
    if |nick| == 0 || nick[0] != '[' then None
    else match Find(nick, ']', 1)
      case None => None
      case Some(j) =>
        if j + 1 < |nick| && nick[j + 1] == ' ' then Some((ParseInt(nick[1..j]), nick[j + 2..])) else None
  }

  /** The nickname carries the MMR and the pseudo without loss. */
  lemma NicknameRoundTrip(mmr: int, rlName: string)
    ensures ParseNickname(Nickname(mmr, rlName)) == Some((mmr, rlName))
  {
    var t := IntToString(mmr);
    var nick := Nickname(mmr, rlName);
    var j := 1 + |t|;
    assert forall k :: 1 <= k < j ==> nick[k] == t[k - 1];
    assert nick[j] == ']' && nick[j + 1] == ' ';
    assert Find(nick, ']', 1) == Some(j);
    assert nick[1..j] == t;
    assert nick[j + 2..] == rlName;
    IntToStringRoundTrip(mmr);
  }

  /* The two `eq.` queries of the registration, one per column. They are kept
     as separate functions, like the two requests they stand for, rather than
     one filter over a column selector. */

  /** `users?rl_name=eq.<pseudo>`: the rows holding the pseudo, in table order. */
  function RowsNamed(db: seq<UserRow>, rlName: string): (r: seq<UserRow>)
    ensures forall row :: row in r <==> row in db && row.rlName == rlName
  {
    if db == [] then []
    else (if db[0].rlName == rlName then [db[0]] else []) + RowsNamed(db[1..], rlName)
  }

  /** `users?discord_id=eq.<id>`: the account's rows, in table order. */
  function RowsOf(db: seq<UserRow>, discordId: string): (r: seq<UserRow>)
    ensures forall row :: row in r <==> row in db && row.discordId == discordId
  {
    if db == [] then []
    else (if db[0].discordId == discordId then [db[0]] else []) + RowsOf(db[1..], discordId)
  }

  /** The PATCH on `discord_id=eq.<id>`: every row of that account gets the
      new pseudo, and also an MMR of 1200 when `setMmr` (the body holds `mmr`
      only when the account's first row had none). */
  function PatchRows(db: seq<UserRow>, discordId: string, rlName: string, setMmr: bool): (r: seq<UserRow>)
    ensures |r| == |db|
    ensures forall k :: 0 <= k < |db| ==>
              r[k] == if db[k].discordId == discordId then Patched(db[k], rlName, setMmr) else db[k]
  {
    if db == [] then []
    else [if db[0].discordId == discordId then Patched(db[0], rlName, setMmr) else db[0]]
         + PatchRows(db[1..], discordId, rlName, setMmr)
  }

  function Patched(row: UserRow, rlName: string, setMmr: bool): UserRow
  {
    row.(rlName := rlName, mmr := if setMmr then Some(DefaultMmr) else row.mmr)
  }

  datatype Outcome = PseudoTaken | Registered(mmr: int, nickname: string)

  /** After the PATCH, reading the account's rows back gives its first row,
      patched. */
  lemma {:induction false} RefetchAfterPatch(db: seq<UserRow>, discordId: string, rlName: string, setMmr: bool)
    requires RowsOf(db, discordId) != []
    ensures RowsOf(PatchRows(db, discordId, rlName, setMmr), discordId) != []
    ensures RowsOf(PatchRows(db, discordId, rlName, setMmr), discordId)[0] == Patched(RowsOf(db, discordId)[0], rlName, setMmr)
  {
    var p := PatchRows(db, discordId, rlName, setMmr);
    assert p == [p[0]] + p[1..];
    assert p[1..] == PatchRows(db[1..], discordId, rlName, setMmr);
    if db[0].discordId != discordId {
      RefetchAfterPatch(db[1..], discordId, rlName, setMmr);
    }
  }

  /** After the POST, reading the account's rows back gives the new row. */
  lemma {:induction false} RefetchAfterInsert(db: seq<UserRow>, row: UserRow)
    requires RowsOf(db, row.discordId) == []
    ensures RowsOf(db + [row], row.discordId) == [row]
  {
    if db != [] {
      assert (db + [row])[1..] == db[1..] + [row];
      RefetchAfterInsert(db[1..], row);
    } else {
      assert [] + [row] == [row];
    }
  }

  /** The registration form, for the trimmed pseudo `rlName` submitted by
      `discordId`: refused when the first account holding that pseudo is
      another one; otherwise the account's rows are patched, or a row is
      created with MMR 1200, and the row read back afterwards gives the MMR
      shown in the nickname. */
  function Register(db: seq<UserRow>, discordId: string, rlName: string): (r: (Outcome, seq<UserRow>))
  {
    var existing := RowsNamed(db, rlName);
    if |existing| > 0 && existing[0].discordId != discordId then (PseudoTaken, db)
    else if |RowsOf(db, discordId)| > 0 then
      var setMmr := RowsOf(db, discordId)[0].mmr.None?;
      var db' := PatchRows(db, discordId, rlName, setMmr);
      RefetchAfterPatch(db, discordId, rlName, setMmr);
      var user := RowsOf(db', discordId)[0];
      (Registered(user.mmr.value, Nickname(user.mmr.value, rlName)), db')
    else
      var created := UserRow(discordId, rlName, Some(DefaultMmr));
      var db' := db + [created];
      RefetchAfterInsert(db, created);
      var user := RowsOf(db', discordId)[0];
      (Registered(user.mmr.value, Nickname(user.mmr.value, rlName)), db')
  }

  /** Each pseudo belongs to at most one Discord account. */
  ghost predicate PseudosUnique(db: seq<UserRow>)
  {
    forall a, b :: a in db && b in db && a.rlName == b.rlName ==> a.discordId == b.discordId
  }

  lemma PatchRowsMembers(db: seq<UserRow>, discordId: string, rlName: string, setMmr: bool, row: UserRow)
    requires row in PatchRows(db, discordId, rlName, setMmr)
    ensures exists prev :: prev in db && row == if prev.discordId == discordId then Patched(prev, rlName, setMmr) else prev
  {
    var r := PatchRows(db, discordId, rlName, setMmr);
    var k :| 0 <= k < |r| && r[k] == row;
    assert db[k] in db;
  }

  /** Registration is refused exactly when the first row holding the pseudo
      belongs to another account, and then nothing changes. */
  lemma RegisterRefusal(db: seq<UserRow>, discordId: string, rlName: string)
    ensures var (out, db') := Register(db, discordId, rlName);
            out.PseudoTaken? <==> RowsNamed(db, rlName) != [] && RowsNamed(db, rlName)[0].discordId != discordId
    ensures var (out, db') := Register(db, discordId, rlName);
            out.PseudoTaken? ==> db' == db
  {
  }

  /** A first-time player gets a new row with the default MMR of 1200, and
      the nickname shows it. */
  lemma RegisterNewPlayer(db: seq<UserRow>, discordId: string, rlName: string)
    requires RowsOf(db, discordId) == []
    requires RowsNamed(db, rlName) == [] || RowsNamed(db, rlName)[0].discordId == discordId
    ensures Register(db, discordId, rlName) ==
              (Registered(DefaultMmr, Nickname(DefaultMmr, rlName)), db + [UserRow(discordId, rlName, Some(DefaultMmr))])
  {
    RefetchAfterInsert(db, UserRow(discordId, rlName, Some(DefaultMmr)));
  }

  /** A returning player's rows take the new pseudo; when the first of them
      had no MMR they all get 1200, otherwise they keep theirs; the nickname
      shows the first row's MMR. */
  lemma RegisterExistingPlayer(db: seq<UserRow>, discordId: string, rlName: string)
    requires RowsOf(db, discordId) != []
    requires RowsNamed(db, rlName) == [] || RowsNamed(db, rlName)[0].discordId == discordId
    ensures var first := RowsOf(db, discordId)[0];
            var mmr := if first.mmr.None? then DefaultMmr else first.mmr.value;
            Register(db, discordId, rlName) ==
              (Registered(mmr, Nickname(mmr, rlName)), PatchRows(db, discordId, rlName, first.mmr.None?))
  {
    RefetchAfterPatch(db, discordId, rlName, RowsOf(db, discordId)[0].mmr.None?);
  }

  /** The PATCH gives every row of the account the new pseudo, and 1200 as
      MMR exactly when `setMmr`, and leaves every other account's rows as
      they were. */
  lemma PatchRowsEffect(db: seq<UserRow>, discordId: string, rlName: string, setMmr: bool)
    ensures forall row :: row in db && row.discordId != discordId ==> row in PatchRows(db, discordId, rlName, setMmr)
    ensures forall row :: row in db && row.discordId == discordId ==>
              UserRow(discordId, rlName, if setMmr then Some(DefaultMmr) else row.mmr) in PatchRows(db, discordId, rlName, setMmr)
  {
    var p := PatchRows(db, discordId, rlName, setMmr);
    forall row | row in db
      ensures row.discordId != discordId ==> row in p
      ensures row.discordId == discordId ==> UserRow(discordId, rlName, if setMmr then Some(DefaultMmr) else row.mmr) in p
    {
      var k :| 0 <= k < |db| && db[k] == row;
      assert p[k] in p;
    }
  }

  /** Registration keeps every pseudo tied to a single account. */
  lemma RegisterKeepsPseudosUnique(db: seq<UserRow>, discordId: string, rlName: string)
    requires PseudosUnique(db)
    ensures PseudosUnique(Register(db, discordId, rlName).1)
  {
    var existing := RowsNamed(db, rlName);
    if |existing| > 0 {
      assert existing[0] in existing;
    }
    if !(|existing| > 0 && existing[0].discordId != discordId) {
      // every row already named `rlName` belongs to `discordId`
      assert forall row :: row in db && row.rlName == rlName ==> row.discordId == discordId;
      var db' := Register(db, discordId, rlName).1;
      if |RowsOf(db, discordId)| > 0 {
        var setMmr := RowsOf(db, discordId)[0].mmr.None?;
        forall a, b | a in db' && b in db' && a.rlName == b.rlName
          ensures a.discordId == b.discordId
        {
          PatchRowsMembers(db, discordId, rlName, setMmr, a);
          PatchRowsMembers(db, discordId, rlName, setMmr, b);
        }
      } else {
        forall a, b | a in db' && b in db' && a.rlName == b.rlName
          ensures a.discordId == b.discordId
        {
          if a !in db { assert a == UserRow(discordId, rlName, Some(DefaultMmr)); }
          if b !in db { assert b == UserRow(discordId, rlName, Some(DefaultMmr)); }
        }
      }
    }
  }
}
