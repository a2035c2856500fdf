/** Access control in front of the server (server.js:20-27, 86-135, 179-233):
    the login lockout that bans an address after too many failed logins, the
    optional address whitelist, and the authentication gate. Password hashing
    is outside the model: a login attempt carries whether its credentials
    matched. Times are milliseconds, as `Date.now()` gives them. */
module AccessControl {
  import opened Wrappers
  import opened Strings

  type Ip = string

  /** The tunable limits: `MAX_LOGIN_ATTEMPTS` and `BAN_DURATION` (minutes). */
  datatype Config = Config(maxAttempts: int, banMinutes: int)

  /** `parseInt(env) || 5` and `parseInt(env) || 15`, where `None` is a value
      `parseInt` cannot read (or an unset variable). */
  function LoadConfig(maxEnv: Option<int>, banEnv: Option<int>): (c: Config)
    ensures maxEnv.None? || maxEnv.value == 0 ==> c.maxAttempts == 5
    ensures banEnv.None? || banEnv.value == 0 ==> c.banMinutes == 15
    ensures maxEnv.Some? && maxEnv.value != 0 ==> c.maxAttempts == maxEnv.value
    ensures banEnv.Some? && banEnv.value != 0 ==> c.banMinutes == banEnv.value
  {
    Config(OrDefault(maxEnv, 5), OrDefault(banEnv, 15))
  }

  /** `AUTH_ENABLED`: authentication is on unless the variable is exactly `false`. */
  function AuthEnabled(env: Option<string>): (on: bool)
    ensures !on <==> env == Some("false")
  {
    env != Some("false")
  }

  /** One `loginAttempts` record: failed attempts counted so far, and whether
      the address is banned and until when. */
  datatype Attempt = Tracking(count: int) | Banned(count: int, bannedUntil: int)

  type Attempts = map<Ip, Attempt>

  /** The responses of `POST /api/auth/login`. */
  datatype LoginReply =
    | Success                                    // 200
    | StillBanned(remainingMinutes: int)         // 429 while a ban lasts
    | NowBanned(banMinutes: int)                 // 429 on the attempt that reaches the limit
    | Invalid(remainingAttempts: int)            // 401

  const MinuteMs: int := 60000

  /** `Math.ceil(a / b)` for positive integers. */
  function CeilDiv(a: int, b: int): (q: int)
    requires a > 0 && b > 0
    ensures (q - 1) * b < a <= q * b
    ensures q >= 1
  {
    (a + b - 1) / b
  }

  /** The address is under a ban that has not run out at `now`. */
  predicate BannedAt(attempts: Attempts, ip: Ip, now: int)
  {
    ip in attempts && attempts[ip].Banned? && now < attempts[ip].bannedUntil
  }

  /** One login attempt from `ip` at time `now`. A running ban refuses it
      whatever the credentials; matching credentials clear the record;
      otherwise the failure is counted and, on reaching the limit, the
      address is banned for `banMinutes`. */
  function Login(cfg: Config, attempts: Attempts, ip: Ip, credentialsOk: bool, now: int): (r: (Attempts, LoginReply))
    ensures forall other :: other != ip ==> (other in r.0 <==> other in attempts)
    ensures forall other :: other != ip && other in attempts ==> r.0[other] == attempts[other]
    ensures BannedAt(attempts, ip, now) ==>
      && r.0 == attempts
      && r.1.StillBanned?
      && (r.1.remainingMinutes - 1) * MinuteMs < attempts[ip].bannedUntil - now <= r.1.remainingMinutes * MinuteMs
    ensures r.1.Success? <==> credentialsOk && !BannedAt(attempts, ip, now)
    ensures r.1.Success? ==> ip !in r.0
    ensures r.1.Invalid? ==> r.1.remainingAttempts >= 1 && ip in r.0 && r.0[ip].Tracking?
    ensures r.1.NowBanned? ==>
      && r.1.banMinutes == cfg.banMinutes
      && ip in r.0 && r.0[ip].Banned?
      && r.0[ip].bannedUntil == now + cfg.banMinutes * MinuteMs
    ensures r.1.StillBanned? <==> BannedAt(attempts, ip, now)
    ensures !credentialsOk && !BannedAt(attempts, ip, now) ==>
      var current := if ip in attempts then attempts[ip].count + 1 else 1;
      && ip in r.0 && r.0[ip].count == current
      && (r.1.NowBanned? <==> current >= cfg.maxAttempts)
      && (r.1.Invalid? <==> current < cfg.maxAttempts)
      && (r.1.Invalid? ==> r.1.remainingAttempts == cfg.maxAttempts - current)
  {
    if BannedAt(attempts, ip, now) then
      (attempts, StillBanned(CeilDiv(attempts[ip].bannedUntil - now, MinuteMs)))
    else if credentialsOk then
      (attempts - {ip}, Success)
    else
      var current := if ip in attempts then attempts[ip].count + 1 else 1;
      if current >= cfg.maxAttempts then
        (attempts[ip := Banned(current, now + cfg.banMinutes * MinuteMs)], NowBanned(cfg.banMinutes))
      else
        (attempts[ip := Tracking(current)], Invalid(cfg.maxAttempts - current))
  }

  /** Records are consistent with the limit: a tracked address has between
      one and `maxAttempts - 1` failures, a banned one at least the limit. */
  predicate AttemptsInv(cfg: Config, attempts: Attempts)
  {
    forall ip :: ip in attempts ==>
      && attempts[ip].count >= 1
      && (attempts[ip].Tracking? ==> attempts[ip].count < cfg.maxAttempts)
      && (attempts[ip].Banned? ==> attempts[ip].count >= cfg.maxAttempts)
  }

  /** Every login keeps the records consistent. */
  lemma LoginInv(cfg: Config, attempts: Attempts, ip: Ip, credentialsOk: bool, now: int)
    requires AttemptsInv(cfg, attempts)
    ensures AttemptsInv(cfg, Login(cfg, attempts, ip, credentialsOk, now).0)
  {
    var r := Login(cfg, attempts, ip, credentialsOk, now).0;
    forall other | other in r
      ensures r[other].count >= 1
      ensures r[other].Tracking? ==> r[other].count < cfg.maxAttempts
      ensures r[other].Banned? ==> r[other].count >= cfg.maxAttempts
    {
      if other != ip {
        assert r[other] == attempts[other];
      }
    }
  }

  /** A series of failed logins from one address at the given times,
      collecting the replies. */
  function Failures(cfg: Config, attempts: Attempts, ip: Ip, times: seq<int>): (Attempts, seq<LoginReply>)
    decreases |times|
  {
    if |times| == 0 then (attempts, [])
    else
      var prev := Failures(cfg, attempts, ip, times[..|times| - 1]);
      var step := Login(cfg, prev.0, ip, false, times[|times| - 1]);
      (step.0, prev.1 + [step.1])
  }

  /** From a clean record, each of the first `maxAttempts - 1` failures is
      answered 401 with one remaining attempt fewer, and is counted. */
  lemma {:induction false} FailuresCounted(cfg: Config, attempts: Attempts, ip: Ip, times: seq<int>)
    requires ip !in attempts
    requires |times| < cfg.maxAttempts
    ensures var r := Failures(cfg, attempts, ip, times);
      && |r.1| == |times|
      && (|times| == 0 ==> ip !in r.0)
      && (|times| > 0 ==> ip in r.0 && r.0[ip] == Tracking(|times|))
      && (forall i :: 0 <= i < |times| ==> r.1[i] == Invalid(cfg.maxAttempts - i - 1))
    decreases |times|
  {
    if |times| > 0 {
      var front := times[..|times| - 1];
      FailuresCounted(cfg, attempts, ip, front);
      var prev := Failures(cfg, attempts, ip, front);
      var step := Login(cfg, prev.0, ip, false, times[|times| - 1]);
      assert !BannedAt(prev.0, ip, times[|times| - 1]);
      assert step.1 == Invalid(cfg.maxAttempts - |times|);
      var r := Failures(cfg, attempts, ip, times);
      assert r.1 == prev.1 + [step.1];
      forall i | 0 <= i < |times| ensures r.1[i] == Invalid(cfg.maxAttempts - i - 1) {
        if i < |times| - 1 {
          assert r.1[i] == prev.1[i];
        }
      }
    }
  }

  /** The lockout: after `maxAttempts - 1` failures from a clean address, the
      next failure at `t` bans it, and until the ban runs out even the right
      credentials are refused with at least one minute left to wait. */
  lemma Lockout(cfg: Config, attempts: Attempts, ip: Ip, times: seq<int>, t: int, later: int)
    requires ip !in attempts
    requires cfg.maxAttempts >= 1 && |times| == cfg.maxAttempts - 1
    requires t <= later < t + cfg.banMinutes * MinuteMs
    ensures var before := Failures(cfg, attempts, ip, times).0;
      var banned := Login(cfg, before, ip, false, t);
      && banned.1 == NowBanned(cfg.banMinutes)
      && Login(cfg, banned.0, ip, true, later).1.StillBanned?
      && Login(cfg, banned.0, ip, true, later).1.remainingMinutes >= 1
  {
    FailuresCounted(cfg, attempts, ip, times);
  }

  /** A ban that has run out does not reset the count: the first failure after
      it bans the address again at once. */
  lemma ExpiredBanOneTry(cfg: Config, attempts: Attempts, ip: Ip, now: int)
    requires AttemptsInv(cfg, attempts)
    requires ip in attempts && attempts[ip].Banned? && now >= attempts[ip].bannedUntil
    ensures Login(cfg, attempts, ip, false, now).1 == NowBanned(cfg.banMinutes)
  {
  }

  /** A successful login forgets every earlier failure of that address: the
      next failure is again the first. */
  lemma SuccessResets(cfg: Config, attempts: Attempts, ip: Ip, now: int, later: int)
    requires !BannedAt(attempts, ip, now)
    requires cfg.maxAttempts > 1
    ensures var cleared := Login(cfg, attempts, ip, true, now).0;
      Login(cfg, cleared, ip, false, later).1 == Invalid(cfg.maxAttempts - 1)
  {
  }

  /** `IP_WHITELIST`: unset or empty means no whitelist; otherwise the
      comma-separated entries, each trimmed. Empty entries are kept. */
  function ParseWhitelist(env: Option<string>): (list: seq<string>)
    ensures env.None? || env.value == "" ==> list == []
    ensures env.Some? && env.value != "" ==>
      && |list| == |Split(env.value, ',')|
      && forall i :: 0 <= i < |list| ==> list[i] == Trim(Split(env.value, ',')[i])
  {
    if env.None? || env.value == "" then []
    else
      var parts := Split(env.value, ',');
      seq(|parts|, i requires 0 <= i < |parts| => Trim(parts[i]))
  }

  /** One part as a whitelist entry: trimmed, and dropped when blank. */
  function EntryOf(part: string): (e: seq<string>)
    ensures |e| <= 1
    ensures forall i :: 0 <= i < |e| ==> e[i] != ""
  {
    if Trim(part) == "" then [] else [Trim(part)]
  }

  /** The trimmed entries that are not empty, in order. */
  function NonEmptyEntries(parts: seq<string>): (list: seq<string>)
    decreases |parts|
  {
    if |parts| == 0 then []
    else EntryOf(parts[0]) + NonEmptyEntries(parts[1..])
  }

  /** No entry is blank, and there are at most as many entries as parts. */
  lemma {:induction false} NonEmptyEntriesBlankFree(parts: seq<string>)
    ensures var list := NonEmptyEntries(parts);
      (forall i :: 0 <= i < |list| ==> list[i] != "") && |list| <= |parts|
    decreases |parts|
  {
    if |parts| > 0 {
      NonEmptyEntriesBlankFree(parts[1..]);
    }
  }

  /** The whitelist as evidently intended: blank entries, such as the one a
      trailing comma leaves, are dropped instead of matching everything. */
  function ParseWhitelistFixed(env: Option<string>): (list: seq<string>)
    ensures forall i :: 0 <= i < |list| ==> list[i] != ""
  {
    if env.None? || env.value == "" then []
    else
      NonEmptyEntriesBlankFree(Split(env.value, ','));
      NonEmptyEntries(Split(env.value, ','))
  }

  /** `ipWhitelistMiddleware`: an empty list admits everyone; otherwise the
      address must contain some entry as a substring, or be `::1` when the
      entry is `127.0.0.1`. */
  predicate Whitelisted(list: seq<string>, ip: Ip)
  {
    |list| == 0 ||
    exists i :: 0 <= i < |list| && (Contains(ip, list[i]) || (ip == "::1" && list[i] == "127.0.0.1"))
  }

  /** An entry matches every address that contains it, so `10.0.0.1` also
      admits `10.0.0.10` and `::ffff:10.0.0.1`. */
  lemma WhitelistIsSubstringMatch(list: seq<string>, i: int, ip: Ip, a: string, b: string)
    requires 0 <= i < |list| && ip == a + list[i] + b
    ensures Whitelisted(list, ip)
  {
    assert OccursAt(ip, list[i], |a|) by {
      assert ip[|a|..|a| + |list[i]|] == list[i];
    }
    ContainsIff(ip, list[i]);
  }

  /** The empty text occurs in every text. */
  lemma EmptyContained(s: string)
    ensures Contains(s, "")
  {
    assert OccursAt(s, "", 0);
    ContainsIff(s, "");
  }

  /** A whitelist of one clean entry refuses every address that does not
      contain it (other than the IPv6 loopback): `10.0.0.1` refuses
      `8.8.8.8`. */
  lemma SingleEntryRefuses(entry: string, ip: Ip)
    requires entry != "" && ',' !in entry
    requires !IsSpace(entry[0]) && !IsSpace(entry[|entry| - 1])
    requires !Contains(ip, entry) && ip != "::1"
    ensures !Whitelisted(ParseWhitelist(Some(entry)), ip)
  {
    assert ParseWhitelist(Some(entry)) == [entry] by {
      SplitNoSep(entry, ',');
      TrimClean(entry);
    }
  }

  /** As written, a trailing comma turns any whitelist, `10.0.0.1,` say,
      into one that admits every address at all, `8.8.8.8` included. */
  lemma TrailingCommaAdmitsAll(env: string, ip: Ip)
    ensures Whitelisted(ParseWhitelist(Some(env + ",")), ip)
  {
    var list := ParseWhitelist(Some(env + ","));
    var parts := Split(env + ",", ',');
    assert parts == Split(env, ',') + [""] by {
      SplitAround(env, ',', "");
      assert env + "," == env + [','] + "";
    }
    assert list[|list| - 1] == Trim("");
    EmptyContained(ip);
  }

  /** One more part adds its entry, if any, at the end. */
  lemma NonEmptyEntriesSnoc(parts: seq<string>, part: string)
    ensures NonEmptyEntries(parts + [part]) == NonEmptyEntries(parts) + EntryOf(part)
  {
    NonEmptyEntriesAppend(parts, [part]);
    assert [part][1..] == [];
  }

  /** The entries of joined part lists are the entries of each, in order. */
  lemma {:induction false} NonEmptyEntriesAppend(parts: seq<string>, more: seq<string>)
    ensures NonEmptyEntries(parts + more) == NonEmptyEntries(parts) + NonEmptyEntries(more)
    decreases |parts|
  {
    if |parts| == 0 {
      assert parts + more == more;
    } else {
      var x, y, z := EntryOf(parts[0]), NonEmptyEntries(parts[1..]), NonEmptyEntries(more);
      assert NonEmptyEntries(parts + more) == x + (y + z) by {
        assert (parts + more)[1..] == parts[1..] + more;
        NonEmptyEntriesAppend(parts[1..], more);
      }
      assert x + (y + z) == (x + y) + z;
    }
  }

  /** Corrected: a trailing comma no longer changes the whitelist. */
  lemma TrailingCommaIgnored(env: string)
    requires env != ""
    ensures ParseWhitelistFixed(Some(env + ",")) == ParseWhitelistFixed(Some(env))
  {
    var parts := Split(env, ',');
    assert Split(env + ",", ',') == parts + [""] by {
      SplitAround(env, ',', "");
      assert env + "," == env + [','] + "";
    }
    assert NonEmptyEntries(parts + [""]) == NonEmptyEntries(parts) by {
      NonEmptyEntriesSnoc(parts, "");
      assert EntryOf("") == [];
      assert NonEmptyEntries(parts) + [] == NonEmptyEntries(parts);
    }
  }

  /** Trimming every part and then dropping the blank entries is what
      `NonEmptyEntries` does part by part. */
  lemma {:induction false} NonEmptyEntriesFilter(parts: seq<string>)
    ensures NonEmptyEntries(parts) == DropEmpty(seq(|parts|, i requires 0 <= i < |parts| => Trim(parts[i])))
    decreases |parts|
  {
    if |parts| > 0 {
      var trimmed := seq(|parts|, i requires 0 <= i < |parts| => Trim(parts[i]));
      var rest := parts[1..];
      assert trimmed[1..] == seq(|rest|, i requires 0 <= i < |rest| => Trim(rest[i]));
      NonEmptyEntriesFilter(rest);
    }
  }

  /** The corrected whitelist is the written one with its blank entries
      dropped: same entries, same order. */
  lemma FixedIsNonBlankOfWritten(env: Option<string>)
    ensures ParseWhitelistFixed(env) == DropEmpty(ParseWhitelist(env))
    ensures forall e :: e in ParseWhitelistFixed(env) <==> e in ParseWhitelist(env) && e != ""
  {
    if env.Some? && env.value != "" {
      NonEmptyEntriesFilter(Split(env.value, ','));
    }
  }

  /** Corrected against written: with `10.0.0.1,` the written list admits
      `8.8.8.8` through its blank entry, while the corrected one refuses
      every address (other than the IPv6 loopback) that contains none of the
      written list's non-blank entries. */
  lemma FixedRefusesWhatTrailingCommaAdmits(env: string, ip: Ip)
    requires env != "" && ip != "::1"
    requires exists e :: e in ParseWhitelist(Some(env)) && e != ""
    requires forall e :: e in ParseWhitelist(Some(env)) && e != "" ==> !Contains(ip, e)
    ensures Whitelisted(ParseWhitelist(Some(env + ",")), ip)
    ensures !Whitelisted(ParseWhitelistFixed(Some(env + ",")), ip)
  {
    TrailingCommaAdmitsAll(env, ip);
    TrailingCommaIgnored(env);
    FixedIsNonBlankOfWritten(Some(env));
    var fixed := ParseWhitelistFixed(Some(env));
    assert |fixed| > 0;
  }

  /** What `express.json()` makes of a request body: a body it parses or
      leaves alone (not JSON), or one it refuses with an HTTP status, such
      as 400 for malformed JSON or 413 for one over its 100 kB limit. */
  datatype Body = Parsed | Refused(status: int)

  /** An incoming HTTP request: client address, path, whether its session
      is authenticated, and how its body parses. `inPublic` says whether
      `public/` holds the path, so that the static middleware serves it. */
  datatype Request = Request(ip: Ip, path: string, authenticated: bool, inPublic: bool, body: Body)

  /** Where a request ends. With no error handler registered, a body the
      parser refuses ends in Express's default error reply with its status. */
  datatype Outcome = BodyRefused(status: int) | Forbidden | Unauthorized | RedirectToLogin | ServedStatic | Proceed

  /** Paths the authentication gate always lets through. */
  predicate OpenPath(path: string)
  {
    path == "/login.html" || StartsWith(path, "/api/auth/") || path == "/favicon.svg" || path == "/logo.svg"
  }

  /** `authMiddleware`. */
  function AuthGate(authOn: bool, path: string, authenticated: bool): (o: Outcome)
    ensures o == Proceed || o == Unauthorized || o == RedirectToLogin
    ensures o == Proceed <==> !authOn || OpenPath(path) || authenticated
    ensures o == Unauthorized <==> authOn && !OpenPath(path) && !authenticated && StartsWith(path, "/api/")
  {
    if !authOn then Proceed
    else if OpenPath(path) then Proceed
    else if !authenticated then (if StartsWith(path, "/api/") then Unauthorized else RedirectToLogin)
    else Proceed
  }

  /** The middleware chain in registration order: the JSON body parser,
      whitelist, static files from `public/`, authentication. */
  function Gate(list: seq<string>, authOn: bool, req: Request): (o: Outcome)
    ensures o.BodyRefused? <==> req.body.Refused?
    ensures o.BodyRefused? ==> o.status == req.body.status
    ensures o == Forbidden <==> req.body.Parsed? && !Whitelisted(list, req.ip)
    ensures o == ServedStatic <==> req.body.Parsed? && Whitelisted(list, req.ip) && req.inPublic
    ensures o == Proceed ==> req.body.Parsed? && Whitelisted(list, req.ip) && (!authOn || OpenPath(req.path) || req.authenticated)
    ensures authOn && req.body.Parsed? && Whitelisted(list, req.ip) && !req.inPublic && !OpenPath(req.path) && !req.authenticated ==>
      o == Unauthorized || o == RedirectToLogin
  {
    if req.body.Refused? then BodyRefused(req.body.status)
    else if !Whitelisted(list, req.ip) then Forbidden
    else if req.inPublic then ServedStatic
    else AuthGate(authOn, req.path, req.authenticated)
  }

  /** The body parser runs first: a body it refuses gets its status from
      every address, listed or not, and the whitelist is never asked. */
  lemma BodyRefusedBeforeWhitelist(list: seq<string>, authOn: bool, ip: Ip, path: string, authenticated: bool, inPublic: bool, status: int)
    requires !Whitelisted(list, ip)
    ensures Gate(list, authOn, Request(ip, path, authenticated, inPublic, Refused(status))) == BodyRefused(status)
    ensures Gate(list, authOn, Request(ip, path, authenticated, inPublic, Parsed)) == Forbidden
  {
  }

  /** The Socket.IO handshake middleware (`io.use`), as written: it logs the
      attempt and calls `next()`. Socket.IO answers its own requests before
      the Express chain sees them, so neither the whitelist nor the session
      is consulted, and the terminal events are open to every connection. */
  function SocketHandshake(list: seq<string>, authOn: bool, ip: Ip, authenticated: bool): (admitted: bool)
    ensures admitted
  {
    true
  }

  /** As written: a connection that the HTTP chain would refuse an API
      request, because its address is not listed or it has not logged in,
      is still admitted to the terminal socket. */
  lemma SocketBypassesGate(list: seq<string>, authOn: bool, ip: Ip, authenticated: bool, path: string)
    requires StartsWith(path, "/api/") && !OpenPath(path)
    requires !Whitelisted(list, ip) || (authOn && !authenticated)
    ensures Gate(list, authOn, Request(ip, path, authenticated, false, Parsed)) in {Forbidden, Unauthorized}
    ensures SocketHandshake(list, authOn, ip, authenticated)
  {
  }

  /** The handshake as evidently intended: a socket connection is admitted
      exactly when the chain would let a request through to the API. */
  function SocketHandshakeFixed(list: seq<string>, authOn: bool, ip: Ip, authenticated: bool): (admitted: bool)
    ensures forall path :: StartsWith(path, "/api/") && !OpenPath(path) ==>
      (admitted <==> Gate(list, authOn, Request(ip, path, authenticated, false, Parsed)) == Proceed)
  {
    Whitelisted(list, ip) && (!authOn || authenticated)
  }
}
