/** Administrator keys across three components: the admin store
    (crates/admin/src/store.rs), the audit store's key row
    (crates/audit/src/store.rs) and the session registry
    (crates/admin/src/session.rs), as the handlers of crates/admin/src/handlers.rs
    drive them. Sealing is symbolic: a sealed value opens under its own key only. */
module AdminKeys {
  import opened Text
  import opened Input

  type Bytes = seq<nat>
  type Key = Bytes

  datatype Sealed = Sealed(key: Key, keyId: nat, plain: Bytes)

  function Seal(key: Key, keyId: int, plain: Bytes): Sealed { Sealed(key, keyId % 0x10000, plain) }

  function Open(key: Key, sealed: Sealed): Option<Bytes> {
    if sealed.key == key then Some(sealed.plain) else None
  }

  lemma {:induction false} OpensExactly(key: Key, keyId: int, plain: Bytes, other: Key)
    ensures Open(other, Seal(key, keyId, plain)) == if other == key then Some(plain) else None
  {
  }

  datatype AdminRow = AdminRow(
    id: int, username: string, salt: string, derivedKey: Key, mustChange: bool,
    totp: Option<Sealed>, totpKeyId: Option<int>, totpEnabled: bool, codes: seq<string>)

  datatype AuditKeys = AuditKeys(wrapped: Sealed, keyId: nat)

  datatype Session = Session(adminId: int, wrapKey: Key, mustChange: bool, mfaPending: bool, lastSeen: int)

  type Sessions = map<string, Session>

  // ------------------------------------------------------------------
  // The invariant
  // ------------------------------------------------------------------

  ghost predicate SessionsAgree(a: AdminRow, sessions: Sessions) {
    forall t :: t in sessions ==> sessions[t].adminId == a.id && sessions[t].wrapKey == a.derivedKey
  }

  predicate TotpOpens(a: AdminRow) {
    && (a.totp.Some? <==> a.totpKeyId.Some?)
    && (a.totp.Some? ==> Open(a.derivedKey, a.totp.value).Some?)
    && (a.totpEnabled ==> a.totp.Some?)
  }

  ghost predicate KeysAgree(admin: Option<AdminRow>, sessions: Sessions) {
    admin.Some? && SessionsAgree(admin.value, sessions) && TotpOpens(admin.value)
  }

  /** What the stored key makes of the wrapped audit private key. */
  function AuditPlain(admin: Option<AdminRow>, audit: Option<AuditKeys>): Option<Bytes> {
    if admin.Some? && audit.Some? then Open(admin.value.derivedKey, audit.value.wrapped) else None
  }

  /** What the stored key makes of the wrapped TOTP secret. */
  function TotpPlain(admin: Option<AdminRow>): Option<Bytes> {
    if admin.Some? && admin.value.totp.Some? then Open(admin.value.derivedKey, admin.value.totp.value) else None
  }

  // ------------------------------------------------------------------
  // Sessions
  // ------------------------------------------------------------------

  predicate Live(sessions: Sessions, token: Option<string>, now: int, idle: int) {
    token.Some? && token.value in sessions && now - sessions[token.value].lastSeen <= idle
  }

  /** Equal sessions, apart from when they were last seen; `token` may have been
      evicted. */
  ghost predicate Aged(before: Sessions, after: Sessions, token: Option<string>) {
    && (forall t :: t in after ==> t in before && after[t] == before[t].(lastSeen := after[t].lastSeen))
    && (forall t :: t in before && Some(t) != token ==> t in after && after[t] == before[t])
  }

  /** No session but `token`'s was opened or changed its gate. */
  ghost predicate GatesKept(before: Sessions, after: Sessions, token: Option<string>) {
    forall t :: t in after && Some(t) != token ==> t in before && after[t].mfaPending == before[t].mfaPending
  }

  /** `require_admin` lets the token through. */
  predicate Admitted(sessions: Sessions, token: Option<string>, now: int, idle: int) {
    Live(sessions, token, now, idle) && !sessions[token.value].mfaPending && !sessions[token.value].mustChange
  }

  /** The answer to a request that is not granted: 401 without a live session, 403 behind a
      gate, and otherwise the request's own. */
  function Refusal(sessions: Sessions, token: Option<string>, now: int, idle: int, own: int): int {
    if !Live(sessions, token, now, idle) then 401
    else if sessions[token.value].mfaPending || sessions[token.value].mustChange then 403
    else own
  }

  /** A login is one request, or its check and the creation of its session apart. */
  datatype Request =
    | Login(username: string, password: string, newToken: string, throttled: bool)
    | LoginCheck(login: nat, username: string, password: string, throttled: bool)
    | LoginOpen(login: nat, newToken: string)
    | Logout(token: Option<string>)
    | ChangePassword(token: Option<string>, current: string, changed: string, salt: string)
    | MfaVerify(token: Option<string>, codeOk: Bytes -> bool, codeHash: string, throttled: bool)
    | MfaEnroll(token: Option<string>, secret: Bytes)
    | MfaConfirm(token: Option<string>, codeOk: Bytes -> bool, hashes: seq<string>)
    | MfaDisable(token: Option<string>, password: string)

  // ------------------------------------------------------------------
  // What the answered requests amount to
  // ------------------------------------------------------------------

  /** The administrator's name; the salt and key of the last password change; the TOTP secret of the last enrolment, unless
      it was disabled since; whether it was confirmed; the recovery codes handed out with
      it and those spent; the tokens whose gate is open; the key and the MFA setting that
      each login at work has seen. */
  datatype Book = Book(username: string, salt: string, key: Key, secret: Option<Bytes>, enabled: bool,
                       issued: multiset<string>, spent: multiset<string>, open: set<string>, held: map<nat, (Key, bool)>)

  predicate LiveCode(secret: Option<Bytes>, codeOk: Bytes -> bool) { secret.Some? && codeOk(secret.value) }

  function Gate(open: set<string>, token: string, pending: bool): set<string> {
    if pending then open - {token} else open + {token}
  }

  function Next(kdf: (string, string) -> Key, b: Book, r: Request, code: int): Book {
    match r
    case Login(_, _, newToken, _) => if code == 200 then b.(open := Gate(b.open, newToken, b.enabled)) else b
    case LoginCheck(login, _, _, _) => if code == 200 then b.(held := b.held[login := (b.key, b.enabled)]) else b
    case LoginOpen(login, newToken) =>
      if login in b.held then b.(open := Gate(b.open, newToken, b.held[login].1), held := b.held - {login}) else b
    case Logout(_) => b
    case ChangePassword(_, _, changed, salt) => if code == 204 then b.(salt := salt, key := kdf(changed, salt)) else b
    case MfaVerify(token, codeOk, codeHash, _) =>
      if code == 200 && token.Some? then
        b.(open := b.open + {token.value}, spent := if LiveCode(b.secret, codeOk) then b.spent else b.spent + multiset{codeHash})
      else b
    case MfaEnroll(_, secret) =>
      if code == 200 then b.(secret := Some(secret), enabled := false, issued := multiset{}, spent := multiset{}) else b
    case MfaConfirm(_, _, hashes) =>
      if code == 200 then b.(enabled := true, issued := multiset(hashes), spent := multiset{}) else b
    case MfaDisable(_, _) =>
      if code == 204 then b.(secret := None, enabled := false, issued := multiset{}, spent := multiset{}) else b
  }

  function BookAfter(kdf: (string, string) -> Key, b: Book, requests: seq<Request>, codes: seq<int>): Book
    requires |requests| == |codes|
  {
    if requests == [] then b
    else
      var n := |requests| - 1;
      Next(kdf, BookAfter(kdf, b, requests[..n], codes[..n]), requests[n], codes[n])
  }

  /** The password is the one the book's key was derived from. */
  predicate Proves(kdf: (string, string) -> Key, b: Book, password: string) { kdf(password, b.salt) == b.key }

  predicate GateOpen(b: Book, token: Option<string>) { token.Some? && token.value in b.open }

  /** What a request must have come with to be granted: a login, the right name and
      password; a second factor, the live code or a recovery code handed out and not
      spent; every other one, an open gate, and a password change or the end of MFA the
      current password as well. */
  predicate Justified(kdf: (string, string) -> Key, b: Book, r: Request, code: int) {
    match r
    case Login(username, password, _, throttled) => code == 200 <==> !throttled && username == b.username && Proves(kdf, b, password)
    case LoginCheck(_, username, password, throttled) => code == 200 <==> !throttled && username == b.username && Proves(kdf, b, password)
    case LoginOpen(login, _) => code == 200 <==> login in b.held
    case Logout(_) => code == 204
    case ChangePassword(token, current, changed, _) =>
      code == 204 ==> GateOpen(b, token) && Utf8Len(changed) >= 12 && Proves(kdf, b, current)
    case MfaVerify(token, codeOk, codeHash, throttled) =>
      code == 200 ==> token.Some? && !GateOpen(b, token) && !throttled && (LiveCode(b.secret, codeOk) || codeHash in b.issued - b.spent)
    case MfaEnroll(token, _) => code == 200 ==> GateOpen(b, token) && !b.enabled
    case MfaConfirm(token, codeOk, _) => code == 200 ==> GateOpen(b, token) && LiveCode(b.secret, codeOk)
    case MfaDisable(token, password) => code == 204 ==> GateOpen(b, token) && Proves(kdf, b, password)
  }

  predicate AllJustified(kdf: (string, string) -> Key, b: Book, requests: seq<Request>, codes: seq<int>)
    requires |requests| == |codes|
  {
    requests == [] ||
    var n := |requests| - 1;
    AllJustified(kdf, b, requests[..n], codes[..n])
    && Justified(kdf, BookAfter(kdf, b, requests[..n], codes[..n]), requests[n], codes[n])
  }

  /** A login creates its session although the key it checked was replaced. */
  predicate Stale(b: Book, r: Request) { r.LoginOpen? && r.login in b.held && b.held[r.login].0 != b.key }

  /** No login in the run does. */
  predicate NeverStale(kdf: (string, string) -> Key, b: Book, requests: seq<Request>, codes: seq<int>)
    requires |requests| == |codes|
  {
    requests == [] ||
    var n := |requests| - 1;
    NeverStale(kdf, b, requests[..n], codes[..n]) && !Stale(BookAfter(kdf, b, requests[..n], codes[..n]), requests[n])
  }

  /** The rows and sessions are what the book says; a code is spent at most as often as
      it was handed out. */
  ghost predicate Matches(admin: Option<AdminRow>, sessions: Sessions, checked: map<nat, AdminRow>, b: Book) {
    && admin.Some? && admin.value.username == b.username && admin.value.salt == b.salt && admin.value.derivedKey == b.key
    && TotpPlain(admin) == b.secret && admin.value.totpEnabled == b.enabled && multiset(admin.value.codes) + b.spent == b.issued
    && (forall t :: t in sessions ==> (!sessions[t].mfaPending <==> t in b.open))
    && checked.Keys == b.held.Keys && forall l :: l in checked ==> Seen(admin.value, checked[l], b.held[l])
  }

  predicate Seen(a: AdminRow, row: AdminRow, held: (Key, bool)) {
    row.id == a.id && row.derivedKey == held.0 && row.totpEnabled == held.1
  }

  datatype Snapshot = Snapshot(admin: Option<AdminRow>, audit: Option<AuditKeys>, sessions: Sessions, checked: map<nat, AdminRow>) {
    ghost predicate Ok(b: Book) {
      KeysAgree(admin, sessions) && AuditPlain(admin, audit).Some? && Matches(admin, sessions, checked, b)
    }
  }

  /** A request was answered: what was granted was justified, the invariant survives exactly if it was no stale login,
      and then everything is as the answer says and the audit key is unchanged. */
  ghost predicate Answered(before: Snapshot, after: Snapshot, kdf: (string, string) -> Key, b: Book, r: Request, code: int) {
    before.Ok(b) ==>
      && Justified(kdf, b, r, code)
      && (KeysAgree(after.admin, after.sessions) && AuditPlain(after.admin, after.audit).Some? <==> !Stale(b, r))
      && (!Stale(b, r) ==> after.Ok(Next(kdf, b, r, code))
                           && AuditPlain(after.admin, after.audit) == AuditPlain(before.admin, before.audit))
  }

  /** The key opens everything it should. */
  predicate Rewrappable(a: AdminRow, audit: Option<AuditKeys>, key: Key) {
    && audit.Some? && Open(key, audit.value.wrapped).Some?
    && (a.totp.Some? && a.totpKeyId.Some? ==> Open(key, a.totp.value).Some?)
  }

  /** Nothing changed but the second factor. */
  predicate SameAccount(a: AdminRow, a': AdminRow) {
    a' == a.(totp := a'.totp, totpKeyId := a'.totpKeyId, totpEnabled := a'.totpEnabled, codes := a'.codes)
  }

  class AdminService {
    const kdf: (string, string) -> Key
    const idle: int
    var admin: Option<AdminRow>
    var audit: Option<AuditKeys>
    var sessions: Sessions
    var checked: map<nat, AdminRow>     // logins at work, with the row each has checked

    /** Every live session holds the stored key, and that key opens the TOTP secret
        and the audit private key. */
    ghost predicate Valid()
      reads this
    {
      KeysAgree(admin, sessions) && AuditPlain(admin, audit).Some?
    }

    constructor (kdf: (string, string) -> Key, idle: int)
      ensures admin.None? && audit.None? && sessions == map[] && checked == map[] && this.kdf == kdf && this.idle == idle
    {
      this.kdf, this.idle, admin, audit, sessions, checked := kdf, idle, None, None, map[], map[];
    }

    /** `bootstrap` then `bootstrap_keys`, each once ever. `keysWritten` is false when
        the second one fails; the server starts anyway, without an audit key row. */
    method Bootstrap(username: string, password: string, salt: string, auditPriv: Bytes, keysWritten: bool)
      modifies `admin, `audit
      ensures old(admin).Some? ==> admin == old(admin) && audit == old(audit)
      ensures old(admin).None? ==> admin == Some(AdminRow(1, username, salt, kdf(password, salt), true, None, None, false, []))
      ensures old(admin).None? && (old(audit).Some? || !keysWritten) ==> audit == old(audit)
      ensures old(admin).None? && old(audit).None? && keysWritten ==> audit.Some? && AuditPlain(admin, audit) == Some(auditPriv)
      ensures old(admin).None? && old(audit).None? && sessions == map[] ==> KeysAgree(admin, sessions) && (Valid() <==> keysWritten)
    {
      if admin.Some? { return; }
      var pk := kdf(password, salt);
      admin := Some(AdminRow(1, username, salt, pk, true, None, None, false, []));
      if audit.None? && keysWritten {
        audit := Some(AuditKeys(Seal(pk, 1, auditPriv), 1));
      }
    }

    /** The stored key, for the right name and password. */
    function VerifyLogin(username: string, password: string): (key: Option<Key>)
      reads this
      ensures key.Some? ==> admin.Some? && key.value == admin.value.derivedKey == kdf(password, admin.value.salt)
    {
      if admin.Some? && admin.value.username == username && kdf(password, admin.value.salt) == admin.value.derivedKey
      then Some(admin.value.derivedKey) else None
    }

    method Touch(token: Option<string>, now: int) returns (s: Option<Session>)
      modifies `sessions
      ensures s.Some? <==> old(Live(sessions, token, now, idle))
      ensures s.Some? ==> s.value == old(sessions)[token.value].(lastSeen := now) && sessions == old(sessions)[token.value := s.value]
      ensures s.None? && token.Some? ==> sessions == old(sessions) - {token.value}
      ensures token.None? ==> sessions == old(sessions)
      ensures Aged(old(sessions), sessions, token)
    {
      if token.None? || token.value !in sessions { return None; }
      if now - sessions[token.value].lastSeen > idle {
        sessions := sessions - {token.value};
        return None;
      }
      sessions := sessions[token.value := sessions[token.value].(lastSeen := now)];
      s := Some(sessions[token.value]);
    }

    method RequireAdmin(token: Option<string>, now: int) returns (code: int)
      modifies `sessions
      ensures code == 200 <==> old(Admitted(sessions, token, now, idle))
      ensures code == 401 <==> !old(Live(sessions, token, now, idle))
      ensures code != 200 && code != 401 ==> code == 403
      ensures Aged(old(sessions), sessions, token) && (code == 200 ==> token.value in sessions)
    {
      var s := Touch(token, now);
      if s.None? { return 401; }
      if s.value.mfaPending { return 403; }
      if s.value.mustChange { return 403; }
      code := 200;
    }

    /** `create`: with the key of an earlier check of the password. The invariant
        survives exactly when that key is still the stored one, so a password change
        between the check and this call breaks it. */
    method CreateSession(token: string, adminId: int, key: Key, mustChange: bool, mfaPending: bool, now: int)
      modifies `sessions
      ensures sessions == old(sessions)[token := Session(adminId, key, mustChange, mfaPending, now)]
      ensures old(Valid()) ==> (Valid() <==> adminId == admin.value.id && key == admin.value.derivedKey)
    {
      sessions := sessions[token := Session(adminId, key, mustChange, mfaPending, now)];
      assert token in sessions;
    }

    method HandleLogin(username: string, password: string, newToken: string, throttled: bool, now: int) returns (code: int)
      modifies `sessions
      ensures old(Valid()) ==> Valid()
      ensures code == 200 <==>
        !throttled && admin.Some? && admin.value.username == username && kdf(password, admin.value.salt) == admin.value.derivedKey
      ensures code != 200 ==> code == (if throttled then 429 else 401) && sessions == old(sessions)
      ensures code == 200 ==> var a := admin.value;
        sessions == old(sessions)[newToken := Session(a.id, a.derivedKey, a.mustChange, a.totpEnabled, now)]
    {
      if throttled { return 429; }
      var key := VerifyLogin(username, password);
      if key.None? { return 401; }
      CreateSession(newToken, admin.value.id, key.value, admin.value.mustChange, admin.value.totpEnabled, now);
      code := 200;
    }

    /** The first half of `login`: the row is read and the password checked. */
    method HandleLoginCheck(login: nat, username: string, password: string, throttled: bool) returns (code: int)
      modifies `checked
      ensures code == 200 <==>
        !throttled && admin.Some? && admin.value.username == username && kdf(password, admin.value.salt) == admin.value.derivedKey
      ensures code == 200 ==> admin.Some? && checked == old(checked)[login := admin.value]
      ensures code != 200 ==> code == (if throttled then 429 else 401) && checked == old(checked)
    {
      if throttled { return 429; }
      if VerifyLogin(username, password).None? { return 401; }
      checked := checked[login := admin.value];
      code := 200;
    }

    /** The second half: a session with what the first half saw. */
    method HandleLoginOpen(login: nat, newToken: string, now: int) returns (code: int)
      modifies `checked, `sessions
      ensures code == 200 <==> login in old(checked)
      ensures code == 200 ==> var a := old(checked)[login];
        sessions == old(sessions)[newToken := Session(a.id, a.derivedKey, a.mustChange, a.totpEnabled, now)]
      ensures code == 200 ==> checked == old(checked) - {login}
      ensures code != 200 ==> sessions == old(sessions) && checked == old(checked)
      ensures code == 200 && old(Valid()) && old(checked)[login].id == admin.value.id ==>
        (Valid() <==> old(checked)[login].derivedKey == admin.value.derivedKey)
    {
      if login !in checked { return 404; }
      var a := checked[login];
      CreateSession(newToken, a.id, a.derivedKey, a.mustChange, a.totpEnabled, now);
      checked := checked - {login};
      code := 200;
    }

    method HandleLogout(token: Option<string>, now: int) returns (code: int)
      modifies `sessions
      ensures old(Valid()) ==> Valid()
      ensures token.Some? ==> sessions == old(sessions) - {token.value}
      ensures token.None? ==> sessions == old(sessions)
      ensures code == 204
    {
      if token.Some? {
        var _ := Touch(token, now);
        sessions := sessions - {token.value};
      }
      code := 204;
    }

    /** `rewrap_audit_key`: false when there is no key row or it does not open. */
    method RewrapAuditKey(oldKey: Key, newKey: Key) returns (ok: bool)
      modifies `audit
      ensures ok <==> old(audit).Some? && Open(oldKey, old(audit).value.wrapped).Some?
      ensures ok ==> audit.Some? && Open(newKey, audit.value.wrapped) == Open(oldKey, old(audit).value.wrapped)
      ensures ok ==> audit.value.keyId == audit.value.wrapped.keyId == (old(audit).value.keyId + 1) % 65536
      ensures !ok ==> audit == old(audit)
    {
      if audit.None? { return false; }
      var plain := Open(oldKey, audit.value.wrapped);
      if plain.None? { return false; }
      var keyId := (audit.value.keyId + 1) % 0x10000;
      audit := Some(AuditKeys(Seal(newKey, keyId, plain.value), keyId));
      ok := true;
    }

    /** `rewrap_totp_secret`: nothing to do unless both columns are set. */
    method RewrapTotpSecret(oldKey: Key, newKey: Key) returns (ok: bool)
      requires admin.Some?
      modifies `admin
      ensures admin.Some? && admin.value == old(admin).value.(totp := admin.value.totp, totpKeyId := admin.value.totpKeyId)
      ensures ok ==> admin.value.totp.Some? == old(admin).value.totp.Some? && admin.value.totpKeyId.Some? == old(admin).value.totpKeyId.Some?
      ensures old(admin).value.totp.Some? && old(admin).value.totpKeyId.Some? ==>
        (ok <==> Open(oldKey, old(admin).value.totp.value).Some?)
        && (ok ==> Open(newKey, admin.value.totp.value) == Open(oldKey, old(admin).value.totp.value)
                   && admin.value.totpKeyId == Some(old(admin).value.totpKeyId.value + 1))
      ensures old(admin).value.totp.None? || old(admin).value.totpKeyId.None? ==> ok && admin == old(admin)
    {
      var a := admin.value;
      if a.totp.None? || a.totpKeyId.None? { return true; }
      var plain := Open(oldKey, a.totp.value);
      if plain.None? { return false; }
      var keyId := a.totpKeyId.value + 1;
      admin := Some(a.(totp := Some(Seal(newKey, keyId, plain.value)), totpKeyId := Some(keyId)));
      ok := true;
    }

    /** Both rewraps of a password change, the second only after the first. */
    method Rewrap(oldKey: Key, newKey: Key) returns (ok: bool)
      requires admin.Some?
      modifies `admin, `audit
      ensures admin.Some? && admin.value == old(admin).value.(totp := admin.value.totp, totpKeyId := admin.value.totpKeyId)
      ensures ok ==> old(audit).Some? && audit.Some? && Open(newKey, audit.value.wrapped) == Open(oldKey, old(audit).value.wrapped)
      ensures ok ==> admin.value.totp.Some? == old(admin).value.totp.Some? && admin.value.totpKeyId.Some? == old(admin).value.totpKeyId.Some?
      ensures ok && old(admin).value.totp.Some? && old(admin).value.totpKeyId.Some? ==>
        Open(newKey, admin.value.totp.value) == Open(oldKey, old(admin).value.totp.value)
      ensures ok && (old(admin).value.totp.None? || old(admin).value.totpKeyId.None?) ==> admin == old(admin)
      ensures old(audit).None? ==> !ok && admin == old(admin) && audit == old(audit)
      ensures Rewrappable(old(admin).value, old(audit), oldKey) ==> ok
    {
      ok := RewrapAuditKey(oldKey, newKey);
      if ok {
        ok := RewrapTotpSecret(oldKey, newKey);
      }
    }

    /** `complete_password_change`: only the changing session stays. */
    method CompletePasswordChange(token: string, adminId: int, newKey: Key, now: int) returns (ok: bool)
      modifies `sessions
      ensures ok <==> token in old(sessions) && old(sessions)[token].adminId == adminId
      ensures ok ==> sessions == map[token := Session(adminId, newKey, false, old(sessions)[token].mfaPending, now)]
      ensures !ok ==> sessions == old(sessions)
    {
      if token !in sessions { return false; }
      if sessions[token].adminId != adminId { return false; }
      var s := sessions[token].(wrapKey := newKey, mustChange := false, lastSeen := now);
      sessions := sessions[token := s];
      sessions := map t | t in sessions && t == token :: sessions[t];
      ok := true;
    }

    /** The request passes every check of `change_password`. */
    predicate MayChange(token: Option<string>, current: string, changed: string, now: int)
      reads this
    {
      && Utf8Len(changed) >= 12
      && Live(sessions, token, now, idle) && !sessions[token.value].mfaPending
      && admin.Some? && admin.value.id == sessions[token.value].adminId
      && kdf(current, admin.value.salt) == admin.value.derivedKey
    }

    /** A password change rewraps the audit key and the TOTP secret without altering
        them, moves its own session to the new key and ends all others. Without an
        audit key row it stops half way: the stored key has changed and the invariant
        is lost unless both keys are the same. */
    method HandleChangePassword(token: Option<string>, current: string, changed: string, salt: string, now: int) returns (code: int)
      modifies this
      ensures old(Valid()) ==> Valid() && AuditPlain(admin, audit) == old(AuditPlain(admin, audit)) && TotpPlain(admin) == old(TotpPlain(admin))
      ensures old(Valid()) ==> (code == 204 <==> old(MayChange(token, current, changed, now)))
      ensures code == 204 ==> token.Some? && token.value in old(sessions) && old(admin).Some?
      ensures code == 204 ==>
        sessions == map[token.value := Session(old(admin).value.id, kdf(changed, salt), false, old(sessions)[token.value].mfaPending, now)]
      ensures code == 204 ==> admin.Some? && old(admin).Some? && admin.value == old(admin).value.(
        salt := salt, derivedKey := kdf(changed, salt), mustChange := false, totp := admin.value.totp, totpKeyId := admin.value.totpKeyId)
      ensures !old(MayChange(token, current, changed, now)) ==>
        admin == old(admin) && audit == old(audit) && Aged(old(sessions), sessions, token)
        && code == (if Utf8Len(changed) < 12 then 422
                    else if old(Live(sessions, token, now, idle)) && old(sessions)[token.value].mfaPending then 403 else 401)
      ensures old(KeysAgree(admin, sessions)) && old(audit).None? && old(MayChange(token, current, changed, now)) ==>
        code == 500 && (KeysAgree(admin, sessions) <==> kdf(changed, salt) == old(admin).value.derivedKey)
      ensures GatesKept(old(sessions), sessions, None) && checked == old(checked)
    {
      if Utf8Len(changed) < 12 { return 422; }
      var s := Touch(token, now);
      if s.None? { return 401; }
      if s.value.mfaPending { return 403; }
      if admin.None? || admin.value.id != s.value.adminId { return 401; }
      var oldKey := VerifyLogin(admin.value.username, current);
      if oldKey.None? { return 401; }
      var newKey := kdf(changed, salt);
      admin := Some(admin.value.(salt := salt, derivedKey := newKey, mustChange := false));
      var rewrapped := Rewrap(oldKey.value, newKey);
      if !rewrapped {
        assert token.value in sessions;
        return 500;
      }
      var completed := CompletePasswordChange(token.value, s.value.adminId, newKey, now);
      code := if completed then 204 else 401;
    }

    /** Removes one recovery code, if it is there. */
    method SpendRecoveryCode(codeHash: string) returns (ok: bool)
      requires admin.Some?
      modifies `admin
      ensures ok <==> codeHash in old(admin).value.codes
      ensures admin.Some? && admin.value == old(admin).value.(codes := admin.value.codes)
      ensures ok ==> multiset(old(admin).value.codes) == multiset(admin.value.codes) + multiset{codeHash}
      ensures !ok ==> admin == old(admin)
    {
      var codes := admin.value.codes;
      var idx := Position(codes, codeHash);
      if idx.None? { return false; }
      var k := idx.value;
      assert codes == codes[..k] + [codeHash] + codes[k + 1..];
      admin := Some(admin.value.(codes := codes[..k] + codes[k + 1..]));
      ok := true;
    }

    /** What counts as a second factor: the live code, or a recovery code. */
    static predicate SecondFactor(admin: Option<AdminRow>, codeOk: Bytes -> bool, codeHash: string) {
      (TotpPlain(admin).Some? && codeOk(TotpPlain(admin).value)) || (admin.Some? && codeHash in admin.value.codes)
    }

    /** The live code, or else a recovery code, which is spent; None if the secret does
        not open. */
    method CheckFactor(key: Key, codeOk: Bytes -> bool, codeHash: string) returns (r: Option<bool>)
      requires admin.Some?
      modifies `admin
      ensures admin.Some? && admin.value == old(admin).value.(codes := admin.value.codes)
      ensures r.None? <==> old(admin).value.totp.Some? && Open(key, old(admin).value.totp.value).None?
      ensures r.Some? && key == old(admin).value.derivedKey ==>
        (r.value <==> LiveCode(old(TotpPlain(admin)), codeOk) || codeHash in old(admin).value.codes)
      ensures r != Some(true) ==> admin == old(admin)
      ensures r == Some(true) && key == old(admin).value.derivedKey && LiveCode(old(TotpPlain(admin)), codeOk) ==> admin == old(admin)
      ensures r == Some(true) && key == old(admin).value.derivedKey && !LiveCode(old(TotpPlain(admin)), codeOk) ==>
        multiset(old(admin).value.codes) == multiset(admin.value.codes) + multiset{codeHash}
    {
      var secret := None;
      if admin.value.totp.Some? {
        secret := Open(key, admin.value.totp.value);
        if secret.None? { return None; }
      }
      if secret.Some? && codeOk(secret.value) {
        return Some(true);
      }
      var spent := SpendRecoveryCode(codeHash);
      r := Some(spent);
    }

    /** A second factor: the live code, or else an unused recovery code, which it
        spends. */
    method HandleMfaVerify(token: Option<string>, codeOk: Bytes -> bool, codeHash: string, throttled: bool, now: int) returns (code: int)
      modifies `admin, `sessions
      ensures old(Valid()) ==> Valid() && TotpPlain(admin) == old(TotpPlain(admin)) && admin.value.derivedKey == old(admin).value.derivedKey
      ensures old(Valid()) ==> (code == 200 <==> old(Live(sessions, token, now, idle)) && old(sessions)[token.value].mfaPending
                                                 && !throttled && SecondFactor(old(admin), codeOk, codeHash))
      ensures GatesKept(old(sessions), sessions, if code == 200 then token else None)
      ensures code == 200 ==> token.Some? && token.value in old(sessions)
      ensures code == 200 ==> sessions == old(sessions)[token.value := old(sessions)[token.value].(mfaPending := false, lastSeen := now)]
      ensures code != 200 ==> admin == old(admin)
      ensures old(Valid()) && code != 200 ==>
        code == if !old(Live(sessions, token, now, idle)) then 401 else if !old(sessions)[token.value].mfaPending then 400
                else if throttled then 429 else 401
      ensures old(Valid()) && code == 200 && LiveCode(old(TotpPlain(admin)), codeOk) ==> admin == old(admin)
      ensures old(Valid()) && code == 200 && !LiveCode(old(TotpPlain(admin)), codeOk) ==>
        && admin.Some? && admin.value == old(admin).value.(codes := admin.value.codes)
        && multiset(old(admin).value.codes) == multiset(admin.value.codes) + multiset{codeHash}
    {
      var s := Touch(token, now);
      if s.None? { return 401; }
      if !s.value.mfaPending { return 400; }
      if admin.None? || admin.value.id != s.value.adminId { return 401; }
      if throttled { return 429; }
      var verified := CheckFactor(s.value.wrapKey, codeOk, codeHash);
      if verified.None? { return 500; }
      if !verified.value { return 401; }
      sessions := sessions[token.value := sessions[token.value].(mfaPending := false, lastSeen := now)];
      code := 200;
    }

    method HandleMfaEnroll(token: Option<string>, secret: Bytes, now: int) returns (code: int)
      modifies `admin, `sessions
      ensures old(Valid()) ==> Valid() && admin.value.derivedKey == old(admin).value.derivedKey
      ensures old(Valid()) ==> (code == 200 <==> old(Admitted(sessions, token, now, idle)) && !old(admin).value.totpEnabled)
      ensures old(Valid()) && code == 200 ==> TotpPlain(admin) == Some(secret) && !admin.value.totpEnabled && admin.value.codes == []
      ensures old(Valid()) ==> SameAccount(old(admin).value, admin.value)
      ensures code != 200 ==> admin == old(admin)
      ensures old(Valid()) && code != 200 ==> code == Refusal(old(sessions), token, now, idle, 409)
      ensures Aged(old(sessions), sessions, token)
    {
      var r := RequireAdmin(token, now);
      if r != 200 { return r; }
      if admin.None? || admin.value.id != sessions[token.value].adminId { return 500; }
      if admin.value.totpEnabled { return 409; }
      admin := Some(admin.value.(totp := Some(Seal(sessions[token.value].wrapKey, 1, secret)), totpKeyId := Some(1),
                                 totpEnabled := false, codes := []));
      code := 200;
    }

    method HandleMfaConfirm(token: Option<string>, codeOk: Bytes -> bool, hashes: seq<string>, now: int) returns (code: int)
      modifies `admin, `sessions
      ensures old(Valid()) ==> Valid() && admin.value.derivedKey == old(admin).value.derivedKey && TotpPlain(admin) == old(TotpPlain(admin))
      ensures old(Valid()) ==> (code == 200 <==>
          old(Admitted(sessions, token, now, idle)) && TotpPlain(old(admin)).Some? && codeOk(TotpPlain(old(admin)).value))
      ensures code == 200 ==> admin.Some? && admin.value.totpEnabled && admin.value.codes == hashes
      ensures old(Valid()) ==> SameAccount(old(admin).value, admin.value)
      ensures code != 200 ==> admin == old(admin)
      ensures old(Valid()) && code != 200 ==>
        code == Refusal(old(sessions), token, now, idle, if TotpPlain(old(admin)).None? then 409 else 401)
      ensures Aged(old(sessions), sessions, token)
    {
      var r := RequireAdmin(token, now);
      if r != 200 { return r; }
      if admin.None? || admin.value.id != sessions[token.value].adminId { return 401; }
      if admin.value.totp.None? { return 409; }
      var secret := Open(sessions[token.value].wrapKey, admin.value.totp.value);
      if secret.None? { return 500; }
      if !codeOk(secret.value) { return 401; }
      admin := Some(admin.value.(totpEnabled := true, codes := hashes));
      code := 200;
    }

    method HandleMfaDisable(token: Option<string>, password: string, now: int) returns (code: int)
      modifies `admin, `sessions
      ensures old(Valid()) ==> Valid() && admin.value.derivedKey == old(admin).value.derivedKey
      ensures old(Valid()) ==> (code == 204 <==>
          old(Admitted(sessions, token, now, idle)) && kdf(password, old(admin).value.salt) == old(admin).value.derivedKey)
      ensures code == 204 ==> TotpPlain(admin) == None && admin.Some? && !admin.value.totpEnabled && admin.value.codes == []
      ensures old(Valid()) ==> SameAccount(old(admin).value, admin.value)
      ensures code != 204 ==> admin == old(admin)
      ensures old(Valid()) && code != 204 ==> code == Refusal(old(sessions), token, now, idle, 401)
      ensures Aged(old(sessions), sessions, token)
    {
      var r := RequireAdmin(token, now);
      if r != 200 { return r; }
      if admin.None? || admin.value.id != sessions[token.value].adminId { return 401; }
      if VerifyLogin(admin.value.username, password).None? { return 401; }
      admin := Some(admin.value.(totp := None, totpKeyId := None, totpEnabled := false, codes := []));
      code := 204;
    }

    ghost function Now(): Snapshot
      reads this
    {
      Snapshot(admin, audit, sessions, checked)
    }

    /** One request: the invariant survives exactly if it is no stale login, and then
        the rows and sessions are what the answer amounts to. */
    method Handle(request: Request, now: int, ghost b: Book) returns (code: int)
      modifies this
      ensures Answered(old(Now()), Now(), kdf, b, request, code)
    {
      match request
      case Login(_, _, _, _) => code := AnswerLogin(request, now, b);
      case LoginCheck(_, _, _, _) => code := AnswerLoginCheck(request, now, b);
      case LoginOpen(_, _) => code := AnswerLoginOpen(request, now, b);
      case Logout(_) => code := AnswerLogout(request, now, b);
      case ChangePassword(_, _, _, _) => code := AnswerChange(request, now, b);
      case MfaVerify(_, _, _, _) => code := AnswerVerify(request, now, b);
      case MfaEnroll(_, _) => code := AnswerEnroll(request, now, b);
      case MfaConfirm(_, _, _) => code := AnswerConfirm(request, now, b);
      case MfaDisable(_, _) => code := AnswerDisable(request, now, b);
    }

    method AnswerLogin(request: Request, now: int, ghost b: Book) returns (code: int)
      requires request.Login?
      modifies this
      ensures Answered(old(Now()), Now(), kdf, b, request, code)
    {
      code := HandleLogin(request.username, request.password, request.newToken, request.throttled, now);
    }

    method AnswerLoginCheck(request: Request, now: int, ghost b: Book) returns (code: int)
      requires request.LoginCheck?
      modifies this
      ensures Answered(old(Now()), Now(), kdf, b, request, code)
    {
      code := HandleLoginCheck(request.login, request.username, request.password, request.throttled);
    }

    method AnswerLoginOpen(request: Request, now: int, ghost b: Book) returns (code: int)
      requires request.LoginOpen?
      modifies this
      ensures Answered(old(Now()), Now(), kdf, b, request, code)
    {
      code := HandleLoginOpen(request.login, request.newToken, now);
    }

    method AnswerLogout(request: Request, now: int, ghost b: Book) returns (code: int)
      requires request.Logout?
      modifies this
      ensures Answered(old(Now()), Now(), kdf, b, request, code)
    {
      code := HandleLogout(request.token, now);
    }

    method AnswerChange(request: Request, now: int, ghost b: Book) returns (code: int)
      requires request.ChangePassword?
      modifies this
      ensures Answered(old(Now()), Now(), kdf, b, request, code)
    {
      code := HandleChangePassword(request.token, request.current, request.changed, request.salt, now);
    }

    method AnswerVerify(request: Request, now: int, ghost b: Book) returns (code: int)
      requires request.MfaVerify?
      modifies this
      ensures Answered(old(Now()), Now(), kdf, b, request, code)
    {
      ghost var before := Now();
      code := HandleMfaVerify(request.token, request.codeOk, request.codeHash, request.throttled, now);
      if before.Ok(b) {
        if code == 200 {
          VerifyGranted(before, Now(), kdf, b, request, now);
        } else {
          VerifyRefused(before, Now(), kdf, b, request, code);
        }
      }
    }

    method AnswerEnroll(request: Request, now: int, ghost b: Book) returns (code: int)
      requires request.MfaEnroll?
      modifies this
      ensures Answered(old(Now()), Now(), kdf, b, request, code)
    {
      code := HandleMfaEnroll(request.token, request.secret, now);
    }

    method AnswerConfirm(request: Request, now: int, ghost b: Book) returns (code: int)
      requires request.MfaConfirm?
      modifies this
      ensures Answered(old(Now()), Now(), kdf, b, request, code)
    {
      code := HandleMfaConfirm(request.token, request.codeOk, request.hashes, now);
    }

    method AnswerDisable(request: Request, now: int, ghost b: Book) returns (code: int)
      requires request.MfaDisable?
      modifies this
      ensures Answered(old(Now()), Now(), kdf, b, request, code)
    {
      code := HandleMfaDisable(request.token, request.password, now);
    }

    /** Every sequence of requests, with logins in halves that others come between: the
        invariant holds throughout exactly if no login creates its session after the key
        it checked was replaced. Then the audit private key stays readable and unchanged,
        every request granted came with what it takes, and keys, secrets, spent codes and
        open gates are what the answers amount to. */
    method Serve(requests: seq<Request>, clock: seq<int>, ghost b: Book) returns (codes: seq<int>, ghost always: bool)
      requires Valid() && Matches(admin, sessions, checked, b) && |clock| == |requests|
      modifies this
      ensures |codes| == |requests| && (always <==> NeverStale(kdf, b, requests, codes))
      ensures always ==> Valid() && Matches(admin, sessions, checked, BookAfter(kdf, b, requests, codes))
      ensures always ==> AuditPlain(admin, audit) == old(AuditPlain(admin, audit)) && AllJustified(kdf, b, requests, codes)
    {
      codes, always := [], true;
      for i := 0 to |requests|
        invariant |codes| == i && (always <==> NeverStale(kdf, b, requests[..i], codes))
        invariant always ==> Valid() && Matches(admin, sessions, checked, BookAfter(kdf, b, requests[..i], codes))
        invariant always ==> AuditPlain(admin, audit) == old(AuditPlain(admin, audit)) && AllJustified(kdf, b, requests[..i], codes)
      {
        ghost var now := BookAfter(kdf, b, requests[..i], codes);
        var code := Handle(requests[i], clock[i], now);
        BookOfNext(kdf, b, requests[..i], codes, requests[i], code);
        codes, always := codes + [code], always && Valid();
        assert requests[..i + 1] == requests[..i] + [requests[i]];
      }
      assert requests[..|requests|] == requests;
    }
  }

  lemma {:induction false} VerifyGranted(before: Snapshot, after: Snapshot, kdf: (string, string) -> Key, b: Book, r: Request, now: int)
    requires r.MfaVerify? && before.Ok(b) && KeysAgree(after.admin, after.sessions) && AuditPlain(after.admin, after.audit).Some?
    requires r.token.Some? && r.token.value in before.sessions && before.sessions[r.token.value].mfaPending && !r.throttled
    requires LiveCode(b.secret, r.codeOk) || r.codeHash in before.admin.value.codes
    requires after.audit == before.audit && after.checked == before.checked && TotpPlain(after.admin) == TotpPlain(before.admin)
    requires after.sessions == before.sessions[r.token.value := before.sessions[r.token.value].(mfaPending := false, lastSeen := now)]
    requires after.admin.value == before.admin.value.(codes := after.admin.value.codes)
    requires if LiveCode(b.secret, r.codeOk) then after.admin == before.admin
             else multiset(before.admin.value.codes) == multiset(after.admin.value.codes) + multiset{r.codeHash}
    ensures Answered(before, after, kdf, b, r, 200)
  {
    SpendsOne(multiset(before.admin.value.codes), multiset(after.admin.value.codes), r.codeHash, b.spent, b.issued);
    assert r.codeHash in before.admin.value.codes ==> r.codeHash in b.issued - b.spent;
  }

  lemma {:induction false} VerifyRefused(before: Snapshot, after: Snapshot, kdf: (string, string) -> Key, b: Book, r: Request, code: int)
    requires r.MfaVerify? && before.Ok(b) && KeysAgree(after.admin, after.sessions) && AuditPlain(after.admin, after.audit).Some?
    requires code != 200 && after.admin == before.admin && after.audit == before.audit && after.checked == before.checked
    requires GatesKept(before.sessions, after.sessions, None)
    ensures Answered(before, after, kdf, b, r, code)
  {
  }

  lemma {:induction false} SpendsOne(before: multiset<string>, after: multiset<string>, hash: string, spent: multiset<string>, issued: multiset<string>)
    ensures before == after + multiset{hash} && before + spent == issued ==> after + (spent + multiset{hash}) == issued
  {
  }

  lemma {:induction false} BookOfNext(kdf: (string, string) -> Key, b: Book, requests: seq<Request>, codes: seq<int>, r: Request, code: int)
    requires |requests| == |codes|
    ensures BookAfter(kdf, b, requests + [r], codes + [code]) == Next(kdf, BookAfter(kdf, b, requests, codes), r, code)
    ensures NeverStale(kdf, b, requests + [r], codes + [code]) <==>
      NeverStale(kdf, b, requests, codes) && !Stale(BookAfter(kdf, b, requests, codes), r)
    ensures AllJustified(kdf, b, requests + [r], codes + [code]) <==>
      AllJustified(kdf, b, requests, codes) && Justified(kdf, BookAfter(kdf, b, requests, codes), r, code)
  {
    assert (requests + [r])[..|requests|] == requests && (codes + [code])[..|codes|] == codes;
  }

  /** Logins that are one request never are stale. */
  lemma {:induction false} WholeLoginsNeverStale(kdf: (string, string) -> Key, b: Book, requests: seq<Request>, codes: seq<int>)
    requires |requests| == |codes| && forall k :: 0 <= k < |requests| ==> !requests[k].LoginOpen?
    ensures NeverStale(kdf, b, requests, codes)
  {
    if requests == [] {
    } else {
      var n := |requests| - 1;
      WholeLoginsNeverStale(kdf, b, requests[..n], codes[..n]);
    }
  }

  /** What may open a token's gate: a login that saw MFA off, or a second factor. */
  predicate Opens(b: Book, r: Request, code: int, token: string) {
    match r
    case Login(_, _, newToken, _) => code == 200 && newToken == token && !b.enabled
    case LoginOpen(login, newToken) => login in b.held && newToken == token && !b.held[login].1
    case MfaVerify(t, _, _, _) => code == 200 && t == Some(token)
    case _ => false
  }

  /** An open gate was open at the start, or one of the requests opened it. */
  lemma {:induction false} GateWasOpened(kdf: (string, string) -> Key, b: Book, requests: seq<Request>, codes: seq<int>, token: string) returns (k: nat)
    requires |requests| == |codes| && token in BookAfter(kdf, b, requests, codes).open && token !in b.open
    ensures k < |requests| && Opens(BookAfter(kdf, b, requests[..k], codes[..k]), requests[k], codes[k], token)
  {
    var n := |requests| - 1;
    if token in BookAfter(kdf, b, requests[..n], codes[..n]).open {
      k := GateWasOpened(kdf, b, requests[..n], codes[..n], token);
      assert requests[..n][..k] == requests[..k] && codes[..n][..k] == codes[..k];
    } else {
      k := n;
    }
  }

  /** The invariant can be lost: a login checks the first password, another session
      changes the password, and only then does the login create its session, with the
      key that was replaced. It survives exactly if both keys are the same. */
  method StaleLogin(kdf: (string, string) -> Key, idle: nat, username: string, first: string, salt: string,
                    changed: string, newSalt: string, auditPriv: Bytes, now: int)
    returns (service: AdminService)
    requires Utf8Len(changed) >= 12
    ensures service.Valid() <==> kdf(changed, newSalt) == kdf(first, salt)
    ensures KeyOf(service.sessions, "slow") == Some(kdf(first, salt))
    ensures service.admin.Some? && service.admin.value.username == username && service.admin.value.salt == newSalt
    ensures service.admin.Some? && service.admin.value.derivedKey == kdf(changed, newSalt)
  {
    service := new AdminService(kdf, idle);
    service.Bootstrap(username, first, salt, auditPriv, true);
    var code := service.HandleLogin(username, first, "quick", false, now);
    var checked := service.VerifyLogin(username, first);
    var a := service.admin.value;
    code := service.HandleChangePassword(Some("quick"), first, changed, newSalt, now);
    assert service.Valid();
    service.CreateSession("slow", a.id, checked.value, a.mustChange, a.totpEnabled, now);
  }

  /** A server whose audit keys were not written comes to the other failure: its first
      password change is answered 500 and leaves the session with a dead key. */
  method HalfBootstrapped(kdf: (string, string) -> Key, idle: nat, username: string, first: string, salt: string,
                          changed: string, newSalt: string, auditPriv: Bytes, now: int)
    returns (service: AdminService, code: int)
    requires Utf8Len(changed) >= 12
    ensures code == 500 && (KeysAgree(service.admin, service.sessions) <==> kdf(changed, newSalt) == kdf(first, salt))
  {
    service := new AdminService(kdf, idle);
    service.Bootstrap(username, first, salt, auditPriv, false);
    code := service.HandleLogin(username, first, "only", false, now);
    code := service.HandleChangePassword(Some("only"), first, changed, newSalt, now);
  }

  function KeyOf(sessions: Sessions, token: string): Option<Key> {
    if token in sessions then Some(sessions[token].wrapKey) else None
  }

  /** `match_recovery_code`: the first stored hash equal to the candidate's. */
  function Position(codes: seq<string>, hash: string): (r: Option<nat>)
    ensures r.Some? <==> hash in codes
    ensures r.Some? ==> r.value < |codes| && codes[r.value] == hash && hash !in codes[..r.value]
  {
    if codes == [] then None
    else if codes[0] == hash then Some(0)
    else
      var rest := Position(codes[1..], hash);
      if rest.None? then None else Some(rest.value + 1)
  }
}
