/** backend/app/routers/auth.py: e-mail codes, registration by invitation,
    login and the issuing of invitation codes.

    Times are microseconds on one clock, and each request reads it once
    (`now`).  Random codes, fresh ids, password hashing and checking are
    parameters.  The three tables are sequences of rows. */
module Auth {
  import opened Common
  import opened Strings

  const Second: int := 1_000_000
  const Day: int := 86_400 * Second
  /** A new e-mail code expires ten minutes after it is created. */
  const CodeLifetime: int := 10 * 60 * Second
  /** An issued invitation expires thirty days after it is created. */
  const InvitationLifetime: int := 30 * Day
  /** A new code is refused while the newest open one is younger than this, in seconds. */
  const CooldownSeconds: int := 60
  /** At most this many invitation codes per request. */
  const MaxCodesPerRequest: int := 10

  datatype Account = Account(id: string, email: string, passwordHash: string, nickname: string, isActive: bool, isAdmin: bool)

  datatype Invitation = Invitation(code: string, createdBy: Option<string>, usedBy: Option<string>, isUsed: bool,
                                   maxUses: int, currentUses: int, expiresAt: Option<int>)

  datatype Verification = Verification(email: string, code: string, isUsed: bool, expiresAt: int, createdAt: int)

  datatype Tables = Tables(users: seq<Account>, invitations: seq<Invitation>, verifications: seq<Verification>)

  /** `users.email` and `invitation_codes.code` are declared unique. */
  predicate UniqueKeys(t: Tables)
  {
    (forall i, j | 0 <= i < j < |t.users| :: t.users[i].email != t.users[j].email) &&
    (forall i, j | 0 <= i < j < |t.invitations| :: t.invitations[i].code != t.invitations[j].code)
  }

  // ---------------------------------------------------------------------------
  // send_email_code
  // ---------------------------------------------------------------------------

  /** `timedelta.seconds` of a difference in microseconds: the whole seconds
      within its last day, whole days dropped. */
  function TimedeltaSeconds(d: int): (r: int)
    ensures 0 <= r < 86_400
  {
    (d % Day) / Second
  }

  /** Below a day, `.seconds` under the cooldown means younger than the
      cooldown; a clock that ran backwards reads as nearly a day old. */
  lemma TimedeltaSecondsBelowADay(d: int)
    requires -Day <= d < Day
    ensures 0 <= d ==> (TimedeltaSeconds(d) < CooldownSeconds <==> d < CooldownSeconds * Second)
    ensures d < 0 ==> TimedeltaSeconds(d) >= 86_400 + d / Second
  {
  }

  /** The e-mail's unused codes that have not expired. */
  function ActiveCodes(vs: seq<Verification>, email: string, now: int): seq<Verification>
  {
    Filter(vs, (v: Verification) => v.email == email && !v.isUsed && v.expiresAt > now)
  }

  datatype SendOutcome = CodeSent(code: string) | TooManyRequests | SendServerError

  function NewCode(email: string, code: string, now: int): Verification
  {
    Verification(email, code, false, now + CodeLifetime, now)
  }

  /** What follows the lookup of the existing code. */
  function SendAfter(vs: seq<Verification>, existing: Lookup<Verification>, email: string, code: string, now: int)
    : (seq<Verification>, SendOutcome)
  {
    match existing
    case ManyRows => (vs, SendServerError)
    case OneRow(v) =>
      if TimedeltaSeconds(now - v.createdAt) < CooldownSeconds then (vs, TooManyRequests)
      else (vs + [NewCode(email, code, now)], CodeSent(code))
    case NoRow => (vs + [NewCode(email, code, now)], CodeSent(code))
  }

  /** `send_email_code` as written: `scalar_one_or_none()` over every active
      code of the e-mail. */
  function SendCodeAsWritten(vs: seq<Verification>, email: string, code: string, now: int): (r: (seq<Verification>, SendOutcome))
    ensures r.1 == SendServerError <==> |ActiveCodes(vs, email, now)| > 1
    ensures r.1.CodeSent? ==> r.1.code == code && r.0 == vs + [NewCode(email, code, now)]
    ensures !r.1.CodeSent? ==> r.0 == vs
  {
    SendAfter(vs, ScalarOneOrNone(ActiveCodes(vs, email, now)), email, code, now)
  }

  /** The newest row, as `order_by(created_at.desc())` puts first. */
  function Newest(vs: seq<Verification>): (r: Option<Verification>)
    ensures r.Some? <==> vs != []
    ensures r.Some? ==> r.value in vs && forall k | 0 <= k < |vs| :: vs[k].createdAt <= r.value.createdAt
  {
    if vs == [] then None
    else
      var n := Newest(vs[..|vs| - 1]);
      var last := vs[|vs| - 1];
      assert forall k | 0 <= k < |vs| - 1 :: vs[k] == vs[..|vs| - 1][k];
      if n.None? || last.createdAt > n.value.createdAt then Some(last) else n
  }

  /** `send_email_code` with the lookup the ordering asks for: the newest
      active code. */
  function SendCodeSpec(vs: seq<Verification>, email: string, code: string, now: int): (r: (seq<Verification>, SendOutcome))
    ensures r.1 != SendServerError
    ensures r.1.CodeSent? ==> r.1.code == code && r.0 == vs + [NewCode(email, code, now)]
    ensures !r.1.CodeSent? ==> r.0 == vs
  {
    var newest := Newest(ActiveCodes(vs, email, now));
    SendAfter(vs, if newest.Some? then OneRow(newest.value) else NoRow, email, code, now)
  }

  /** Three requests from an empty table, the second 61 s after the first and
      the third one second later: the first two send codes, the third finds
      two active codes and fails with MultipleResultsFound. */
  lemma SendCodeThirdRequestFails(email: string, t: int)
    ensures var s1 := SendCodeAsWritten([], email, "111111", t);
      var s2 := SendCodeAsWritten(s1.0, email, "222222", t + 61 * Second);
      s1.1.CodeSent? && s2.1.CodeSent? &&
      SendCodeAsWritten(s2.0, email, "333333", t + 62 * Second).1 == SendServerError
  {
    var v1 := NewCode(email, "111111", t);
    var v2 := NewCode(email, "222222", t + 61 * Second);
    assert ActiveCodes([], email, t) == [];
    assert [v1][..0] == [];
    assert ActiveCodes([v1], email, t + 61 * Second) == [v1];
    assert TimedeltaSeconds(61 * Second) == 61;
    assert [v1, v2][..1] == [v1];
    assert ActiveCodes([v1], email, t + 62 * Second) == [v1];
    assert ActiveCodes([v1, v2], email, t + 62 * Second) == [v1, v2];
  }

  /** With the newest-code lookup the request never fails; with rows created
      by this route up to `now`, a code is refused exactly when an active
      code of the e-mail is younger than the cooldown. */
  lemma SendCodeCooldown(vs: seq<Verification>, email: string, code: string, now: int)
    requires forall k | 0 <= k < |vs| :: vs[k].createdAt <= now && vs[k].expiresAt == vs[k].createdAt + CodeLifetime
    ensures SendCodeSpec(vs, email, code, now).1 != SendServerError
    ensures SendCodeSpec(vs, email, code, now).1 == TooManyRequests <==>
      exists k | 0 <= k < |vs| :: vs[k].email == email && !vs[k].isUsed && now - vs[k].createdAt < CooldownSeconds * Second
    ensures SendCodeSpec(vs, email, code, now).1.CodeSent? ==>
      SendCodeSpec(vs, email, code, now).0 == vs + [Verification(email, code, false, now + CodeLifetime, now)]
  {
    var p := (v: Verification) => v.email == email && !v.isUsed && v.expiresAt > now;
    var active := ActiveCodes(vs, email, now);
    var newest := Newest(active);
    if newest.Some? {
      var n := newest.value;
      FilterMember(vs, p, n);
      TimedeltaSecondsBelowADay(now - n.createdAt);
      if exists k | 0 <= k < |vs| :: vs[k].email == email && !vs[k].isUsed && now - vs[k].createdAt < CooldownSeconds * Second {
        var k :| 0 <= k < |vs| && vs[k].email == email && !vs[k].isUsed && now - vs[k].createdAt < CooldownSeconds * Second;
        FilterMember(vs, p, vs[k]);
        var j :| 0 <= j < |active| && active[j] == vs[k];
      }
    } else {
      FilterEmpty(vs, p);
    }
  }

  // ---------------------------------------------------------------------------
  // register
  // ---------------------------------------------------------------------------

  datatype RegisterRequest = RegisterRequest(email: string, password: string, nickname: Option<string>,
                                             invitationCode: string, emailCode: string)

  datatype RegisterOutcome = Registered(userId: string) | EmailTaken | InvalidInvitation | InvitationExpired
                           | InvalidEmailCode | RegisterServerError

  function AccountsWithEmail(users: seq<Account>, email: string): seq<Account>
  {
    Filter(users, (u: Account) => u.email == email)
  }

  predicate Open(inv: Invitation, code: string)
  {
    inv.code == code && !inv.isUsed
  }

  function OpenInvitations(invs: seq<Invitation>, code: string): seq<Invitation>
  {
    Filter(invs, (i: Invitation) => Open(i, code))
  }

  /** A code row the registration accepts: the e-mail's, with the given
      code, unused and unexpired. */
  predicate Accepts(v: Verification, email: string, code: string, now: int)
  {
    v.email == email && v.code == code && !v.isUsed && v.expiresAt > now
  }

  function AcceptedCodes(vs: seq<Verification>, email: string, code: string, now: int): seq<Verification>
  {
    Filter(vs, (v: Verification) => Accepts(v, email, code, now))
  }

  /** An invitation without an expiry never expires. */
  predicate Expired(inv: Invitation, now: int)
  {
    inv.expiresAt.Some? && inv.expiresAt.value < now
  }

  /** `request.nickname or request.email.split("@")[0]` */
  function Nickname(req: RegisterRequest): string
  {
    if req.nickname.Some? && req.nickname.value != "" then req.nickname.value else Split(req.email, "@")[0]
  }

  /** One more use; the invitation closes, naming `usedBy`, once its uses
      reach its maximum. */
  function Consume(inv: Invitation, usedBy: Option<string>): Invitation
  {
    var uses := inv.currentUses + 1;
    if uses >= inv.maxUses then inv.(currentUses := uses, isUsed := true, usedBy := usedBy) else inv.(currentUses := uses)
  }

  function ConsumeOpen(invs: seq<Invitation>, code: string, usedBy: Option<string>): (r: seq<Invitation>)
    ensures |r| == |invs|
  {
    seq(|invs|, k requires 0 <= k < |invs| => if Open(invs[k], code) then Consume(invs[k], usedBy) else invs[k])
  }

  function MarkUsed(vs: seq<Verification>, email: string, code: string, now: int): (r: seq<Verification>)
    ensures |r| == |vs|
  {
    seq(|vs|, k requires 0 <= k < |vs| => if Accepts(vs[k], email, code, now) then vs[k].(isUsed := true) else vs[k])
  }

  /** `register`, with the value it stores in `used_by`: the checks in order,
      the first failure answering with nothing changed; on success the new
      active, non-admin account, one more use of the invitation and the code
      marked used. */
  function RegisterStep(t: Tables, req: RegisterRequest, now: int, userId: string, hash: string -> string, usedBy: Option<string>)
    : (r: (Tables, RegisterOutcome))
    ensures !r.1.Registered? ==> r.0 == t
    ensures r.1.Registered? ==>
      (r.1.userId == userId
       && r.0.users == t.users + [Account(userId, req.email, hash(req.password), Nickname(req), true, false)]
       && |r.0.invitations| == |t.invitations| && |r.0.verifications| == |t.verifications|)
    ensures r.1.Registered? ==> AccountsWithEmail(t.users, req.email) == [] && |OpenInvitations(t.invitations, req.invitationCode)| == 1
  {
    match ScalarOneOrNone(AccountsWithEmail(t.users, req.email))
    case OneRow(_) => (t, EmailTaken)
    case ManyRows => (t, RegisterServerError)
    case NoRow =>
      match ScalarOneOrNone(OpenInvitations(t.invitations, req.invitationCode))
      case NoRow => (t, InvalidInvitation)
      case ManyRows => (t, RegisterServerError)
      case OneRow(inv) =>
        if Expired(inv, now) then (t, InvitationExpired)
        else
          match ScalarOneOrNone(AcceptedCodes(t.verifications, req.email, req.emailCode, now))
          case NoRow => (t, InvalidEmailCode)
          case ManyRows => (t, RegisterServerError)
          case OneRow(_) =>
            var user := Account(userId, req.email, hash(req.password), Nickname(req), true, false);
            (Tables(t.users + [user], ConsumeOpen(t.invitations, req.invitationCode, usedBy),
                    MarkUsed(t.verifications, req.email, req.emailCode, now)),
             Registered(userId))
  }

  /** `register` as written: `used_by` is read from the new account's id
      before the flush that assigns it, so it is stored empty. */
  function RegisterAsWritten(t: Tables, req: RegisterRequest, now: int, userId: string, hash: string -> string): (Tables, RegisterOutcome)
  {
    RegisterStep(t, req, now, userId, hash, None)
  }

  /** `register` recording the new account in `used_by`. */
  function RegisterSpec(t: Tables, req: RegisterRequest, now: int, userId: string, hash: string -> string): (Tables, RegisterOutcome)
  {
    RegisterStep(t, req, now, userId, hash, Some(userId))
  }

  /** A fresh, single-use invitation with no expiry. */
  function SingleUse(code: string): Invitation
  {
    Invitation(code, None, None, false, 1, 0, None)
  }

  /** The first registration with a single-use invitation closes it without
      recording who used it. */
  lemma UsedByNotRecorded(req: RegisterRequest, now: int, userId: string, hash: string -> string)
    requires req.emailCode != ""
    ensures var t := Tables([], [SingleUse(req.invitationCode)], [Verification(req.email, req.emailCode, false, now + 1, now)]);
      var r := RegisterAsWritten(t, req, now, userId, hash);
      r.1 == Registered(userId) && r.0.invitations[0].isUsed && r.0.invitations[0].usedBy == None
  {
    var t := Tables([], [SingleUse(req.invitationCode)], [Verification(req.email, req.emailCode, false, now + 1, now)]);
    RegisterOneRowFixture(t, req, now);
  }

  lemma RegisterOneRowFixture(t: Tables, req: RegisterRequest, now: int)
    requires t == Tables([], [SingleUse(req.invitationCode)], [Verification(req.email, req.emailCode, false, now + 1, now)])
    ensures AccountsWithEmail(t.users, req.email) == []
    ensures OpenInvitations(t.invitations, req.invitationCode) == [SingleUse(req.invitationCode)]
    ensures AcceptedCodes(t.verifications, req.email, req.emailCode, now) == t.verifications
  {
    assert t.invitations[..0] == [] && t.verifications[..0] == [];
  }

  /** With unique keys, the outcome is decided by the first failing check,
      and a failure changes nothing. */
  lemma RegisterCheckOrder(t: Tables, req: RegisterRequest, now: int, userId: string, hash: string -> string)
    requires UniqueKeys(t)
    ensures var r := RegisterSpec(t, req, now, userId, hash);
      (r.1 == EmailTaken <==> exists u | 0 <= u < |t.users| :: t.users[u].email == req.email) &&
      (r.1 == InvalidInvitation <==> (forall u | 0 <= u < |t.users| :: t.users[u].email != req.email) &&
                                     forall k | 0 <= k < |t.invitations| :: !Open(t.invitations[k], req.invitationCode)) &&
      (r.1 == InvitationExpired <==> (forall u | 0 <= u < |t.users| :: t.users[u].email != req.email) &&
                                     exists k | 0 <= k < |t.invitations| :: Open(t.invitations[k], req.invitationCode) && Expired(t.invitations[k], now)) &&
      (r.1 == InvalidEmailCode <==> (forall u | 0 <= u < |t.users| :: t.users[u].email != req.email) &&
                                    (exists k | 0 <= k < |t.invitations| :: Open(t.invitations[k], req.invitationCode) && !Expired(t.invitations[k], now)) &&
                                    forall j | 0 <= j < |t.verifications| :: !Accepts(t.verifications[j], req.email, req.emailCode, now))
    ensures !RegisterSpec(t, req, now, userId, hash).1.Registered? ==> RegisterSpec(t, req, now, userId, hash).0 == t
  {
    EmailLookup(t.users, req.email);
    InvitationLookup(t.invitations, req.invitationCode);
    CodeLookup(t.verifications, req.email, req.emailCode, now);
  }

  /** With unique e-mails the lookup by e-mail finds the one account or none. */
  lemma EmailLookup(users: seq<Account>, email: string)
    requires forall i, j | 0 <= i < j < |users| :: users[i].email != users[j].email
    ensures ScalarOneOrNone(AccountsWithEmail(users, email)).NoRow? <==> forall u | 0 <= u < |users| :: users[u].email != email
    ensures forall u | 0 <= u < |users| && users[u].email == email :: ScalarOneOrNone(AccountsWithEmail(users, email)) == OneRow(users[u])
  {
    var p := (u: Account) => u.email == email;
    FilterEmpty(users, p);
    forall u | 0 <= u < |users| && users[u].email == email ensures AccountsWithEmail(users, email) == [users[u]] {
      FilterOnly(users, p, users[u]);
    }
  }

  /** With unique codes the lookup of an open invitation finds the one open
      row with the code or none. */
  lemma InvitationLookup(invs: seq<Invitation>, code: string)
    requires forall i, j | 0 <= i < j < |invs| :: invs[i].code != invs[j].code
    ensures ScalarOneOrNone(OpenInvitations(invs, code)).NoRow? <==> forall k | 0 <= k < |invs| :: !Open(invs[k], code)
    ensures forall k | 0 <= k < |invs| && Open(invs[k], code) :: ScalarOneOrNone(OpenInvitations(invs, code)) == OneRow(invs[k])
  {
    var p := (i: Invitation) => Open(i, code);
    FilterEmpty(invs, p);
    forall k | 0 <= k < |invs| && Open(invs[k], code) ensures OpenInvitations(invs, code) == [invs[k]] {
      FilterOnly(invs, p, invs[k]);
    }
  }

  lemma CodeLookup(vs: seq<Verification>, email: string, code: string, now: int)
    ensures ScalarOneOrNone(AcceptedCodes(vs, email, code, now)).NoRow? <==>
      forall j | 0 <= j < |vs| :: !Accepts(vs[j], email, code, now)
  {
    FilterEmpty(vs, (v: Verification) => Accepts(v, email, code, now));
  }

  /** A successful registration appends the account, uses the invitation once
      (closing it, in the name of the new account, when its uses reach the
      maximum), and leaves no accepted code for the e-mail and code. */
  lemma RegisterSuccess(t: Tables, req: RegisterRequest, now: int, userId: string, hash: string -> string, k: nat)
    requires UniqueKeys(t) && k < |t.invitations| && Open(t.invitations[k], req.invitationCode)
    requires RegisterSpec(t, req, now, userId, hash).1.Registered?
    ensures var r := RegisterSpec(t, req, now, userId, hash).0;
      r.users == t.users + [Account(userId, req.email, hash(req.password), Nickname(req), true, false)] &&
      r.invitations[k].currentUses == t.invitations[k].currentUses + 1 &&
      (r.invitations[k].isUsed <==> t.invitations[k].currentUses + 1 >= t.invitations[k].maxUses) &&
      (r.invitations[k].isUsed ==> r.invitations[k].usedBy == Some(userId)) &&
      (forall j | 0 <= j < |t.invitations| && j != k :: r.invitations[j] == t.invitations[j]) &&
      (forall j | 0 <= j < |r.verifications| :: !Accepts(r.verifications[j], req.email, req.emailCode, now))
  {
    var r := RegisterSpec(t, req, now, userId, hash).0;
    forall j | 0 <= j < |t.invitations| && j != k ensures r.invitations[j] == t.invitations[j] {
      assert t.invitations[j].code != t.invitations[k].code;
    }
  }

  /** A single-use invitation serves one registration: afterwards it names
      the new account, and a second registration with it is refused. */
  lemma SingleUseInvitation(t: Tables, req: RegisterRequest, req2: RegisterRequest, now: int, now2: int,
                            userId: string, userId2: string, hash: string -> string, k: nat)
    requires UniqueKeys(t) && k < |t.invitations| && Open(t.invitations[k], req.invitationCode)
    requires t.invitations[k].maxUses == 1 && t.invitations[k].currentUses == 0
    requires RegisterSpec(t, req, now, userId, hash).1.Registered?
    requires req2.invitationCode == req.invitationCode
    requires forall u | 0 <= u < |t.users| + 1 :: RegisterSpec(t, req, now, userId, hash).0.users[u].email != req2.email
    ensures RegisterSpec(t, req, now, userId, hash).0.invitations[k].usedBy == Some(userId)
    ensures RegisterSpec(RegisterSpec(t, req, now, userId, hash).0, req2, now2, userId2, hash).1 == InvalidInvitation
  {
    RegisterSuccess(t, req, now, userId, hash, k);
    var r := RegisterSpec(t, req, now, userId, hash).0;
    assert |r.users| == |t.users| + 1;
    assert UniqueKeys(r) by {
      forall i, j | 0 <= i < j < |r.invitations| ensures r.invitations[i].code != r.invitations[j].code {
        assert r.invitations[i].code == t.invitations[i].code && r.invitations[j].code == t.invitations[j].code;
      }
      RegisterCheckOrder(t, req, now, userId, hash);
      forall i, j | 0 <= i < j < |r.users| ensures r.users[i].email != r.users[j].email {
        if j < |t.users| {
          assert r.users[i] == t.users[i] && r.users[j] == t.users[j];
        } else {
          assert r.users[i] == t.users[i];
        }
      }
    }
    forall j | 0 <= j < |r.invitations| ensures !Open(r.invitations[j], req.invitationCode) {
      if j != k {
        assert t.invitations[j].code != t.invitations[k].code;
      }
    }
    RegisterCheckOrder(r, req2, now2, userId2, hash);
  }

  /** Without a nickname the account is named by the e-mail's text before its
      first '@'. */
  lemma NicknameDefault(req: RegisterRequest)
    requires req.nickname.None? || req.nickname.value == ""
    ensures StartsWith(req.email, Nickname(req)) && '@' !in Nickname(req)
    ensures |Nickname(req)| < |req.email| ==> req.email[|Nickname(req)|] == '@'
  {
    SplitCharFirst(req.email, '@');
  }

  // ---------------------------------------------------------------------------
  // login
  // ---------------------------------------------------------------------------

  datatype LoginOutcome = LoggedIn(userId: string) | Unauthorized | AccountDisabled | LoginServerError

  /** `login`: unknown e-mail or wrong password is 401; a disabled account is
      403, told only to a caller who knows the password. */
  function Login(users: seq<Account>, email: string, password: string, verify: (string, string) -> bool): (r: LoginOutcome)
    ensures AccountsWithEmail(users, email) == [] ==> r == Unauthorized
    ensures r.LoggedIn? || r == AccountDisabled ==>
      |AccountsWithEmail(users, email)| == 1 && verify(password, AccountsWithEmail(users, email)[0].passwordHash)
    ensures r.LoggedIn? ==> r.userId == AccountsWithEmail(users, email)[0].id && AccountsWithEmail(users, email)[0].isActive
  {
    match ScalarOneOrNone(AccountsWithEmail(users, email))
    case ManyRows => LoginServerError
    case NoRow => Unauthorized
    case OneRow(u) =>
      if !verify(password, u.passwordHash) then Unauthorized
      else if !u.isActive then AccountDisabled
      else LoggedIn(u.id)
  }

  lemma LoginOutcomes(users: seq<Account>, email: string, password: string, verify: (string, string) -> bool)
    requires forall i, j | 0 <= i < j < |users| :: users[i].email != users[j].email
    ensures Login(users, email, password, verify) != LoginServerError
    ensures forall k | 0 <= k < |users| && users[k].email == email ::
      Login(users, email, password, verify) ==
        (if !verify(password, users[k].passwordHash) then Unauthorized
         else if !users[k].isActive then AccountDisabled
         else LoggedIn(users[k].id))
    ensures (forall k | 0 <= k < |users| :: users[k].email != email) ==> Login(users, email, password, verify) == Unauthorized
  {
    EmailLookup(users, email);
  }

  // ---------------------------------------------------------------------------
  // create_invitation_codes
  // ---------------------------------------------------------------------------

  datatype IssueOutcome = Issued(codes: seq<string>) | NotAdmin | IssueServerError

  /** `len(range(min(count, 10)))` */
  function IssueCount(count: int): (n: nat)
    ensures n <= MaxCodesPerRequest
    ensures count <= 0 ==> n == 0
    ensures 0 < count ==> n == Min(count, MaxCodesPerRequest)
  {
    if count <= 0 then 0 else Min(count, MaxCodesPerRequest)
  }

  function Issue(code: string, adminId: string, now: int): Invitation
  {
    Invitation(code, Some(adminId), None, false, 1, 0, Some(now + InvitationLifetime))
  }

  function Issues(codes: seq<string>, adminId: string, now: int): (r: seq<Invitation>)
    ensures |r| == |codes|
  {
    seq(|codes|, i requires 0 <= i < |codes| => Issue(codes[i], adminId, now))
  }

  /** The new codes clash with each other or with a stored one, which the
      unique column rejects at commit. */
  predicate Clash(invs: seq<Invitation>, codes: seq<string>)
  {
    (exists i, j | 0 <= i < j < |codes| :: codes[i] == codes[j]) ||
    (exists i, k | 0 <= i < |codes| && 0 <= k < |invs| :: codes[i] == invs[k].code)
  }

  /** The first `n` random codes, `generate(i)` being the i-th. */
  function Generated(n: nat, generate: nat -> string): (r: seq<string>)
    ensures |r| == n
  {
    seq(n, i requires 0 <= i < n => generate(i))
  }

  /** `create_invitation_codes` with `generate(i)` as the i-th random code. */
  function IssueSpec(invs: seq<Invitation>, user: Account, count: int, generate: nat -> string, now: int): (r: (seq<Invitation>, IssueOutcome))
    ensures r.1 == NotAdmin <==> !user.isAdmin
    ensures !r.1.Issued? ==> r.0 == invs
    ensures r.1.Issued? ==> |r.1.codes| == IssueCount(count) && r.0 == invs + Issues(r.1.codes, user.id, now)
  {
    if !user.isAdmin then (invs, NotAdmin)
    else
      var codes := Generated(IssueCount(count), generate);
      if Clash(invs, codes) then (invs, IssueServerError)
      else (invs + Issues(codes, user.id, now), Issued(codes))
  }

  /** Only administrators issue codes; they get min(count, 10) of them, none
      for a count of zero or less, each new, open, single-use, theirs and
      expiring thirty days later; codes stay unique. */
  lemma IssueCodes(invs: seq<Invitation>, user: Account, count: int, generate: nat -> string, now: int)
    requires forall i, j | 0 <= i < j < |invs| :: invs[i].code != invs[j].code
    ensures IssueSpec(invs, user, count, generate, now).1 == NotAdmin <==> !user.isAdmin
    ensures var r := IssueSpec(invs, user, count, generate, now);
      r.1.Issued? ==>
        (|r.1.codes| == IssueCount(count) && r.0[..|invs|] == invs && |r.0| == |invs| + IssueCount(count) &&
         forall i | 0 <= i < |r.1.codes| ::
           r.0[|invs| + i] == Invitation(r.1.codes[i], Some(user.id), None, false, 1, 0, Some(now + InvitationLifetime)))
    ensures var r := IssueSpec(invs, user, count, generate, now);
      forall i, j | 0 <= i < j < |r.0| :: r.0[i].code != r.0[j].code
  {
    var r := IssueSpec(invs, user, count, generate, now);
    if r.1.Issued? {
      var codes := r.1.codes;
      forall i, j | 0 <= i < j < |r.0| ensures r.0[i].code != r.0[j].code {
        if j >= |invs| {
          assert r.0[j].code == codes[j - |invs|];
          if i >= |invs| {
            assert r.0[i].code == codes[i - |invs|];
          }
        }
      }
    }
  }

  // ---------------------------------------------------------------------------
  // The service state
  // ---------------------------------------------------------------------------

  class AuthService {
    var users: seq<Account>
    var invitations: seq<Invitation>
    var verifications: seq<Verification>

    function State(): Tables
      reads this
    {
      Tables(users, invitations, verifications)
    }

    ghost predicate Valid()
      reads this
    {
      UniqueKeys(State())
    }

    constructor (accounts: seq<Account>)
      requires forall i, j | 0 <= i < j < |accounts| :: accounts[i].email != accounts[j].email
      ensures Valid() && users == accounts && invitations == [] && verifications == []
    {
      users, invitations, verifications := accounts, [], [];
    }

    /** `send_email_code`, looking up the newest active code. */
    method SendEmailCode(email: string, code: string, now: int) returns (outcome: SendOutcome)
      requires Valid()
      modifies this
      ensures Valid()
      ensures (verifications, outcome) == SendCodeSpec(old(verifications), email, code, now)
      ensures users == old(users) && invitations == old(invitations)
    {
      var newest := Newest(ActiveCodes(verifications, email, now));
      if newest.Some? && TimedeltaSeconds(now - newest.value.createdAt) < CooldownSeconds {
        return TooManyRequests;
      }
      verifications := verifications + [NewCode(email, code, now)];
      outcome := CodeSent(code);
    }

    /** `register`, recording the new account in `used_by`. */
    method Register(req: RegisterRequest, now: int, userId: string, hash: string -> string) returns (outcome: RegisterOutcome)
      requires Valid()
      modifies this
      ensures Valid()
      ensures (State(), outcome) == RegisterSpec(old(State()), req, now, userId, hash)
    {
      RegisterCheckOrder(State(), req, now, userId, hash);
      var taken := ScalarOneOrNone(AccountsWithEmail(users, req.email));
      if taken.OneRow? {
        return EmailTaken;
      } else if taken.ManyRows? {
        return RegisterServerError;
      }
      var invitation := ScalarOneOrNone(OpenInvitations(invitations, req.invitationCode));
      if invitation.NoRow? {
        return InvalidInvitation;
      } else if invitation.ManyRows? {
        return RegisterServerError;
      }
      if Expired(invitation.row, now) {
        return InvitationExpired;
      }
      var verification := ScalarOneOrNone(AcceptedCodes(verifications, req.email, req.emailCode, now));
      if verification.NoRow? {
        return InvalidEmailCode;
      } else if verification.ManyRows? {
        return RegisterServerError;
      }
      var old0 := State();
      users := users + [Account(userId, req.email, hash(req.password), Nickname(req), true, false)];
      invitations := ConsumeOpen(invitations, req.invitationCode, Some(userId));
      verifications := MarkUsed(verifications, req.email, req.emailCode, now);
      outcome := Registered(userId);
      assert UniqueKeys(State()) by {
        forall i, j | 0 <= i < j < |invitations| ensures invitations[i].code != invitations[j].code {
          assert invitations[i].code == old0.invitations[i].code && invitations[j].code == old0.invitations[j].code;
        }
        forall i, j | 0 <= i < j < |users| ensures users[i].email != users[j].email {
          assert users[i] == old0.users[i];
          if j < |old0.users| {
            assert users[j] == old0.users[j];
          }
        }
      }
    }

    /** `create_invitation_codes` */
    method CreateInvitationCodes(user: Account, count: int, generate: nat -> string, now: int) returns (outcome: IssueOutcome)
      requires Valid()
      modifies this
      ensures Valid()
      ensures (invitations, outcome) == IssueSpec(old(invitations), user, count, generate, now)
      ensures users == old(users) && verifications == old(verifications)
    {
      IssueCodes(invitations, user, count, generate, now);
      if !user.isAdmin {
        return NotAdmin;
      }
      var n := IssueCount(count);
      var codes: seq<string> := [];
      var added: seq<Invitation> := [];
      for i := 0 to n
        invariant codes == Generated(i, generate)
        invariant added == Issues(codes, user.id, now)
      {
        codes := codes + [generate(i)];
        added := added + [Issue(generate(i), user.id, now)];
      }
      if Clash(invitations, codes) {
        return IssueServerError;
      }
      invitations := invitations + added;
      outcome := Issued(codes);
    }
  }
}
