/** `AuthService`: vault setup, the two-step unlock, the session key and the rate limit.

    The service's fields become a `Session` value and every operation returns the session
    (and the `vault_meta` table) after the call. The wall clock is the parameter `now`; the
    random salt, IV, TOTP secret and backup-code digits are parameters too. */
module Auth {
  import opened Wrappers
  import opened Text
  import opened Hex
  import opened Crypto
  import opened MetaStore
  import BackupCodes

  const KeySalt: string := "kdf_salt"
  const KeyIterations: string := "kdf_iterations"
  const KeyTotpSecret: string := "totp_secret_enc"
  const DefaultIter: int := 200000
  const MaxAttempts: int := 5
  const BaseDelayMs: int := 5000

  /** The in-memory state: the derived key (`null` while locked), the two failure counters
      and the end of the current lockout in milliseconds. */
  datatype Session = Session(sessionKey: Option<Key>, failedPasswordAttempts: int,
                             failedTotpAttempts: int, lockedUntil: int)

  const Initial: Session := Session(None, 0, 0, 0)

  /** The table and the session after a call, and what the call returned or threw. */
  datatype Step<T> = Step(meta: Meta, session: Session, result: Result<T>)

  // ── Rate limiting ──────────────────────────────────────────────────────────

  function Pow2(n: nat): (r: nat)
    ensures r >= 1
  {
    if n == 0 then 1 else 2 * Pow2(n - 1)
  }

  function Min(a: int, b: int): int {
    if a < b then a else b
  }

  /** `BASE_DELAY_MS * (1L << Math.min(attempts - MAX_ATTEMPTS, 10))`: from five seconds up
      to 5000·2^10 ms. */
  function Delay(attempts: int): (d: int)
    requires attempts >= MaxAttempts
    ensures BaseDelayMs <= d <= 5120000
  {
    Pow2Monotone(Min(attempts - MaxAttempts, 10), 10);
    assert Pow2(10) == 1024;
    BaseDelayMs * Pow2(Min(attempts - MaxAttempts, 10))
  }

  lemma {:induction false} Pow2Monotone(m: nat, n: nat)
    requires m <= n
    ensures Pow2(m) <= Pow2(n)
  {
    if m < n {
      Pow2Monotone(m, n - 1);
    }
  }

  /** More failures never shorten the delay; it doubles per failure until the cap. */
  lemma DelayMonotone(a: int, b: int)
    requires MaxAttempts <= a <= b
    ensures Delay(a) <= Delay(b)
    ensures a < MaxAttempts + 10 ==> Delay(a + 1) == 2 * Delay(a)
    ensures a >= MaxAttempts + 10 ==> Delay(a) == 5120000
  {
    Pow2Monotone(Min(a - MaxAttempts, 10), Min(b - MaxAttempts, 10));
    assert Pow2(10) == 1024;
  }

  /** `isLockedOut` */
  predicate IsLockedOut(s: Session, now: int) {
    now < s.lockedUntil
  }

  /** `applyBackoff(attempts)`: from the fifth failure on, lock out for the delay. */
  function ApplyBackoff(s: Session, attempts: int, now: int): (s': Session)
    ensures s'.sessionKey == s.sessionKey
    ensures s'.failedPasswordAttempts == s.failedPasswordAttempts
    ensures s'.failedTotpAttempts == s.failedTotpAttempts
    ensures attempts < MaxAttempts ==> s'.lockedUntil == s.lockedUntil
    ensures attempts >= MaxAttempts ==> now + BaseDelayMs <= s'.lockedUntil <= now + 5120000
    ensures attempts >= MaxAttempts ==> s'.lockedUntil == now + Delay(attempts)
  {
    if attempts >= MaxAttempts then
      s.(lockedUntil := now + Delay(attempts))
    else s
  }

  /** A lockout applied at `now` holds at time `t` exactly until `Delay(attempts)` has passed. */
  lemma LockoutWindow(s: Session, attempts: int, now: int, t: int)
    requires attempts >= MaxAttempts
    ensures IsLockedOut(ApplyBackoff(s, attempts, now), t) <==> t < now + Delay(attempts)
    ensures IsLockedOut(ApplyBackoff(s, attempts, now), now)
    ensures !IsLockedOut(ApplyBackoff(s, attempts, now), now + 5120000)
  {
  }

  /** `recordPasswordFailure` */
  function RecordPasswordFailure(s: Session, now: int): (s': Session)
    ensures s'.failedPasswordAttempts == s.failedPasswordAttempts + 1
    ensures s'.failedTotpAttempts == s.failedTotpAttempts && s'.sessionKey == s.sessionKey
    ensures s'.lockedUntil == if s.failedPasswordAttempts + 1 >= MaxAttempts
                              then now + Delay(s.failedPasswordAttempts + 1)
                              else s.lockedUntil
  {
    var counted := s.(failedPasswordAttempts := s.failedPasswordAttempts + 1);
    ApplyBackoff(counted, counted.failedPasswordAttempts, now)
  }

  /** `recordTotpFailure` */
  function RecordTotpFailure(s: Session, now: int): (s': Session)
    ensures s'.failedTotpAttempts == s.failedTotpAttempts + 1
    ensures s'.failedPasswordAttempts == s.failedPasswordAttempts && s'.sessionKey == s.sessionKey
    ensures s'.lockedUntil == if s.failedTotpAttempts + 1 >= MaxAttempts
                              then now + Delay(s.failedTotpAttempts + 1)
                              else s.lockedUntil
  {
    var counted := s.(failedTotpAttempts := s.failedTotpAttempts + 1);
    ApplyBackoff(counted, counted.failedTotpAttempts, now)
  }

  // ── Reading the stored parameters ──────────────────────────────────────────

  /** `Integer.parseInt` of a possibly absent value: `null` is a `NumberFormatException`. */
  function ParseStored(v: Option<string>): (r: Result<int>)
    ensures v.None? ==> r == Err(NumberFormat)
    ensures v.Some? ==> r == ParseInt(v.value)
  {
    match v
    case None => Err(NumberFormat)
    case Some(text) => ParseInt(text)
  }

  /** `CryptoUtil.fromHex` of a possibly absent value: `null` fails as a null dereference. */
  function HexStored(v: Option<string>): (r: Result<seq<byte>>)
    ensures v.None? ==> r == Err(NullReference)
    ensures v.Some? ==> r == FromHex(v.value)
  {
    match v
    case None => Err(NullReference)
    case Some(text) => FromHex(text)
  }

  /** The part of `verifyMasterPassword` outside its `try`: read the iteration count, decode
      the salt, derive the candidate key. Each failure here escapes the method. */
  function CandidateKey(p: Primitives, meta: Meta, password: string): (r: Result<Key>)
    ensures r.Ok? <==>
      && KeyIterations in meta && ParseInt(meta[KeyIterations]).Ok? && ParseInt(meta[KeyIterations]).value > 0
      && KeySalt in meta && FromHex(meta[KeySalt]).Ok? && |FromHex(meta[KeySalt]).value| > 0
    ensures r.Ok? ==> r.value == p.pbkdf2(password, FromHex(meta[KeySalt]).value, ParseInt(meta[KeyIterations]).value)
    ensures KeyIterations !in meta ==> r == Err(NumberFormat)
  {
    var iterations :- ParseStored(Get(meta, KeyIterations));
    var salt :- HexStored(Get(meta, KeySalt));
    DeriveKey(p, password, salt, iterations)
  }

  /** `getTotpSecret` under a given key: decode and decrypt the stored TOTP secret. */
  function TotpSecret(p: Primitives, meta: Meta, key: Key): (r: Result<string>)
    ensures KeyTotpSecret !in meta ==> r == Err(NullReference)
    ensures r.Ok? <==> KeyTotpSecret in meta && FromHex(meta[KeyTotpSecret]).Ok? &&
                       DecryptString(p, FromHex(meta[KeyTotpSecret]).value, key).Ok?
    ensures r.Ok? ==> r == DecryptString(p, FromHex(meta[KeyTotpSecret]).value, key)
  {
    var blob :- HexStored(Get(meta, KeyTotpSecret));
    DecryptString(p, blob, key)
  }

  // ── Step 1: master password ────────────────────────────────────────────────

  /** `verifyMasterPassword`. While locked out the answer is false and nothing changes. The
      candidate key is accepted exactly when it decrypts the stored TOTP secret: it then
      becomes the session key at once and the password counter is reset. Any failure inside
      the `try` (a missing or malformed TOTP blob included) clears the session key and counts
      a failure. */
  function VerifyMasterPassword(p: Primitives, meta: Meta, s: Session, password: string, now: int): (r: Step<bool>)
    ensures r.meta == meta
    ensures IsLockedOut(s, now) ==> r.session == s && r.result == Ok(false)
    ensures !IsLockedOut(s, now) && CandidateKey(p, meta, password).Err? ==>
              r.session == s && r.result == Err(CandidateKey(p, meta, password).error)
    ensures !IsLockedOut(s, now) && CandidateKey(p, meta, password).Ok? ==>
              r.result.Ok? && (r.result.value <==> TotpSecret(p, meta, CandidateKey(p, meta, password).value).Ok?)
    ensures r.result == Ok(true) ==>
              r.session == s.(sessionKey := Some(CandidateKey(p, meta, password).value), failedPasswordAttempts := 0)
    ensures !IsLockedOut(s, now) && r.result == Ok(false) ==>
              && r.session.sessionKey.None?
              && r.session.failedPasswordAttempts == s.failedPasswordAttempts + 1
              && r.session.failedTotpAttempts == s.failedTotpAttempts
              && r.session.lockedUntil == if s.failedPasswordAttempts + 1 >= MaxAttempts
                                          then now + Delay(s.failedPasswordAttempts + 1)
                                          else s.lockedUntil
  {
    if IsLockedOut(s, now) then Step(meta, s, Ok(false))
    else
      match CandidateKey(p, meta, password)
      case Err(e) => Step(meta, s, Err(e))
      case Ok(candidate) =>
        if TotpSecret(p, meta, candidate).Ok? then
          Step(meta, s.(sessionKey := Some(candidate), failedPasswordAttempts := 0), Ok(true))
        else
          Step(meta, RecordPasswordFailure(s.(sessionKey := None), now), Ok(false))
  }

  // ── Step 2: TOTP or backup code ────────────────────────────────────────────

  const Step1First: string := "Complete step 1 first"

  /** `verifyTotp`: needs a session key; refused while locked out. The code is checked by
      `totp(secret, code)` (TOTP per RFC 6238, outside the model). A failure counts against
      the TOTP counter only and keeps the session key. */
  function VerifyTotp(p: Primitives, meta: Meta, s: Session, code: string, now: int,
                      totp: (string, string) -> bool): (r: Step<bool>)
    ensures r.meta == meta
    ensures s.sessionKey.None? <==> r.result == Err(IllegalState(Step1First))
    ensures s.sessionKey.Some? && IsLockedOut(s, now) ==> r.session == s && r.result == Ok(false)
    ensures s.sessionKey.Some? && !IsLockedOut(s, now) && TotpSecret(p, meta, s.sessionKey.value).Err? ==>
              r.session == s && r.result == Err(TotpSecret(p, meta, s.sessionKey.value).error)
    ensures r.result.Err? ==> r.session == s
    ensures r.result.Ok? ==> r.session.sessionKey == s.sessionKey &&
                             r.session.failedPasswordAttempts == s.failedPasswordAttempts
    ensures r.result == Ok(true) <==>
              s.sessionKey.Some? && !IsLockedOut(s, now) && TotpSecret(p, meta, s.sessionKey.value).Ok? &&
              totp(TotpSecret(p, meta, s.sessionKey.value).value, code)
    ensures r.result == Ok(true) ==> r.session == s.(failedTotpAttempts := 0)
    ensures !IsLockedOut(s, now) && r.result == Ok(false) ==>
              && r.session.failedTotpAttempts == s.failedTotpAttempts + 1
              && r.session.lockedUntil == if s.failedTotpAttempts + 1 >= MaxAttempts
                                          then now + Delay(s.failedTotpAttempts + 1)
                                          else s.lockedUntil
  {
    if s.sessionKey.None? then Step(meta, s, Err(IllegalState(Step1First)))
    else if IsLockedOut(s, now) then Step(meta, s, Ok(false))
    else
      match TotpSecret(p, meta, s.sessionKey.value)
      case Err(e) => Step(meta, s, Err(e))
      case Ok(secret) =>
        if totp(secret, code) then Step(meta, s.(failedTotpAttempts := 0), Ok(true))
        else Step(meta, RecordTotpFailure(s, now), Ok(false))
  }

  /** `verifyBackupCode`: needs a session key, then consumes a backup code. It neither
      consults the lockout nor touches the counters. */
  function VerifyBackupCode(h: BackupCodes.Hasher, codes: BackupCodes.Store, s: Session, code: string)
    : (r: (Result<bool>, BackupCodes.Store))
    requires BackupCodes.Valid(codes)
    ensures s.sessionKey.None? ==> r == (Err(IllegalState(Step1First)), codes)
    ensures s.sessionKey.Some? ==> r.0 == Ok(BackupCodes.Consume(h, codes, code).0)
    ensures s.sessionKey.Some? ==>
              (r.0 == Ok(true) <==> exists i :: 0 <= i < |codes.rows| && BackupCodes.Matches(h, codes.rows, i, code))
    ensures r.0 != Ok(true) ==> r.1 == codes
    ensures r.0 == Ok(true) ==> r.1 == BackupCodes.Consume(h, codes, code).1
  {
    if s.sessionKey.None? then (Err(IllegalState(Step1First)), codes)
    else
      var (ok, codes') := BackupCodes.Consume(h, codes, code);
      (Ok(ok), codes')
  }

  // ── Session ────────────────────────────────────────────────────────────────

  /** `isVaultSetup` */
  predicate IsVaultSetup(meta: Meta) {
    Exists(meta, KeySalt)
  }

  /** `isUnlocked` */
  predicate IsUnlocked(s: Session) {
    s.sessionKey.Some?
  }

  /** `getSessionKey` */
  function GetSessionKey(s: Session): (r: Result<Key>)
    ensures r.Ok? <==> IsUnlocked(s)
    ensures r.Ok? ==> Some(r.value) == s.sessionKey
    ensures r.Err? ==> r.error == IllegalState("Vault is locked")
  {
    match s.sessionKey
    case None => Err(IllegalState("Vault is locked"))
    case Some(k) => Ok(k)
  }

  /** `lock`: forget the key; the counters and the lockout stay. */
  function Lock(s: Session): (s': Session)
    ensures !IsUnlocked(s')
    ensures s'.failedPasswordAttempts == s.failedPasswordAttempts
    ensures s'.failedTotpAttempts == s.failedTotpAttempts && s'.lockedUntil == s.lockedUntil
  {
    s.(sessionKey := None)
  }

  /** `isVaultSetup` reads the salt row alone: an empty table is not set up, and writing any
      other key leaves the answer as it was. */
  lemma VaultSetupBySalt(meta: Meta, key: string, value: string)
    ensures IsVaultSetup(meta) <==> KeySalt in meta
    ensures !IsVaultSetup(map[])
    ensures key != KeySalt ==> (IsVaultSetup(Set(meta, key, value)) <==> IsVaultSetup(meta))
  {
  }

  /** After `lock`, `isUnlocked` is false and `getSessionKey` throws. */
  lemma LockedHasNoKey(s: Session)
    ensures !IsUnlocked(Lock(s))
    ensures GetSessionKey(Lock(s)) == Err(IllegalState("Vault is locked"))
  {
  }

  // ── Setup and password change ──────────────────────────────────────────────

  /** The three KDF and TOTP entries written by setup and by a password change: each reads
      back, through the same parsing the unlock path uses, as the value stored; every other
      key keeps its value. */
  function StoreKdf(meta: Meta, salt: seq<byte>, totpBlob: seq<byte>): (m': Meta)
    ensures HexStored(Get(m', KeySalt)) == Ok(salt)
    ensures ParseStored(Get(m', KeyIterations)) == Ok(DefaultIter)
    ensures HexStored(Get(m', KeyTotpSecret)) == Ok(totpBlob)
    ensures forall k :: k != KeySalt && k != KeyIterations && k != KeyTotpSecret ==> Get(m', k) == Get(meta, k)
  {
    FromHexToHex(salt);
    FromHexToHex(totpBlob);
    ParseIntRoundTrip(DefaultIter);
    Set(Set(Set(meta, KeySalt, ToHex(salt)), KeyIterations, IntToString(DefaultIter)), KeyTotpSecret, ToHex(totpBlob))
  }

  /** `setupVault`: draw a salt, derive the key with the default iteration count, store the
      salt, the count and the TOTP secret encrypted under the key, and hold the key. Returns
      the TOTP secret. */
  function SetupVault(p: Primitives, meta: Meta, s: Session, password: string, random: nat -> byte,
                      totpSecret: string, iv: Iv): (r: Step<string>)
    requires Sound(p)
    ensures r.result == Ok(totpSecret)
    ensures IsVaultSetup(r.meta)
    ensures r.session == s.(sessionKey := Some(p.pbkdf2(password, GenerateSalt(random), DefaultIter)))
    ensures forall k :: k != KeySalt && k != KeyIterations && k != KeyTotpSecret ==> Get(r.meta, k) == Get(meta, k)
  {
    var salt := GenerateSalt(random);
    var key := p.pbkdf2(password, salt, DefaultIter);
    var meta' := StoreKdf(meta, salt, EncryptString(p, totpSecret, key, iv));
    Step(meta', s.(sessionKey := Some(key)), Ok(totpSecret))
  }

  /** After the KDF entries are stored, the password they were made from derives the key
      again, and that key decrypts the stored TOTP secret. */
  lemma StoredKdfUnlocks(p: Primitives, meta: Meta, password: string, salt: seq<byte>,
                         totpSecret: string, iv: Iv)
    requires Sound(p) && |salt| > 0
    ensures var meta' := StoreKdf(meta, salt, EncryptString(p, totpSecret, p.pbkdf2(password, salt, DefaultIter), iv));
      && CandidateKey(p, meta', password) == Ok(p.pbkdf2(password, salt, DefaultIter))
      && TotpSecret(p, meta', p.pbkdf2(password, salt, DefaultIter)) == Ok(totpSecret)
  {
    var key := p.pbkdf2(password, salt, DefaultIter);
    ParseIntRoundTrip(DefaultIter);
    FromHexToHex(salt);
    HexStoredRoundTrip(p, totpSecret, key, iv);
  }

  /** After setup, the same password unlocks the vault (outside a lockout) and the secret
      the wizard shows is the one stored. */
  lemma SetupThenVerify(p: Primitives, meta: Meta, s: Session, password: string, random: nat -> byte,
                        totpSecret: string, iv: Iv, later: Session, now: int)
    requires Sound(p)
    requires !IsLockedOut(later, now)
    ensures var r := SetupVault(p, meta, s, password, random, totpSecret, iv);
      var key := p.pbkdf2(password, GenerateSalt(random), DefaultIter);
      && VerifyMasterPassword(p, r.meta, later, password, now).result == Ok(true)
      && VerifyMasterPassword(p, r.meta, later, password, now).session.sessionKey == Some(key)
      && TotpSecret(p, r.meta, key) == Ok(totpSecret)
  {
    StoredKdfUnlocks(p, meta, password, GenerateSalt(random), totpSecret, iv);
  }

  /** `changeMasterPassword`: verify the old password (with all its effects on the session),
      refuse with a `SecurityException` if that answered false, otherwise re-encrypt the TOTP
      secret under a key derived from the new password and a fresh salt and make that key
      the session key. */
  function ChangeMasterPassword(p: Primitives, meta: Meta, s: Session, oldPassword: string,
                                newPassword: string, now: int, random: nat -> byte, iv: Iv): (r: Step<()>)
    requires Sound(p)
    ensures var v := VerifyMasterPassword(p, meta, s, oldPassword, now);
      && (r.result.Ok? <==> v.result == Ok(true))
      && (v.result == Ok(false) ==> r.session == v.session && r.result == Err(Security("Incorrect current password")))
      && (v.result.Err? ==> r.session == s && r.result == v.result.PropagateFailure())
    ensures r.result.Err? ==> r.meta == meta
    ensures r.result.Ok? ==>
              && r.session.sessionKey == Some(p.pbkdf2(newPassword, GenerateSalt(random), DefaultIter))
              && r.session.failedPasswordAttempts == 0
              && r.session.failedTotpAttempts == s.failedTotpAttempts
              && r.session.lockedUntil == s.lockedUntil
    ensures r.result.Ok? ==>
              && HexStored(Get(r.meta, KeySalt)) == Ok(GenerateSalt(random))
              && ParseStored(Get(r.meta, KeyIterations)) == Ok(DefaultIter)
              && forall k :: k != KeySalt && k != KeyIterations && k != KeyTotpSecret ==> Get(r.meta, k) == Get(meta, k)
  {
    var v := VerifyMasterPassword(p, meta, s, oldPassword, now);
    match v.result
    case Err(e) => Step(meta, v.session, Err(e))
    case Ok(accepted) =>
      if !accepted then Step(meta, v.session, Err(Security("Incorrect current password")))
      else
        var newSalt := GenerateSalt(random);
        var newKey := p.pbkdf2(newPassword, newSalt, DefaultIter);
        var secret := TotpSecret(p, meta, v.session.sessionKey.value).value;
        Step(StoreKdf(meta, newSalt, EncryptString(p, secret, newKey, iv)),
             v.session.(sessionKey := Some(newKey)), Ok(()))
  }

  /** After a successful change, the new password unlocks the vault with the new key, and
      that key decrypts the same TOTP secret the old key did. */
  lemma ChangeThenVerify(p: Primitives, meta: Meta, s: Session, oldPassword: string, newPassword: string,
                         now: int, random: nat -> byte, iv: Iv, later: Session, when: int)
    requires Sound(p)
    requires ChangeMasterPassword(p, meta, s, oldPassword, newPassword, now, random, iv).result.Ok?
    requires !IsLockedOut(later, when)
    ensures var r := ChangeMasterPassword(p, meta, s, oldPassword, newPassword, now, random, iv);
      var oldKey := CandidateKey(p, meta, oldPassword).value;
      var newKey := r.session.sessionKey.value;
      && TotpSecret(p, r.meta, newKey) == TotpSecret(p, meta, oldKey)
      && VerifyMasterPassword(p, r.meta, later, newPassword, when).result == Ok(true)
      && VerifyMasterPassword(p, r.meta, later, newPassword, when).session.sessionKey == Some(newKey)
  {
    var v := VerifyMasterPassword(p, meta, s, oldPassword, now);
    var secret := TotpSecret(p, meta, v.session.sessionKey.value).value;
    StoredKdfUnlocks(p, meta, newPassword, GenerateSalt(random), secret, iv);
  }

  // ── Rate limit scenarios ───────────────────────────────────────────────────

  /** Five rejected passwords in a row lock the password path for five seconds; a sixth try
      inside that window is refused without being counted. */
  lemma FiveFailuresLockOut(p: Primitives, meta: Meta, password: string, now: int)
    requires 0 <= now
    requires CandidateKey(p, meta, password).Ok?
    requires TotpSecret(p, meta, CandidateKey(p, meta, password).value).Err?
    ensures var s1 := VerifyMasterPassword(p, meta, Initial, password, now).session;
      var s2 := VerifyMasterPassword(p, meta, s1, password, now).session;
      var s3 := VerifyMasterPassword(p, meta, s2, password, now).session;
      var s4 := VerifyMasterPassword(p, meta, s3, password, now).session;
      var s5 := VerifyMasterPassword(p, meta, s4, password, now).session;
      && s4.lockedUntil == 0 && s4.failedPasswordAttempts == 4
      && s5.failedPasswordAttempts == 5 && s5.lockedUntil == now + BaseDelayMs
      && VerifyMasterPassword(p, meta, s5, password, now) == Step(meta, s5, Ok(false))
  {
    var s1 := VerifyMasterPassword(p, meta, Initial, password, now).session;
    assert s1 == Session(None, 1, 0, 0);
    var s2 := VerifyMasterPassword(p, meta, s1, password, now).session;
    assert s2 == Session(None, 2, 0, 0);
    var s3 := VerifyMasterPassword(p, meta, s2, password, now).session;
    assert s3 == Session(None, 3, 0, 0);
    var s4 := VerifyMasterPassword(p, meta, s3, password, now).session;
    assert s4 == Session(None, 4, 0, 0);
    var s5 := VerifyMasterPassword(p, meta, s4, password, now).session;
    assert Delay(5) == BaseDelayMs * Pow2(0) == BaseDelayMs;
    assert s5 == Session(None, 5, 0, now + BaseDelayMs);
  }

  /** A TOTP failure that reaches the limit blocks the password path as well: the lockout is
      shared even though the counters are not. */
  lemma TotpLockoutBlocksPassword(p: Primitives, meta: Meta, s: Session, code: string, now: int,
                                  totp: (string, string) -> bool, password: string)
    requires s.sessionKey.Some? && !IsLockedOut(s, now)
    requires s.failedTotpAttempts + 1 >= MaxAttempts
    requires VerifyTotp(p, meta, s, code, now, totp).result == Ok(false)
    ensures var t := VerifyTotp(p, meta, s, code, now, totp).session;
      && t.sessionKey == s.sessionKey
      && t.failedPasswordAttempts == s.failedPasswordAttempts
      && VerifyMasterPassword(p, meta, t, password, now) == Step(meta, t, Ok(false))
  {
    assert Delay(s.failedTotpAttempts + 1) > 0;
  }

  // ── Backup codes ───────────────────────────────────────────────────────────

  /** `String.format("%04d-%04d-%04d", a, b, c)` */
  function FormatCode(a: nat, b: nat, c: nat): string {
    ZeroPad(a, 4) + "-" + ZeroPad(b, 4) + "-" + ZeroPad(c, 4)
  }

  /** The shape `dddd-dddd-dddd`. */
  predicate IsBackupCode(s: string) {
    && |s| == 14 && s[4] == '-' && s[9] == '-'
    && forall i :: 0 <= i < 14 && i != 4 && i != 9 ==> IsDigit(s[i])
  }

  /** The number written in group `g` (0, 1 or 2) of a backup code. */
  function Group(s: string, g: nat): nat
    requires IsBackupCode(s) && g < 3
  {
    var part := s[5 * g..5 * g + 4];
    assert forall i :: 0 <= i < 4 ==> part[i] == s[5 * g + i];
    DigitsValue(part)
  }

  /** `generateBackupCodes(count)`: each `rng.nextInt(10000)` is the next value of `draws`
      reduced below 10000, three per code. */
  function GenerateBackupCodes(count: int, draws: nat -> nat): (codes: seq<string>)
    ensures |codes| == if count < 0 then 0 else count
    ensures forall i :: 0 <= i < |codes| ==> IsBackupCode(codes[i])
    ensures forall i :: 0 <= i < |codes| ==>
              && Group(codes[i], 0) == draws(3 * i) % 10000
              && Group(codes[i], 1) == draws(3 * i + 1) % 10000
              && Group(codes[i], 2) == draws(3 * i + 2) % 10000
  {
    var n := if count < 0 then 0 else count;
    var codes := seq(n, (i: int) requires 0 <= i => FormatCode(draws(3 * i) % 10000, draws(3 * i + 1) % 10000, draws(3 * i + 2) % 10000));
    forall i | 0 <= i < n
      ensures IsBackupCode(codes[i])
      ensures Group(codes[i], 0) == draws(3 * i) % 10000
      ensures Group(codes[i], 1) == draws(3 * i + 1) % 10000
      ensures Group(codes[i], 2) == draws(3 * i + 2) % 10000
    {
      FormatCodeShape(draws(3 * i) % 10000, draws(3 * i + 1) % 10000, draws(3 * i + 2) % 10000);
    }
    codes
  }

  /** A formatted code has the backup-code shape and its three groups read back as the three
      numbers. */
  lemma FormatCodeShape(a: nat, b: nat, c: nat)
    requires a < 10000 && b < 10000 && c < 10000
    ensures IsBackupCode(FormatCode(a, b, c))
    ensures Group(FormatCode(a, b, c), 0) == a
    ensures Group(FormatCode(a, b, c), 1) == b
    ensures Group(FormatCode(a, b, c), 2) == c
  {
    ZeroPadFour(a);
    ZeroPadFour(b);
    ZeroPadFour(c);
    var s := FormatCode(a, b, c);
    assert forall i :: 0 <= i < 4 ==> s[i] == ZeroPad(a, 4)[i] && s[5 + i] == ZeroPad(b, 4)[i] && s[10 + i] == ZeroPad(c, 4)[i];
    assert IsBackupCode(s);
    assert s[0..4] == ZeroPad(a, 4);
    assert s[5..9] == ZeroPad(b, 4);
    assert s[10..14] == ZeroPad(c, 4);
  }
}
