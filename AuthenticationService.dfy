/** The challenge-response login service. A registered user asks for a challenge (a random
    Base64 message with an expiry time), signs it with the ElGamal private key, and trades
    the signature for a session token. The service keeps the outstanding challenges by id
    and the sessions by token; each operation runs as one step (the source takes a lock
    around every access to the two dictionaries).

    The clock, the GUIDs and the 32 random challenge bytes are parameters; `sha256` stands
    for UTF-8 encoding followed by SHA-256. Times are DateTime ticks (100 ns). */
module AuthenticationService {
  import opened Wrappers
  import opened Bytes
  import opened KeyGeneration
  import opened ElGamalSignature
  import Base64
  import opened UserStorage

  /** TimeSpan.FromMinutes(5) in ticks. */
  const DefaultChallengeTtl := 3_000_000_000
  const DefaultKeySizeBits := 512

  datatype AuthSettings = AuthSettings(challengeTtl: int, defaultKeySizeBits: int)

  const DefaultSettings := AuthSettings(DefaultChallengeTtl, DefaultKeySizeBits)

  datatype AuthChallenge = AuthChallenge(challengeId: string, message: string, expiresAt: int)

  /** AuthChallenge.IsExpired: strictly after the expiry time. */
  predicate IsExpired(challenge: AuthChallenge, now: int)
  {
    now > challenge.expiresAt
  }

  datatype AuthRequest = AuthRequest(username: string, challengeId: string, signature: Signature)
  datatype AuthResponse = AuthResponse(success: bool, message: string, sessionToken: Option<string>)
  datatype RegistrationRequest = RegistrationRequest(username: string, password: string, publicKey: PublicKey)
  datatype RegistrationResponse = RegistrationResponse(success: bool, message: string)

  function Failure(message: string): (r: AuthResponse)
    ensures !r.success && r.sessionToken.None?
  {
    AuthResponse(false, message, None)
  }

  /** Char.IsWhiteSpace: the Unicode space, line and paragraph separators, and the control
      characters U+0009-U+000D and U+0085. */
  predicate IsWhiteSpaceChar(c: char)
  {
    var u := c as int;
    (0x09 <= u <= 0x0D) || u == 0x20 || u == 0x85 || u == 0xA0 || u == 0x1680 ||
    (0x2000 <= u <= 0x200A) || u == 0x2028 || u == 0x2029 || u == 0x202F || u == 0x205F || u == 0x3000
  }

  /** string.IsNullOrWhiteSpace, for a string that is not null: empty or all white space. */
  predicate IsBlank(s: string)
  {
    forall i :: 0 <= i < |s| ==> IsWhiteSpaceChar(s[i])
  }

  /** GenerateRandomChallengeMessage: 32 random bytes in Base64, which is 44 characters and
      decodes back to the same bytes. */
  function ChallengeMessage(bytes: seq<byte>): (message: string)
    requires |bytes| == 32
    ensures |message| == 44
    ensures Base64.Decode(message) == Ok(bytes)
  {
    var message := Base64.Encode(bytes);
    assert |message| == 44 by {
      Base64.EncodeLength(bytes);
      assert 4 * ((|bytes| + 2) / 3) == 44;
    }
    Base64.DecodeEncode(bytes);
    message
  }

  class Service {
    const userStorage: InMemoryUserStorage
    const settings: AuthSettings
    const sha256: string -> Digest
    var activeChallenges: map<string, AuthChallenge>
    var sessions: map<string, string>

    /** Challenges sit under their own id and carry a 44-character message; every session
        belongs to a registered user. */
    ghost predicate Valid()
      reads this, userStorage
    {
      userStorage.Valid() &&
      (forall id :: id in activeChallenges ==>
         activeChallenges[id].challengeId == id && |activeChallenges[id].message| == 44) &&
      (forall token :: token in sessions ==> sessions[token] in userStorage.users)
    }

    /** Without settings the defaults apply: a five-minute challenge lifetime. */
    constructor (userStorage: InMemoryUserStorage, settings: Option<AuthSettings>, sha256: string -> Digest)
      requires userStorage.Valid()
      ensures Valid()
      ensures this.userStorage == userStorage && this.sha256 == sha256
      ensures this.settings == if settings.Some? then settings.value else DefaultSettings
      ensures activeChallenges == map[] && sessions == map[]
    {
      this.userStorage := userStorage;
      this.settings := if settings.Some? then settings.value else DefaultSettings;
      this.sha256 := sha256;
      activeChallenges := map[];
      sessions := map[];
    }

    /** Register: blank username, then blank password, then an existing username are refused
        before anything is stored; otherwise a new user is added under its name. */
    method Register(request: RegistrationRequest, now: int) returns (response: RegistrationResponse)
      requires Valid()
      modifies userStorage
      ensures Valid()
      ensures IsBlank(request.username) ==> response == RegistrationResponse(false, "Username cannot be empty")
      ensures !IsBlank(request.username) && IsBlank(request.password) ==>
        response == RegistrationResponse(false, "Password cannot be empty")
      ensures !IsBlank(request.username) && !IsBlank(request.password) && request.username in old(userStorage.users) ==>
        response == RegistrationResponse(false, "Username already exists")
      ensures response.success <==>
        !IsBlank(request.username) && !IsBlank(request.password) && request.username !in old(userStorage.users)
      ensures response.success ==> response.message == "Registration successful"
      ensures !response.success ==> userStorage.users == old(userStorage.users)
      ensures response.success ==>
        request.username in userStorage.users &&
        var user := userStorage.users[request.username];
        fresh(user) && user.publicKey == request.publicKey && user.createdAt == now &&
        user.passwordHash == Base64.Encode(sha256(request.password)) && user.lastLoginAt == None &&
        userStorage.users == old(userStorage.users)[request.username := user]
    {
      if IsBlank(request.username) {
        return RegistrationResponse(false, "Username cannot be empty");
      }
      if IsBlank(request.password) {
        return RegistrationResponse(false, "Password cannot be empty");
      }
      var known := userStorage.UserExists(request.username);
      if known {
        return RegistrationResponse(false, "Username already exists");
      }
      var user := new User(request.username, request.password, request.publicKey, now, sha256);
      var ok := userStorage.AddUser(user);
      if ok {
        response := RegistrationResponse(true, "Registration successful");
      } else {
        response := RegistrationResponse(false, "Registration failed");
      }
    }

    /** GenerateChallenge: nothing for an unknown user; otherwise a challenge with a fresh
        message that expires `ttl` (or the configured lifetime) after `now`, stored under
        its id. */
    method GenerateChallenge(username: string, ttl: Option<int>, now: int, challengeId: string,
                             randomBytes: seq<byte>) returns (challenge: Option<AuthChallenge>)
      requires Valid() && |randomBytes| == 32
      modifies this
      ensures Valid()
      ensures sessions == old(sessions)
      ensures challenge.None? <==> username !in userStorage.users
      ensures challenge.None? ==> activeChallenges == old(activeChallenges)
      ensures challenge.Some? ==>
        challenge.value.challengeId == challengeId &&
        Base64.Decode(challenge.value.message) == Ok(randomBytes) &&
        challenge.value.expiresAt == now + (if ttl.Some? then ttl.value else settings.challengeTtl) &&
        activeChallenges == old(activeChallenges)[challengeId := challenge.value]
    {
      var known := userStorage.UserExists(username);
      if !known {
        return None;
      }
      var message := ChallengeMessage(randomBytes);
      var effectiveTtl := if ttl.Some? then ttl.value else settings.challengeTtl;
      var c := AuthChallenge(challengeId, message, now + effectiveTtl);
      activeChallenges := activeChallenges[challengeId := c];
      return Some(c);
    }

    /** Authenticate, step by step: blank username; unknown challenge id; expired challenge
        (removed); unknown user; signature check (a negative s makes Verify throw); then the
        challenge is consumed, the session opened and the login time stamped. The challenge
        is looked up by id alone, whoever it was issued to, and it stays in place when the
        user is unknown or the signature is wrong. */
    method Authenticate(request: AuthRequest, now: int, sessionToken: string) returns (result: Result<AuthResponse>)
      requires Valid()
      modifies this, userStorage.users.Values
      ensures Valid()
      ensures userStorage.users == old(userStorage.users)
      ensures IsBlank(request.username) ==> result == Ok(Failure("Invalid username"))
      ensures !IsBlank(request.username) && request.challengeId !in old(activeChallenges) ==>
        result == Ok(Failure("Invalid challenge"))
      ensures !IsBlank(request.username) && request.challengeId in old(activeChallenges) &&
              IsExpired(old(activeChallenges)[request.challengeId], now) ==>
        result == Ok(Failure("Challenge expired")) &&
        activeChallenges == old(activeChallenges) - {request.challengeId}
      ensures !IsBlank(request.username) && request.challengeId in old(activeChallenges) &&
              !IsExpired(old(activeChallenges)[request.challengeId], now) &&
              request.username !in userStorage.users ==>
        result == Ok(Failure("User not found"))
      ensures !IsBlank(request.username) && request.challengeId in old(activeChallenges) &&
              !IsExpired(old(activeChallenges)[request.challengeId], now) &&
              request.username in userStorage.users ==>
        var verdict := Verify(sha256(old(activeChallenges)[request.challengeId].message), request.signature,
                              userStorage.users[request.username].publicKey);
        (verdict.Err? ==> result == Err(verdict.fault)) &&
        (verdict == Ok(false) ==> result == Ok(Failure("Invalid signature"))) &&
        (verdict == Ok(true) ==> result == Ok(AuthResponse(true, "Authentication successful", Some(sessionToken))))
      ensures result.Ok? && result.value.success ==>
        activeChallenges == old(activeChallenges) - {request.challengeId} &&
        sessions == old(sessions)[sessionToken := request.username] &&
        userStorage.users[request.username].lastLoginAt == Some(now)
      ensures !(result.Ok? && result.value.success) ==> sessions == old(sessions)
      ensures !(result.Ok? && result.value.message == "Challenge expired") && !(result.Ok? && result.value.success) ==>
        activeChallenges == old(activeChallenges)
      ensures forall name :: name in userStorage.users &&
                             !(result.Ok? && result.value.success && name == request.username) ==>
        userStorage.users[name].lastLoginAt == old(userStorage.users[name].lastLoginAt)
    {
      if IsBlank(request.username) {
        return Ok(Failure("Invalid username"));
      }
      if request.challengeId !in activeChallenges {
        return Ok(Failure("Invalid challenge"));
      }
      var challenge := activeChallenges[request.challengeId];
      if IsExpired(challenge, now) {
        activeChallenges := activeChallenges - {request.challengeId};
        return Ok(Failure("Challenge expired"));
      }
      var user := userStorage.GetUser(request.username);
      if user.None? {
        return Ok(Failure("User not found"));
      }
      var verdict := Verify(sha256(challenge.message), request.signature, user.value.publicKey);
      if verdict.Err? {
        return Err(verdict.fault);
      }
      if !verdict.value {
        return Ok(Failure("Invalid signature"));
      }
      activeChallenges := activeChallenges - {request.challengeId};
      sessions := sessions[sessionToken := request.username];
      userStorage.UpdateLastLogin(request.username, now);
      return Ok(AuthResponse(true, "Authentication successful", Some(sessionToken)));
    }

    method IsValidSession(sessionToken: string) returns (valid: bool)
      ensures valid <==> sessionToken in sessions
    {
      return sessionToken in sessions;
    }

    method GetUsernameFromSession(sessionToken: string) returns (username: Option<string>)
      ensures username.Some? <==> sessionToken in sessions
      ensures username.Some? ==> username.value == sessions[sessionToken]
    {
      if sessionToken in sessions {
        return Some(sessions[sessionToken]);
      }
      return None;
    }

    /** RevokeSession: true exactly when the token was open; afterwards it is gone. */
    method RevokeSession(sessionToken: string) returns (removed: bool)
      requires Valid()
      modifies this
      ensures Valid()
      ensures removed <==> sessionToken in old(sessions)
      ensures sessions == old(sessions) - {sessionToken}
      ensures sessionToken !in sessions
      ensures activeChallenges == old(activeChallenges)
    {
      removed := sessionToken in sessions;
      sessions := sessions - {sessionToken};
    }
  }
}
