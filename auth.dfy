/**
 * The Basic-auth pieces of neo/api/JSONRPC/auth.py: the per-username failure counter kept in a
 * LimitedSizeDict shared by every checker, the exponential backoff after a failed login, the
 * credential decision of requestAvatarId and the realm's choice of API.
 *
 * to_aes_key is a foreign function and is a parameter of the checker; the backoff's sleep is
 * modelled by the delay it would sleep for.
 */
module Auth {
  import opened Wrappers
  import opened Bytes
  import Utf8
  import opened LimitedDict

  /** consecutive_errors_history = LimitedSizeDict(size_limit=100). */
  const HISTORY_SIZE_LIMIT: nat := 100
  /** The failure count stops growing here. */
  const MAX_CONSECUTIVE_ERRORS: int := 100
  /** requestAvatarId calls backoff with t = 2 seconds. */
  const BACKOFF_SECONDS: real := 2.0

  type History = OrderedMap<string, int>

  /** The history as LimitedSizeDict keeps it: well formed and within its size limit. */
  predicate HistoryValid(m: History) {
    WellFormed(m) && Size(m) <= HISTORY_SIZE_LIMIT
  }

  /** Every stored count lies in 1..100. */
  predicate CountsInRange(m: History) {
    forall user :: user in m.values ==> 1 <= m.values[user] <= MAX_CONSECUTIVE_ERRORS
  }

  /**
   * get_consecutive_errors as a value: the count it returns and the history it leaves. A stored
   * count that is truthy (present and non-zero) grows by one below 100 and is left alone from
   * 100 on; otherwise 1 is stored.
   */
  function RecordFailure(m: History, user: string): (r: (int, History))
    requires WellFormed(m)
    ensures WellFormed(r.1)
    ensures r.1 == m || r.1 == SetItem(m, Some(HISTORY_SIZE_LIMIT), user, r.0)
  {
    if user in m.values && m.values[user] != 0 then
      var c := m.values[user];
      if c < MAX_CONSECUTIVE_ERRORS then (c + 1, SetItem(m, Some(HISTORY_SIZE_LIMIT), user, c + 1))
      else (c, m)
    else (1, SetItem(m, Some(HISTORY_SIZE_LIMIT), user, 1))
  }

  /** The first failure of a user the history does not know stores 1 and returns 1. */
  lemma FirstFailureCountsOne(m: History, user: string)
    requires HistoryValid(m) && user !in m.values
    ensures var (n, after) := RecordFailure(m, user);
      n == 1 && user in after.values && after.values[user] == 1
  {
    WrittenKeySurvives(m, Some(HISTORY_SIZE_LIMIT), user, 1);
    SetItemFrame(m, Some(HISTORY_SIZE_LIMIT), user, 1, user);
  }

  /**
   * A failure with a stored count c below 100 stores and returns c + 1; the user keeps its place
   * and nothing is evicted.
   */
  lemma FailureIncrements(m: History, user: string, c: int)
    requires HistoryValid(m) && user in m.values && m.values[user] == c && c != 0 && c < 100
    ensures var (n, after) := RecordFailure(m, user);
      n == c + 1 && after.keys == m.keys && after.values == m.values[user := c + 1]
  {
    OverwriteKeepsOrder(m, Some(HISTORY_SIZE_LIMIT), user, c + 1);
  }

  /** From 100 on the count saturates: it is returned as is and the history is not written. */
  lemma FailureSaturates(m: History, user: string)
    requires WellFormed(m) && user in m.values && m.values[user] >= 100
    ensures RecordFailure(m, user) == (m.values[user], m)
  {
  }

  /**
   * With every stored count in 1..100, the returned count is in 1..100 and the history keeps
   * both its counts in range and its size within the limit.
   */
  lemma CountStaysInRange(m: History, user: string)
    requires HistoryValid(m) && CountsInRange(m)
    ensures var (n, after) := RecordFailure(m, user);
      && 1 <= n <= MAX_CONSECUTIVE_ERRORS
      && HistoryValid(after)
      && CountsInRange(after)
  {
    var (n, after) := RecordFailure(m, user);
    if after != m {
      forall k | k in after.values
        ensures 1 <= after.values[k] <= MAX_CONSECUTIVE_ERRORS
      {
        SetItemFrame(m, Some(HISTORY_SIZE_LIMIT), user, n, k);
      }
    }
  }

  /** 2^k for k >= 0. */
  function Pow2(k: nat): (r: real)
    ensures r >= 1.0
  {
    if k == 0 then 1.0 else 2.0 * Pow2(k - 1)
  }

  /** The delay of backoff(n, t): t * 2 ** (n - 1) seconds; for n < 1 a fraction of t. */
  function Backoff(n: int, t: real): (r: real)
    ensures n == 1 ==> r == t
  {
    if n >= 1 then t * Pow2(n - 1) else t / Pow2(1 - n)
  }

  /** A positive base gives a positive delay, and from the first failure on at least the base. */
  lemma BackoffPositive(n: int, t: real)
    requires t > 0.0
    ensures Backoff(n, t) > 0.0
    ensures n >= 1 ==> Backoff(n, t) >= t
  {
    if n < 1 {
      var p := Pow2(1 - n);
      assert (t / p) * p == t;
    }
  }

  /** Each further failure doubles the delay. */
  lemma BackoffDoubles(n: int, t: real)
    ensures Backoff(n + 1, t) == 2.0 * Backoff(n, t)
  {
    if n >= 1 {
      DoublesFromFirst(n, t);
    } else if n == 0 {
      assert Backoff(0, t) == t / 2.0;
    } else {
      DoublesBelowZero(n, t);
    }
  }

  lemma DoublesFromFirst(n: int, t: real)
    requires n >= 1
    ensures Backoff(n + 1, t) == 2.0 * Backoff(n, t)
  {
    var p := Pow2(n - 1);
    assert Backoff(n, t) == t * p;
    assert Backoff(n + 1, t) == t * (2.0 * p);
  }

  lemma DoublesBelowZero(n: int, t: real)
    requires n < 0
    ensures Backoff(n + 1, t) == 2.0 * Backoff(n, t)
  {
    var p := Pow2(-n);
    assert Backoff(n + 1, t) == t / p;
    assert Backoff(n, t) == t / (2.0 * p);
    HalfOfQuotient(t, p);
  }

  /** Dividing by twice a positive p gives half the quotient by p. */
  lemma HalfOfQuotient(t: real, p: real)
    requires p > 0.0
    ensures t / p == 2.0 * (t / (2.0 * p))
  {
    var q := t / (2.0 * p);
    assert q * (2.0 * p) == t;
    assert (2.0 * q) * p == t;
  }

  /** A fresh user's first three failures back off for 2, 4 and 8 seconds. */
  lemma ThreeFailuresBackOff(m: History, user: string)
    requires HistoryValid(m) && user !in m.values
    ensures var (n1, m1) := RecordFailure(m, user);
      var (n2, m2) := RecordFailure(m1, user);
      var (n3, m3) := RecordFailure(m2, user);
      && Backoff(n1, BACKOFF_SECONDS) == 2.0
      && Backoff(n2, BACKOFF_SECONDS) == 4.0
      && Backoff(n3, BACKOFF_SECONDS) == 8.0
  {
    FirstFailureCountsOne(m, user);
    var (n1, m1) := RecordFailure(m, user);
    FailureIncrements(m1, user, 1);
    var (n2, m2) := RecordFailure(m1, user);
    FailureIncrements(m2, user, 2);
    assert Pow2(2) == 4.0;
  }

  /** The credentials offered by a client: a username and password, or something else. */
  datatype Credentials = UsernamePassword(username: seq<Byte>, password: seq<Byte>) | OtherCredentials

  /**
   * The Deferred requestAvatarId produces (or the exception it raises): success with the
   * username bytes, UnauthorizedLogin after the given backoff delay, UnhandledCredentials, or the
   * UnicodeDecodeError of a username or password that is not UTF-8.
   */
  datatype AuthOutcome =
    | Authenticated(avatarId: seq<Byte>)
    | Unauthorized(delay: real)
    | UnhandledCredentials
    | UnicodeDecodeError

  /** A failed login: count the failure and back off accordingly. */
  function Refuse(m: History, user: string): (r: (AuthOutcome, History))
    requires WellFormed(m)
    ensures r.0.Unauthorized? && r.0.delay == Backoff(RecordFailure(m, user).0, BACKOFF_SECONDS)
    ensures r.1 == RecordFailure(m, user).1
  {
    var (n, after) := RecordFailure(m, user);
    (Unauthorized(Backoff(n, BACKOFF_SECONDS)), after)
  }

  /**
   * requestAvatarId as a value: the outcome and the history it leaves. The username is decoded
   * first; the password is decoded and its key compared only when the username matches.
   */
  function CheckCredentials(username: string, key: seq<Byte>, toAesKey: string -> seq<Byte>,
                            m: History, credentials: Credentials): (r: (AuthOutcome, History))
    requires WellFormed(m)
    ensures WellFormed(r.1)
    ensures !r.0.Unauthorized? ==> r.1 == m
  {
    match credentials
    case OtherCredentials => (UnhandledCredentials, m)
    case UsernamePassword(u, p) =>
      match Utf8.Decode(u)
      case None => (UnicodeDecodeError, m)
      case Some(name) =>
        if name != username then Refuse(m, name)
        else
          match Utf8.Decode(p)
          case None => (UnicodeDecodeError, m)
          case Some(password) =>
            if toAesKey(password) == key then (Authenticated(u), m) else Refuse(m, name)
  }

  /**
   * Authentication succeeds iff the credentials are a username and password, the username
   * decodes to the stored one and the derived key of the decoded password is the stored key; a
   * success returns the username bytes and leaves the history alone.
   */
  lemma SucceedsIffBothMatch(username: string, key: seq<Byte>, toAesKey: string -> seq<Byte>,
                             m: History, credentials: Credentials)
    requires WellFormed(m)
    ensures var (outcome, after) := CheckCredentials(username, key, toAesKey, m, credentials);
      && (outcome.Authenticated? <==>
            && credentials.UsernamePassword?
            && Utf8.Decode(credentials.username) == Some(username)
            && Utf8.Decode(credentials.password).Some?
            && toAesKey(Utf8.Decode(credentials.password).value) == key)
      && (outcome.Authenticated? ==> outcome.avatarId == credentials.username && after == m)
  {
  }

  /**
   * A refused login counts one more failure against the decoded username and carries the
   * backoff delay for the new count n (2 * 2^(n-1) seconds, as BackoffDelay states for n >= 1,
   * which CountStaysInRange guarantees).
   */
  lemma RefusalBacksOff(username: string, key: seq<Byte>, toAesKey: string -> seq<Byte>,
                        m: History, credentials: Credentials)
    requires WellFormed(m)
    ensures var (outcome, after) := CheckCredentials(username, key, toAesKey, m, credentials);
      outcome.Unauthorized? ==>
        && credentials.UsernamePassword?
        && Utf8.Decode(credentials.username).Some?
        && (|| Utf8.Decode(credentials.username).value != username
            || (&& Utf8.Decode(credentials.password).Some?
                && toAesKey(Utf8.Decode(credentials.password).value) != key))
        && var (n, counted) := RecordFailure(m, Utf8.Decode(credentials.username).value);
           outcome.delay == Backoff(n, BACKOFF_SECONDS) && after == counted
  {
    var result := CheckCredentials(username, key, toAesKey, m, credentials);
    if result.0.Unauthorized? {
      assert credentials.UsernamePassword? && Utf8.Decode(credentials.username).Some?;
      assert result == Refuse(m, Utf8.Decode(credentials.username).value);
    }
  }

  /**
   * A username that is not valid UTF-8, or the stored username with a password that is not, raises
   * UnicodeDecodeError before get_consecutive_errors runs: the attempt is neither counted nor delayed.
   */
  lemma UndecodableNotCounted(username: string, key: seq<Byte>, toAesKey: string -> seq<Byte>,
                              m: History, u: seq<Byte>, p: seq<Byte>)
    requires WellFormed(m)
    requires Utf8.Decode(u).None? || (Utf8.Decode(u) == Some(username) && Utf8.Decode(p).None?)
    ensures CheckCredentials(username, key, toAesKey, m, UsernamePassword(u, p)) == (UnicodeDecodeError, m)
  {
  }

  /** Credentials that are not a username and password are refused before anything is counted. */
  lemma OtherCredentialsUnhandled(username: string, key: seq<Byte>, toAesKey: string -> seq<Byte>,
                                  m: History)
    requires WellFormed(m)
    ensures CheckCredentials(username, key, toAesKey, m, OtherCredentials) == (UnhandledCredentials, m)
  {
  }

  /**
   * The converse of RefusalBacksOff: a username that decodes but differs from the stored one, or
   * a matching username with a password that decodes to the wrong key, is refused, counted
   * against the decoded username and delayed by the backoff of the new count.
   */
  lemma MismatchIsRefused(username: string, key: seq<Byte>, toAesKey: string -> seq<Byte>,
                          m: History, u: seq<Byte>, p: seq<Byte>)
    requires WellFormed(m) && Utf8.Decode(u).Some?
    requires var name := Utf8.Decode(u).value;
      name != username || (Utf8.Decode(p).Some? && toAesKey(Utf8.Decode(p).value) != key)
    ensures var (n, counted) := RecordFailure(m, Utf8.Decode(u).value);
      CheckCredentials(username, key, toAesKey, m, UsernamePassword(u, p))
        == (Unauthorized(Backoff(n, BACKOFF_SECONDS)), counted)
  {
  }

  /**
   * Three logins of a fresh user with a password that decodes to the wrong key are refused
   * after 2, 4 and 8 seconds.
   */
  lemma ThreeWrongPasswords(username: string, key: seq<Byte>, toAesKey: string -> seq<Byte>,
                            m: History, u: seq<Byte>, p: seq<Byte>)
    requires HistoryValid(m) && Utf8.Decode(u).Some? && Utf8.Decode(u).value !in m.values
    requires Utf8.Decode(p).Some? && toAesKey(Utf8.Decode(p).value) != key
    ensures var c := UsernamePassword(u, p);
      var (o1, m1) := CheckCredentials(username, key, toAesKey, m, c);
      var (o2, m2) := CheckCredentials(username, key, toAesKey, m1, c);
      var (o3, m3) := CheckCredentials(username, key, toAesKey, m2, c);
      o1 == Unauthorized(2.0) && o2 == Unauthorized(4.0) && o3 == Unauthorized(8.0)
  {
    var name := Utf8.Decode(u).value;
    var c := UsernamePassword(u, p);
    ThreeFailuresBackOff(m, name);
    MismatchIsRefused(username, key, toAesKey, m, u, p);
    var m1 := RecordFailure(m, name).1;
    MismatchIsRefused(username, key, toAesKey, m1, u, p);
    var m2 := RecordFailure(m1, name).1;
    MismatchIsRefused(username, key, toAesKey, m2, u, p);
  }

  /**
   * BasicUserPassCredentialChecker. The class-level history shared by every instance is the
   * `history` object handed to each checker.
   */
  class BasicUserPassCredentialChecker {
    const username: string
    /** The stored password is the AES key derived from the configured password. */
    const password: seq<Byte>
    const toAesKey: string -> seq<Byte>
    const history: LimitedSizeDict<string, int>

    ghost predicate Valid()
      reads this, history
    {
      history.Valid() && history.sizeLimit == Some(HISTORY_SIZE_LIMIT) && CountsInRange(history.Contents())
    }

    constructor (username: string, password: seq<Byte>, toAesKey: string -> seq<Byte>,
                 history: LimitedSizeDict<string, int>)
      requires history.Valid() && history.sizeLimit == Some(HISTORY_SIZE_LIMIT)
      requires CountsInRange(history.Contents())
      ensures Valid()
      ensures this.username == username && this.password == password
      ensures this.toAesKey == toAesKey && this.history == history
    {
      this.username := username;
      this.password := password;
      this.toAesKey := toAesKey;
      this.history := history;
    }

    /** get_consecutive_errors. */
    method GetConsecutiveErrors(user: string) returns (n: int)
      requires Valid()
      modifies history
      ensures Valid()
      ensures (n, history.Contents()) == RecordFailure(old(history.Contents()), user)
      ensures 1 <= n <= MAX_CONSECUTIVE_ERRORS
    {
      CountStaysInRange(history.Contents(), user);
      var stored := history.Get(user);
      if stored.Some? && stored.value != 0 {
        n := stored.value;
        if n < MAX_CONSECUTIVE_ERRORS {
          n := n + 1;
          history.Set(user, n);
        }
      } else {
        n := 1;
        history.Set(user, n);
      }
    }

    /** backoff, as the delay it sleeps for. */
    function BackoffDelay(n: int, t: real): (delay: real)
      ensures n >= 1 ==> delay == t * Pow2(n - 1)
      ensures n < 1 ==> delay * Pow2(1 - n) == t
    {
      Backoff(n, t)
    }

    /** requestAvatarId. */
    method RequestAvatarId(credentials: Credentials) returns (outcome: AuthOutcome)
      requires Valid()
      modifies history
      ensures Valid()
      ensures (outcome, history.Contents())
              == CheckCredentials(username, password, toAesKey, old(history.Contents()), credentials)
    {
      if !credentials.UsernamePassword? {
        return UnhandledCredentials;
      }
      var name := Utf8.Decode(credentials.username);
      if name.None? {
        return UnicodeDecodeError;
      }
      if name.value == username {
        var secret := Utf8.Decode(credentials.password);
        if secret.None? {
          return UnicodeDecodeError;
        }
        if toAesKey(secret.value) == password {
          return Authenticated(credentials.username);
        }
      }
      var n := GetConsecutiveErrors(name.value);
      outcome := Unauthorized(BackoffDelay(n, BACKOFF_SECONDS));
    }
  }

  /** The identity an authenticated request carries: Twisted's ANONYMOUS, or a username. */
  datatype AvatarId = Anonymous | User(name: seq<Byte>)

  /** The two JSON-RPC resources the realm can hand out. */
  datatype Api = ExtendedJsonRpcApi | ExtendedJsonRpcApiAuth

  /** HTTPAuthRealm.requestAvatar's choice of resource. */
  function RequestAvatar(avatarId: AvatarId): (api: Api)
    ensures api == ExtendedJsonRpcApiAuth <==> avatarId.User?
    ensures api == ExtendedJsonRpcApi <==> avatarId == Anonymous
  {
    if avatarId != Anonymous then ExtendedJsonRpcApiAuth else ExtendedJsonRpcApi
  }
}
